/**
 * The doubly linked list that stands in for std::map in C builds (im2d_api/src/im2d_job.cpp).
 * Nodes are relinked in place; the list always stands for a finite map.
 */
module JobList {
  import opened Common

  type Key = nat
  type Job = nat

  class Node {
    var prev: Node?
    var next: Node?
    const key: Key
    const value: Job

    constructor (key: Key, value: Job, prev: Node?)
      ensures this.key == key && this.value == value && this.prev == prev && this.next == null
    {
      this.key, this.value, this.prev, this.next := key, value, prev, null;
    }
  }

  /** The node at position i, or NULL past either end. */
  ghost function At(nodes: seq<Node>, i: int): Node? {
    if 0 <= i < |nodes| then nodes[i] else null
  }

  /** The sequence with the node at position i unlinked. */
  ghost function Without(nodes: seq<Node>, i: nat): (rest: seq<Node>)
    requires i < |nodes|
    ensures |rest| == |nodes| - 1
    ensures forall j {:trigger rest[j]} | 0 <= j < i :: rest[j] == nodes[j]
    ensures forall j {:trigger rest[j]} | i <= j < |rest| :: rest[j] == nodes[j + 1]
  {
    seq(|nodes| - 1, j requires 0 <= j < |nodes| - 1 => if j < i then nodes[j] else nodes[j + 1])
  }

  predicate Distinct(nodes: seq<Node>) {
    forall i, j | 0 <= i < j < |nodes| :: nodes[i] != nodes[j]
  }

  /** Links agree with positions. */
  ghost predicate Links(nodes: seq<Node>)
    reads nodes
  {
    && (forall i {:trigger nodes[i].prev} | 0 <= i < |nodes| :: nodes[i].prev == At(nodes, i - 1))
    && (forall i {:trigger nodes[i].next} | 0 <= i < |nodes| :: nodes[i].next == At(nodes, i + 1))
  }

  /** Backward, and forward, links agree with positions once node i is skipped. */
  ghost predicate PrevsAround(nodes: seq<Node>, i: nat)
    reads nodes
  {
    forall k {:trigger nodes[k].prev} | 0 <= k < |nodes| && k != i ::
      nodes[k].prev == At(nodes, if k == i + 1 then i - 1 else k - 1)
  }
  ghost predicate NextsAround(nodes: seq<Node>, i: nat)
    reads nodes
  {
    forall k {:trigger nodes[k].next} | 0 <= k < |nodes| && k != i ::
      nodes[k].next == At(nodes, if k == i - 1 then i + 1 else k + 1)
  }

  lemma SkippedIsUnlinked(nodes: seq<Node>, i: nat)
    requires Distinct(nodes) && i < |nodes| && PrevsAround(nodes, i) && NextsAround(nodes, i)
    ensures Links(Without(nodes, i)) && Distinct(Without(nodes, i))
  {
    var rest := Without(nodes, i);
    forall k | 0 <= k < |rest| ensures rest[k].prev == At(rest, k - 1) && rest[k].next == At(rest, k + 1) {
      var o := if k < i then k else k + 1;
      assert rest[k] == nodes[o] && nodes[o].prev == At(nodes, if o == i + 1 then i - 1 else o - 1);
      assert nodes[o].next == At(nodes, if o == i - 1 then i + 1 else o + 1);
    }
    forall p, q | 0 <= p < q < |rest| ensures rest[p] != rest[q] {
      var o, r := if p < i then p else p + 1, if q < i then q else q + 1;
      assert rest[p] == nodes[o] && rest[q] == nodes[r] && o < r;
    }
  }

  /** Every key names one node of the list, and every node is named by its key. */
  predicate Named(nodes: seq<Node>, table: map<Key, Node>) {
    && (forall i {:trigger nodes[i].key} | 0 <= i < |nodes| :: nodes[i].key in table && table[nodes[i].key] == nodes[i])
    && (forall k | k in table :: table[k] in nodes && table[k].key == k)
  }

  /** No two nodes of a list share a key. */
  lemma NamesAreDistinct(nodes: seq<Node>, table: map<Key, Node>, i: nat, j: nat)
    requires Named(nodes, table) && Distinct(nodes) && i < j < |nodes|
    ensures nodes[i].key != nodes[j].key
  {
    assert table[nodes[i].key] == nodes[i] && table[nodes[j].key] == nodes[j];
  }

  lemma NamedAppend(nodes: seq<Node>, table: map<Key, Node>, node: Node)
    requires Named(nodes, table) && node.key !in table
    ensures Named(nodes + [node], table[node.key := node])
  {
    var nodes', table' := nodes + [node], table[node.key := node];
    forall k | k in table' ensures table'[k] in nodes' && table'[k].key == k {
      if k in table { assert table[k] in nodes; } else { assert nodes'[|nodes|] == node; }
    }
  }

  lemma NamedWithout(nodes: seq<Node>, table: map<Key, Node>, i: nat)
    requires Named(nodes, table) && Distinct(nodes) && i < |nodes|
    ensures Named(Without(nodes, i), table - {nodes[i].key})
  {
    var rest, table' := Without(nodes, i), table - {nodes[i].key};
    forall j | 0 <= j < |rest| ensures rest[j].key in table' && table'[rest[j].key] == rest[j] {
      var o := if j < i then j else j + 1;
      assert rest[j] == nodes[o];
      NamesAreDistinct(nodes, table, if o < i then o else i, if o < i then i else o);
    }
    forall k | k in table' ensures table'[k] in rest && table'[k].key == k {
      var o :| 0 <= o < |nodes| && nodes[o] == table[k];
      assert rest[if o < i then o else o - 1] == nodes[o];
    }
  }

  ghost function Values(table: map<Key, Node>): map<Key, Job> {
    map k | k in table :: table[k].value
  }

  datatype Op = Insert(key: Key, job: Job) | Remove(key: Key) | Lookup(key: Key) | Clear

  /** What one operation does to the finite map. */
  function Effect(m: map<Key, Job>, op: Op): map<Key, Job> {
    match op
    case Insert(key, job) => if key in m then m else m[key := job]
    case Remove(key) => m - {key}
    case Lookup(_) => m
    case Clear => map[]
  }

  function After(m: map<Key, Job>, ops: seq<Op>): map<Key, Job> {
    if ops == [] then m else Effect(After(m, ops[..|ops| - 1]), ops[|ops| - 1])
  }

  /** The answer of a lookup; other operations answer nothing. */
  function Answer(m: map<Key, Job>, op: Op): seq<Option<Job>> {
    if op.Lookup? then [if op.key in m then Some(m[op.key]) else None] else []
  }

  /** The answers of the lookups among ops. */
  function Answers(m: map<Key, Job>, ops: seq<Op>): seq<Option<Job>> {
    if ops == [] then []
    else Answers(m, ops[..|ops| - 1]) + Answer(After(m, ops[..|ops| - 1]), ops[|ops| - 1])
  }

  class List {
    var head: Node?
    var tail: Node?
    ghost var nodes: seq<Node>
    ghost var table: map<Key, Node>

    /** head, tail, prev and next all describe the same sequence of distinct nodes. */
    ghost predicate Linked()
      reads this`head, this`tail, this`nodes, nodes
    {
      && Distinct(nodes) && Links(nodes)
      && head == At(nodes, 0) && tail == At(nodes, |nodes| - 1)
    }

    ghost predicate Valid()
      reads this, nodes
    {
      Linked() && Named(nodes, table)
    }

    /** The finite map the list stands for. */
    ghost function Model(): map<Key, Job>
      reads this`table
    {
      Values(table)
    }

    constructor ()
      ensures Valid() && nodes == [] && Model() == map[]
    {
      head, tail, nodes, table := null, null, [], map[];
    }

    /** rga_map_insert_tail */
    method InsertTail(key: Key, value: Job) returns (ghost added: Node)
      requires Linked()
      modifies this`head, this`tail, this`nodes, nodes
      ensures Linked() && nodes == old(nodes) + [added]
      ensures fresh(added) && added.key == key && added.value == value
    {
      var node := new Node(key, value, tail);
      if tail == null {
        head := node;
      } else {
        tail.next := node;
      }
      tail := node;
      nodes := nodes + [node];
      added := node;
    }

    /** The first half of rga_map_delete: the predecessor, or the head, skips the node. */
    method SkipForward(node: Node, ghost i: nat)
      requires Linked() && i < |nodes| && nodes[i] == node
      modifies this`head, nodes
      ensures NextsAround(nodes, i) && head == At(nodes, if i == 0 then 1 else 0)
      ensures forall k {:trigger nodes[k].prev} | 0 <= k < |nodes| :: nodes[k].prev == At(nodes, k - 1)
      ensures node.next == At(nodes, i + 1)
    {
      if node.prev != null {
        node.prev.next := node.next;
      } else {
        head := node.next;
      }
    }

    /** The second half: the successor, or the tail, skips it too. */
    method SkipBackward(node: Node, ghost i: nat)
      requires Distinct(nodes) && i < |nodes| && nodes[i] == node && tail == At(nodes, |nodes| - 1)
      requires NextsAround(nodes, i) && node.next == At(nodes, i + 1)
      requires forall k {:trigger nodes[k].prev} | 0 <= k < |nodes| :: nodes[k].prev == At(nodes, k - 1)
      modifies this`tail, nodes
      ensures NextsAround(nodes, i) && PrevsAround(nodes, i)
      ensures tail == At(nodes, if i == |nodes| - 1 then i - 1 else |nodes| - 1)
    {
      if node.next != null {
        node.next.prev := node.prev;
      } else {
        tail := node.prev;
      }
    }

    /** rga_map_delete, on the node at position i of the list or on NULL. */
    method Delete(node: Node?, ghost i: nat)
      requires Linked() && (node != null ==> i < |nodes| && nodes[i] == node)
      modifies this`head, this`tail, this`nodes, nodes
      ensures Linked()
      ensures nodes == if node == null then old(nodes) else Without(old(nodes), i)
    {
      if node == null {
        return;
      }
      SkipForward(node, i);
      SkipBackward(node, i);
      SkippedIsUnlinked(nodes, i);
      nodes := Without(nodes, i);
    }

    /** rga_map_find */
    method Find(key: Key) returns (node: Node?, ghost i: nat)
      requires Linked()
      ensures node != null ==> i < |nodes| && nodes[i] == node && node.key == key
      ensures node == null <==> forall j | 0 <= j < |nodes| :: nodes[j].key != key
    {
      var curr := head;
      i := 0;
      while curr != null
        invariant i <= |nodes| && curr == At(nodes, i)
        invariant forall j | 0 <= j < i :: nodes[j].key != key
        decreases |nodes| - i
      {
        if curr.key == key {
          return curr, i;
        }
        curr := curr.next;
        i := i + 1;
      }
      node := null;
    }

    /** rga_map_list_deatroy: each pass unlinks the head, so the length is its measure. */
    method Destroy()
      requires Linked()
      modifies this, nodes
      ensures Valid() && nodes == [] && Model() == map[]
    {
      while head != null
        invariant Linked() && forall i {:trigger nodes[i]} | 0 <= i < |nodes| :: nodes[i] in old(nodes)
        decreases |nodes|
      {
        Delete(head, 0);
      }
      table := map[];
    }

    /** rga_map_insert_job: a handle already present keeps its job. */
    method InsertJob(key: Key, job: Job)
      requires Valid()
      modifies this, nodes
      ensures Valid() && (nodes == old(nodes) || exists n :: nodes == old(nodes) + [n] && fresh(n))
      ensures Model() == if key in old(Model()) then old(Model()) else old(Model())[key := job]
    {
      var node, i := Find(key);
      if node == null {
        ghost var added := InsertTail(key, job);
        assert key !in table;
        NamedAppend(old(nodes), table, added);
        table := table[key := added];
        assert Values(table) == old(Values(table))[key := job];
      }
    }

    /** Deleting a node takes its key out of the map the list stands for. */
    method DeleteNamed(node: Node, ghost i: nat)
      requires Valid() && i < |nodes| && nodes[i] == node
      modifies this, nodes
      ensures Valid() && nodes == Without(old(nodes), i) && table == old(table) - {node.key}
    {
      NamedWithout(nodes, table, i);
      Delete(node, i);
      table := table - {node.key};
    }

    /** rga_map_delete_job */
    method DeleteJob(key: Key) returns (ghost gone: nat)
      requires Valid()
      modifies this, nodes
      ensures Valid() && Model() == old(Model()) - {key}
      ensures nodes == if gone < |old(nodes)| then Without(old(nodes), gone) else old(nodes)
    {
      var node, i := Find(key);
      gone := |nodes|;
      if node != null {
        gone := i;
        DeleteNamed(node, i);
      } else {
        assert key !in table;
      }
      assert Values(table) == old(Values(table)) - {key};
    }

    /** rga_map_find_job */
    method FindJob(key: Key) returns (job: Option<Job>)
      requires Valid()
      ensures job == if key in Model() then Some(Model()[key]) else None
    {
      var node, i := Find(key);
      if node != null {
        return Some(node.value);
      }
      return None;
    }

    /** One operation, whichever. */
    method Perform(op: Op) returns (answer: seq<Option<Job>>)
      requires Valid()
      modifies this, nodes
      ensures Valid() && Model() == Effect(old(Model()), op) && answer == Answer(old(Model()), op)
      ensures forall i {:trigger nodes[i]} | 0 <= i < |nodes| :: nodes[i] in old(nodes) || fresh(nodes[i])
    {
      answer := [];
      match op {
        case Insert(key, job) => InsertJob(key, job);
        case Remove(key) => ghost var gone := DeleteJob(key);
        case Lookup(key) =>
          var job := FindJob(key);
          answer := [job];
        case Clear => Destroy();
      }
    }

    /** Any sequence of operations on the list answers as the finite map does and leaves the list
        standing for the map they leave. */
    method Execute(ops: seq<Op>) returns (answers: seq<Option<Job>>)
      requires Valid()
      modifies this, nodes
      ensures Valid() && Model() == After(old(Model()), ops)
      ensures answers == Answers(old(Model()), ops)
    {
      answers := [];
      var n := 0;
      while n < |ops|
        invariant 0 <= n <= |ops| && Valid() && Model() == After(old(Model()), ops[..n])
        invariant answers == Answers(old(Model()), ops[..n])
        invariant forall i {:trigger nodes[i]} | 0 <= i < |nodes| :: nodes[i] in old(nodes) || fresh(nodes[i])
      {
        assert ops[..n + 1][..n] == ops[..n];
        var answer := Perform(ops[n]);
        answers := answers + answer;
        n := n + 1;
      }
      assert ops[..|ops|] == ops;
    }
  }
}
