/**
 * What the engine does to pixels. An image is a function of coordinates; a task fills or
 * copies a rectangle of the destination, possibly flipped; a job is a set of tasks. The
 * engine writes one pixel at a time, in any order and with any interleaving of the tasks of
 * a job, reading the destination as it is at that moment. Jobs are ordered only by fences.
 */
module Raster {
  import opened Common
  import opened Windows

  type Pixel = int
  type Image = (int, int) -> Pixel

  datatype Buf = Src | Dst

  datatype Task =
    | Fill(target: Rect, color: Pixel)
    | Blit(from: Buf, source: Rect, target: Rect, flipH: bool, flipV: bool)

  predicate Covers(t: Task, x: int, y: int) { Inside(t.target, x, y) }

  /** The source coordinates a blit reads for target pixel (x, y). */
  function FromX(t: Task, x: int): int
    requires t.Blit?
  {
    t.source.x + if t.flipH then t.source.width - 1 - (x - t.target.x) else x - t.target.x
  }

  function FromY(t: Task, y: int): int
    requires t.Blit?
  {
    t.source.y + if t.flipV then t.source.height - 1 - (y - t.target.y) else y - t.target.y
  }

  function Value(t: Task, src: Image, dst: Image, x: int, y: int): Pixel {
    match t
    case Fill(_, color) => color
    case Blit(from, _, _, _, _) => (if from == Src then src else dst)(FromX(t, x), FromY(t, y))
  }

  // ---------------------------------------------------------------------------------
  // One job.

  type Job = seq<Task>

  /** Task number `task` writes pixel (x, y). */
  datatype Event = Event(task: nat, x: int, y: int)

  predicate EventOf(job: Job, e: Event) { e.task < |job| && Covers(job[e.task], e.x, e.y) }

  predicate EventsIn(job: Job, evs: seq<Event>) { forall i | 0 <= i < |evs| :: EventOf(job, evs[i]) }

  /** The job's pixel writes in some order: nothing but its own, and all of them. */
  ghost predicate ScheduleOf(job: Job, evs: seq<Event>) {
    && EventsIn(job, evs)
    && (forall k: nat, x, y | k < |job| && Covers(job[k], x, y) :: Event(k, x, y) in evs)
  }

  function Put(img: Image, x: int, y: int, p: Pixel): Image {
    (u: int, v: int) => if u == x && v == y then p else img(u, v)
  }

  function Perform(job: Job, evs: seq<Event>, src: Image, dst: Image): Image
    requires EventsIn(job, evs)
  {
    if evs == [] then dst
    else
      var e := evs[|evs| - 1];
      var before := Perform(job, evs[..|evs| - 1], src, dst);
      assert EventOf(job, e);
      Put(before, e.x, e.y, Value(job[e.task], src, before, e.x, e.y))
  }

  /** The first of the job's tasks that covers a pixel. */
  function Coverer(job: Job, x: int, y: int): (k: Option<nat>)
    ensures k.Some? ==> k.value < |job| && Covers(job[k.value], x, y)
    ensures k.None? ==> forall i | 0 <= i < |job| :: !Covers(job[i], x, y)
  {
    if job == [] then None
    else if Coverer(job[..|job| - 1], x, y).Some? then Coverer(job[..|job| - 1], x, y)
    else if Covers(job[|job| - 1], x, y) then Some(|job| - 1)
    else None
  }

  /** The job done all at once, every task reading the image as it was before. */
  function AtOnce(job: Job, src: Image, dst: Image, x: int, y: int): Pixel {
    var k := Coverer(job, x, y);
    if k.Some? then Value(job[k.value], src, dst, x, y) else dst(x, y)
  }

  /** Doing two jobs' tasks at once: the first job's where it covers, else the second's. */
  lemma AtOnceConcat(a: Job, b: Job, src: Image, dst: Image, x: int, y: int)
    ensures Coverer(a + b, x, y).Some? <==> Coverer(a, x, y).Some? || Coverer(b, x, y).Some?
    ensures AtOnce(a + b, src, dst, x, y) ==
              if Coverer(a, x, y).Some? then AtOnce(a, src, dst, x, y) else AtOnce(b, src, dst, x, y)
  {
    CovererConcat(a, b, x, y);
  }

  lemma {:induction false} CovererConcat(a: Job, b: Job, x: int, y: int)
    ensures Coverer(a + b, x, y) ==
              if Coverer(a, x, y).Some? then Coverer(a, x, y)
              else if Coverer(b, x, y).Some? then Some(|a| + Coverer(b, x, y).value) else None
  {
    if b == [] {
      assert a + b == a;
    } else {
      assert (a + b)[..|a + b| - 1] == a + b[..|b| - 1] && (a + b)[|a + b| - 1] == b[|b| - 1];
      CovererConcat(a, b[..|b| - 1], x, y);
    }
  }

  lemma AtOnceSingle(t: Task, src: Image, dst: Image, x: int, y: int)
    ensures Coverer([t], x, y).Some? <==> Covers(t, x, y)
    ensures AtOnce([t], src, dst, x, y) == if Covers(t, x, y) then Value(t, src, dst, x, y) else dst(x, y)
  {
    assert [t][..0] == [];
  }

  /** No task reads what a task of the job writes, and tasks that overlap agree. */
  ghost predicate Independent(job: Job, src: Image, dst: Image) {
    && (forall k: nat, l: nat, x, y | k < |job| && l < |job| && Covers(job[k], x, y) && Covers(job[l], x, y) ::
          Value(job[k], src, dst, x, y) == Value(job[l], src, dst, x, y))
    && (forall k: nat, l: nat, x, y
          | k < |job| && l < |job| && job[k].Blit? && job[k].from == Dst && Covers(job[k], x, y) ::
          !Covers(job[l], FromX(job[k], x), FromY(job[k], y)))
  }

  predicate Written(evs: seq<Event>, x: int, y: int) {
    evs != [] && ((evs[|evs| - 1].x == x && evs[|evs| - 1].y == y) || Written(evs[..|evs| - 1], x, y))
  }

  lemma {:induction false} WrittenIff(evs: seq<Event>, x: int, y: int)
    ensures Written(evs, x, y) <==> exists k :: Event(k, x, y) in evs
  {
    if evs != [] {
      var front, e := evs[..|evs| - 1], evs[|evs| - 1];
      WrittenIff(front, x, y);
      assert evs == front + [e];
      if e.x == x && e.y == y { assert Event(e.task, x, y) in evs; }
      if Written(front, x, y) {
        var k :| Event(k, x, y) in front;
        assert Event(k, x, y) in evs;
      }
    }
  }

  /** After any part of any schedule, a pixel is either untouched or has its final value. */
  lemma {:induction false} PartialSchedule(job: Job, evs: seq<Event>, src: Image, dst: Image, x: int, y: int)
    requires EventsIn(job, evs) && Independent(job, src, dst)
    ensures Perform(job, evs, src, dst)(x, y) == if Written(evs, x, y) then AtOnce(job, src, dst, x, y) else dst(x, y)
  {
    if evs != [] {
      var front, e := evs[..|evs| - 1], evs[|evs| - 1];
      PartialSchedule(job, front, src, dst, x, y);
      if e.x == x && e.y == y {
        var t := job[e.task];
        if t.Blit? && t.from == Dst {
          var u, v := FromX(t, x), FromY(t, y);
          PartialSchedule(job, front, src, dst, u, v);
          NotWritten(job, front, e.task, x, y);
        }
        var k := Coverer(job, x, y).value;
        assert Covers(job[k], x, y) && Covers(job[e.task], x, y);
      }
    }
  }

  lemma NotWritten(job: Job, evs: seq<Event>, k: nat, x: int, y: int)
    requires EventsIn(job, evs)
    requires k < |job| && job[k].Blit? && Covers(job[k], x, y)
    requires forall l: nat | l < |job| :: !Covers(job[l], FromX(job[k], x), FromY(job[k], y))
    ensures !Written(evs, FromX(job[k], x), FromY(job[k], y))
  {
    WrittenIff(evs, FromX(job[k], x), FromY(job[k], y));
  }

  /** Every order and interleaving of an independent job gives the same image. */
  lemma AnyScheduleSameImage(job: Job, evs: seq<Event>, src: Image, dst: Image, x: int, y: int)
    requires ScheduleOf(job, evs) && Independent(job, src, dst)
    ensures Perform(job, evs, src, dst)(x, y) == AtOnce(job, src, dst, x, y)
  {
    PartialSchedule(job, evs, src, dst, x, y);
    var k := Coverer(job, x, y);
    WrittenIff(evs, x, y);
    if k.Some? { assert Event(k.value, x, y) in evs; }
  }

  // ---------------------------------------------------------------------------------
  // Several jobs ordered by fences.

  /** A job given to the driver that starts only once submission `after` has signalled. */
  datatype Submission = Submission(job: Job, after: Option<nat>)

  datatype Tagged = Tagged(sub: nat, ev: Event)

  /** Submission b waits for a, directly or through the fences of others. */
  predicate WaitsFor(subs: seq<Submission>, b: nat, a: nat)
    decreases b
  {
    b < |subs| && subs[b].after.Some? && subs[b].after.value < b &&
    (subs[b].after.value == a || WaitsFor(subs, subs[b].after.value, a))
  }

  function EventsOf(sched: seq<Tagged>, j: nat): seq<Event> {
    if sched == [] then []
    else
      var g := sched[|sched| - 1];
      EventsOf(sched[..|sched| - 1], j) + (if g.sub == j then [g.ev] else [])
  }

  predicate TaggedOk(subs: seq<Submission>, g: Tagged) { g.sub < |subs| && EventOf(subs[g.sub].job, g.ev) }

  predicate TaggedIn(subs: seq<Submission>, sched: seq<Tagged>) {
    forall p | 0 <= p < |sched| :: TaggedOk(subs, sched[p])
  }

  /** Any global order of pixel writes in which no submission starts before one it waits for ends. */
  ghost predicate Allowed(subs: seq<Submission>, sched: seq<Tagged>) {
    && TaggedIn(subs, sched)
    && (forall j: nat {:trigger EventsOf(sched, j)} | j < |subs| :: ScheduleOf(subs[j].job, EventsOf(sched, j)))
    && (forall p, q | 0 <= p < q < |sched| :: !WaitsFor(subs, sched[p].sub, sched[q].sub))
  }

  function PerformAll(subs: seq<Submission>, sched: seq<Tagged>, src: Image, dst: Image): Image
    requires TaggedIn(subs, sched)
  {
    if sched == [] then dst
    else
      var g := sched[|sched| - 1];
      var before := PerformAll(subs, sched[..|sched| - 1], src, dst);
      assert TaggedOk(subs, g);
      Put(before, g.ev.x, g.ev.y, Value(subs[g.sub].job[g.ev.task], src, before, g.ev.x, g.ev.y))
  }

  /** The first n submissions done one after the other, each all at once. */
  function InTurn(subs: seq<Submission>, n: nat, src: Image, dst: Image): Image
    requires n <= |subs|
  {
    if n == 0 then dst
    else
      var before := InTurn(subs, n - 1, src, dst);
      (x: int, y: int) => AtOnce(subs[n - 1].job, src, before, x, y)
  }

  ghost predicate IndependentInTurn(subs: seq<Submission>, src: Image, dst: Image) {
    forall n: nat {:trigger InTurn(subs, n, src, dst)} | n < |subs| ::
      Independent(subs[n].job, src, InTurn(subs, n, src, dst))
  }

  /** Each submission waits for the one before it. */
  predicate Chained(subs: seq<Submission>) {
    forall j | 0 < j < |subs| :: subs[j].after == Some(j - 1)
  }

  lemma {:induction false} ChainOrders(subs: seq<Submission>, a: nat, b: nat)
    requires Chained(subs) && a < b < |subs|
    ensures WaitsFor(subs, b, a)
  {
    if a < b - 1 { ChainOrders(subs, a, b - 1); }
  }

  predicate InOrder(sched: seq<Tagged>) {
    forall p, q | 0 <= p < q < |sched| :: sched[p].sub <= sched[q].sub
  }

  /** The events of submission j are those from position m on. */
  predicate SplitsAt(sched: seq<Tagged>, m: nat, j: nat) {
    && m <= |sched| && (j == 0 ==> m == 0)
    && (forall p | 0 <= p < m :: sched[p].sub < j) && (forall p | m <= p < |sched| :: sched[p].sub == j)
  }

  lemma {:induction false} SplitPoint(sched: seq<Tagged>, j: nat) returns (m: nat)
    requires InOrder(sched) && forall p | 0 <= p < |sched| :: sched[p].sub <= j
    ensures SplitsAt(sched, m, j)
  {
    if sched == [] || sched[|sched| - 1].sub < j {
      m := |sched|;
    } else {
      m := SplitPoint(sched[..|sched| - 1], j);
    }
  }

  /** Past the split the run is a run of submission j alone. */
  lemma {:induction false} TailIsOneJob(
    subs: seq<Submission>, sched: seq<Tagged>, m: nat, j: nat, src: Image, dst: Image)
    requires TaggedIn(subs, sched) && j < |subs| && SplitsAt(sched, m, j)
    ensures EventsIn(subs[j].job, EventsOf(sched, j))
    ensures PerformAll(subs, sched, src, dst)
            == Perform(subs[j].job, EventsOf(sched, j), src, PerformAll(subs, sched[..m], src, dst))
  {
    if m == |sched| {
      assert sched[..m] == sched;
      NoEvents(sched, j);
    } else {
      var front, g := sched[..|sched| - 1], sched[|sched| - 1];
      TailIsOneJob(subs, front, m, j, src, dst);
      assert front[..m] == sched[..m];
      var evs := EventsOf(sched, j);
      assert evs == EventsOf(front, j) + [g.ev] && evs[..|evs| - 1] == EventsOf(front, j);
    }
  }

  /** No earlier submission has an event past the split. */
  lemma {:induction false} TailHasNoOther(sched: seq<Tagged>, m: nat, j: nat, i: nat)
    requires SplitsAt(sched, m, j) && i < j
    ensures EventsOf(sched, i) == EventsOf(sched[..m], i)
  {
    if m == |sched| {
      assert sched[..m] == sched;
    } else {
      TailHasNoOther(sched[..|sched| - 1], m, j, i);
      assert sched[..|sched| - 1][..m] == sched[..m];
    }
  }

  lemma {:induction false} NoEvents(sched: seq<Tagged>, j: nat)
    requires forall p | 0 <= p < |sched| :: sched[p].sub != j
    ensures EventsOf(sched, j) == []
  {
    if sched != [] { NoEvents(sched[..|sched| - 1], j); }
  }

  /** The images agree everywhere. */
  ghost predicate Same(a: Image, b: Image) { forall x, y :: a(x, y) == b(x, y) }

  lemma IndependentCongruent(job: Job, src: Image, d: Image, d': Image)
    requires Independent(job, src, d) && Same(d, d')
    ensures Independent(job, src, d')
    ensures forall x, y :: AtOnce(job, src, d, x, y) == AtOnce(job, src, d', x, y)
  {
    assert forall k: nat, x, y | k < |job| :: Value(job[k], src, d, x, y) == Value(job[k], src, d', x, y);
  }

  /** The part of an allowed schedule that concerns the first n submissions. */
  ghost predicate Ordered(subs: seq<Submission>, sched: seq<Tagged>, n: nat) {
    && n <= |subs| && InOrder(sched) && (n == 0 ==> sched == [])
    && TaggedIn(subs, sched) && (forall p | 0 <= p < |sched| :: sched[p].sub < n)
    && (forall j: nat {:trigger EventsOf(sched, j)} | j < n :: ScheduleOf(subs[j].job, EventsOf(sched, j)))
  }

  /** The last submission, whatever its own schedule, acts at once on what came before. */
  lemma LastJobRun(subs: seq<Submission>, sched: seq<Tagged>, m: nat, j: nat, src: Image, dst: Image)
    requires Ordered(subs, sched, j + 1) && SplitsAt(sched, m, j) && IndependentInTurn(subs, src, dst)
    requires Ordered(subs, sched[..m], j) && Same(PerformAll(subs, sched[..m], src, dst), InTurn(subs, j, src, dst))
    ensures Same(PerformAll(subs, sched, src, dst), InTurn(subs, j + 1, src, dst))
  {
    var before, job := PerformAll(subs, sched[..m], src, dst), subs[j].job;
    IndependentCongruent(job, src, InTurn(subs, j, src, dst), before);
    TailIsOneJob(subs, sched, m, j, src, dst);
    forall x, y ensures PerformAll(subs, sched, src, dst)(x, y) == InTurn(subs, j + 1, src, dst)(x, y) {
      AnyScheduleSameImage(job, EventsOf(sched, j), src, before, x, y);
    }
  }

  lemma OrderedPrefix(subs: seq<Submission>, sched: seq<Tagged>, n: nat) returns (m: nat)
    requires 0 < n && Ordered(subs, sched, n)
    ensures SplitsAt(sched, m, n - 1) && Ordered(subs, sched[..m], n - 1)
  {
    m := SplitPoint(sched, n - 1);
    forall j: nat | j < n - 1 ensures ScheduleOf(subs[j].job, EventsOf(sched[..m], j)) {
      TailHasNoOther(sched, m, n - 1, j);
    }
  }

  lemma {:induction false} OrderedRun(subs: seq<Submission>, sched: seq<Tagged>, n: nat, src: Image, dst: Image)
    requires Ordered(subs, sched, n) && IndependentInTurn(subs, src, dst)
    ensures Same(PerformAll(subs, sched, src, dst), InTurn(subs, n, src, dst))
    decreases n
  {
    if n > 0 {
      var m := OrderedPrefix(subs, sched, n);
      OrderedRun(subs, sched[..m], n - 1, src, dst);
      LastJobRun(subs, sched, m, n - 1, src, dst);
    }
  }

  /** Whatever schedule the fences allow, chained independent jobs give the image of doing
      them one after the other. */
  lemma FencedRun(subs: seq<Submission>, sched: seq<Tagged>, src: Image, dst: Image, x: int, y: int)
    requires subs != [] && Chained(subs) && Allowed(subs, sched) && IndependentInTurn(subs, src, dst)
    ensures PerformAll(subs, sched, src, dst)(x, y) == InTurn(subs, |subs|, src, dst)(x, y)
  {
    forall p, q | 0 <= p < q < |sched| ensures sched[p].sub <= sched[q].sub {
      assert TaggedOk(subs, sched[p]) && TaggedOk(subs, sched[q]);
      if sched[q].sub < sched[p].sub { ChainOrders(subs, sched[q].sub, sched[p].sub); }
    }
    OrderedRun(subs, sched, |subs|, src, dst);
  }
}
