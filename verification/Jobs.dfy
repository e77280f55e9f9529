/**
 * The im2d job manager (im2d_api/src/im2d_impl.cpp, im2d_job.cpp) as a machine over the
 * critical sections of its mutex and the driver calls between them. Any number of threads
 * create, append to, configure, submit and cancel jobs.
 *
 * Job blocks are heap allocations, numbered as they are made, so a stale pointer can never
 * name a newer block. Touching or freeing a block that is not allocated, or writing outside
 * its request array, sets `fault`.
 */
module Jobs {
  import opened Common

  type Tid = nat
  /** The driver's request ids; 0 reads as failure and never names a job. */
  type Handle = h: int | 0 < h witness 1
  type BlockId = nat
  type Request = int

  const TASK_NUM_MAX := 256

  datatype Block = Block(req: seq<Request>, taskCount: int, id: Handle)

  datatype Manager = Manager(
    jobMap: map<Handle, BlockId>, jobCount: int,
    heap: map<BlockId, Block>, next: BlockId, fault: bool)

  // ---------------------------------------------------------------------------------
  // Critical sections.

  function Fault(m: Manager): Manager { m.(fault := true) }

  function Free(m: Manager, b: BlockId): Manager {
    if b in m.heap then m.(heap := m.heap - {b}) else Fault(m)
  }

  predicate Creates(m: Manager, h: Handle, granted: bool) { h !in m.jobMap && granted }

  /** rga_job_create once the driver has named the handle. */
  function Create(m: Manager, h: Handle, granted: bool): Manager {
    if h in m.jobMap then (if m.jobMap[h] in m.heap then m else Fault(m)) // reads task_count for its report
    else if !granted then m
    else m.(heap := m.heap[m.next := Block(seq(TASK_NUM_MAX, _ => 0), 0, h)], next := m.next + 1,
            jobMap := m.jobMap[h := m.next], jobCount := m.jobCount + 1)
  }

  predicate Appends(m: Manager, h: Handle) {
    h in m.jobMap && m.jobMap[h] in m.heap && m.heap[m.jobMap[h]].taskCount < TASK_NUM_MAX
  }

  /** The last part of rga_task_submit in job mode. */
  function Append(m: Manager, h: Handle, r: Request): Manager {
    if h !in m.jobMap then m
    else
      var b := m.jobMap[h];
      if b !in m.heap then Fault(m)
      else
        var job := m.heap[b];
        if job.taskCount >= TASK_NUM_MAX then m
        else if !(0 <= job.taskCount < |job.req|) then Fault(m)
        else m.(heap := m.heap[b := job.(req := job.req[job.taskCount := r], taskCount := job.taskCount + 1)])
  }

  /** Taking a job out of the map, in rga_job_submit and rga_job_cancel. */
  function Remove(m: Manager, h: Handle): Manager {
    if h in m.jobMap then m.(jobMap := m.jobMap - {h}, jobCount := m.jobCount - 1) else m
  }

  function Cancel(m: Manager, h: Handle): Manager {
    if h in m.jobMap then Free(Remove(m, h), m.jobMap[h]) else m
  }

  // ---------------------------------------------------------------------------------
  // The machine.

  /** What one driver call was given. */
  datatype Delivery = Delivery(b: BlockId, tasks: seq<Request>, num: int, id: Handle)

  /** What has happened so far: the handle each block was created for, the requests appended
      to it in the order of their critical sections, which blocks were taken out of the map,
      how often each was freed, and what the driver was given by submit and by config. */
  datatype Trace = Trace(
    created: map<BlockId, Handle>, appended: map<BlockId, seq<Request>>,
    removed: set<BlockId>, freed: multiset<BlockId>,
    submitted: set<Delivery>, configured: set<Delivery>)

  datatype Pc =
    | Idle
    | Cancelling(h: Handle)      // create's error path, before its rga_job_cancel
    | Submitting(b: BlockId)     // job removed, driver not called yet
    | Delivered(b: BlockId)    // driver returned, block not freed yet
    | Configuring(b: BlockId)    // holds the mutex, driver not called yet
    | Copied(b: BlockId)   // driver returned, mutex still held

  /** `taken` are the blocks submits have removed, `calls` the driver's submit calls by block. */
  datatype State = State(
    m: Manager, pcs: map<Tid, Pc>, lock: Option<Tid>, tr: Trace,
    taken: set<BlockId>, calls: multiset<BlockId>)

  datatype Step =
    | CreateStep(t: Tid, h: Handle, granted: bool)
    | AppendStep(t: Tid, h: Handle, r: Request)
    | CancelStep(t: Tid, h: Handle)
    | TakeStep(t: Tid, h: Handle)
    | SubmitStep(t: Tid)
    | FreeStep(t: Tid)
    | ConfigLock(t: Tid, h: Handle)
    | ConfigStep(t: Tid)
    | ConfigUnlock(t: Tid)

  const Initial := State(Manager(map[], 0, map[], 0, false), map[], None,
                         Trace(map[], map[], {}, multiset{}, {}, {}), {}, multiset{})

  function PcOf(s: State, t: Tid): Pc {
    if t in s.pcs then s.pcs[t] else Idle
  }

  predicate Enabled(s: State, step: Step) {
    match step
    case CreateStep(t, _, _) => s.lock.None? && PcOf(s, t) == Idle
    case AppendStep(t, _, _) => s.lock.None? && PcOf(s, t) == Idle
    case CancelStep(t, h) => s.lock.None? && (PcOf(s, t) == Idle || PcOf(s, t) == Cancelling(h))
    case TakeStep(t, _) => s.lock.None? && PcOf(s, t) == Idle
    case ConfigLock(t, _) => s.lock.None? && PcOf(s, t) == Idle
    case SubmitStep(t) => PcOf(s, t).Submitting?
    case FreeStep(t) => PcOf(s, t).Delivered?
    case ConfigStep(t) => PcOf(s, t).Configuring?
    case ConfigUnlock(t) => PcOf(s, t).Copied?
  }

  /** The request bytes the driver copies: the first task_num entries of the block. */
  function Tasks(job: Block): seq<Request> {
    if 0 <= job.taskCount <= |job.req| then job.req[..job.taskCount] else []
  }

  function Deliver(m: Manager, b: BlockId): Delivery
    requires b in m.heap
  {
    Delivery(b, Tasks(m.heap[b]), m.heap[b].taskCount, m.heap[b].id)
  }

  function RecordCreated(tr: Trace, b: BlockId, h: Handle): Trace {
    tr.(created := tr.created[b := h], appended := tr.appended[b := []])
  }

  function RecordAppended(tr: Trace, b: BlockId, r: Request): Trace {
    tr.(appended := tr.appended[b := (if b in tr.appended then tr.appended[b] else []) + [r]])
  }

  function RecordRemoved(tr: Trace, b: BlockId): Trace { tr.(removed := tr.removed + {b}) }
  function RecordFreed(tr: Trace, b: BlockId): Trace { tr.(freed := tr.freed + multiset{b}) }

  function Apply(s: State, step: Step): State
    requires Enabled(s, step)
  {
    match step
    case CreateStep(t, h, granted) =>
      if Creates(s.m, h, granted) then
        s.(m := Create(s.m, h, granted), tr := RecordCreated(s.tr, s.m.next, h))
      else s.(m := Create(s.m, h, granted), pcs := s.pcs[t := Cancelling(h)])
    case AppendStep(t, h, r) =>
      s.(m := Append(s.m, h, r), tr := if Appends(s.m, h) then RecordAppended(s.tr, s.m.jobMap[h], r) else s.tr)
    case CancelStep(t, h) =>
      if h !in s.m.jobMap then s.(pcs := s.pcs[t := Idle])
      else s.(m := Cancel(s.m, h), pcs := s.pcs[t := Idle],
              tr := RecordFreed(RecordRemoved(s.tr, s.m.jobMap[h]), s.m.jobMap[h]))
    case TakeStep(t, h) =>
      if h !in s.m.jobMap then s
      else s.(m := Remove(s.m, h), pcs := s.pcs[t := Submitting(s.m.jobMap[h])],
              tr := RecordRemoved(s.tr, s.m.jobMap[h]), taken := s.taken + {s.m.jobMap[h]})
    case SubmitStep(t) =>
      var b := PcOf(s, t).b;
      if b !in s.m.heap then s.(m := Fault(s.m))
      else s.(pcs := s.pcs[t := Delivered(b)], calls := s.calls + multiset{b},
              tr := s.tr.(submitted := s.tr.submitted + {Deliver(s.m, b)}))
    case FreeStep(t) =>
      s.(m := Free(s.m, PcOf(s, t).b), pcs := s.pcs[t := Idle], tr := RecordFreed(s.tr, PcOf(s, t).b))
    case ConfigLock(t, h) =>
      if h !in s.m.jobMap then s
      else s.(lock := Some(t), pcs := s.pcs[t := Configuring(s.m.jobMap[h])])
    case ConfigStep(t) =>
      var b := PcOf(s, t).b;
      if b !in s.m.heap then s.(m := Fault(s.m))
      else s.(pcs := s.pcs[t := Copied(b)],
              tr := s.tr.(configured := s.tr.configured + {Deliver(s.m, b)}))
    case ConfigUnlock(t) => s.(lock := None, pcs := s.pcs[t := Idle])
  }

  // ---------------------------------------------------------------------------------
  // The invariant of every reachable state.

  /** The map owns block b. */
  predicate InMap(m: Manager, b: BlockId) {
    b in m.heap && m.heap[b].id in m.jobMap && m.jobMap[m.heap[b].id] == b
  }

  predicate Submits(pc: Pc) { pc.Submitting? || pc.Delivered? }
  predicate Configures(pc: Pc) { pc.Configuring? || pc.Copied? }

  predicate MapOk(m: Manager) {
    && !m.fault && m.jobCount == |m.jobMap|
    && (forall h | h in m.jobMap :: m.jobMap[h] in m.heap && m.heap[m.jobMap[h]].id == h)
    && (forall b | b in m.heap :: b < m.next)
  }

  /** The block holds exactly the requests appended to it, within its array. */
  predicate BlockOk(job: Block, b: BlockId, tr: Trace) {
    && |job.req| == TASK_NUM_MAX && 0 <= job.taskCount <= TASK_NUM_MAX
    && b in tr.appended && Tasks(job) == tr.appended[b]
    && b in tr.created && tr.created[b] == job.id
  }

  /** The driver was given every request ever appended to that job, their number and its handle. */
  predicate DeliveryOk(d: Delivery, tr: Trace) {
    && d.b in tr.removed && d.b in tr.appended && d.tasks == tr.appended[d.b] && d.num == |d.tasks|
    && d.b in tr.created && d.id == tr.created[d.b]
  }

  ghost predicate TraceOk(m: Manager, tr: Trace) {
    && (forall b | b in tr.created || b in tr.appended :: b < m.next)
    && (forall b | b in tr.removed :: b < m.next && !InMap(m, b))
    && (forall b: BlockId :: tr.freed[b] == if b < m.next && b !in m.heap then 1 else 0)
    && (forall b | b in tr.freed :: b in tr.removed)
    && (forall d | d in tr.submitted :: DeliveryOk(d, tr))
  }

  predicate BlocksOk(m: Manager, tr: Trace) {
    forall b | b in m.heap :: BlockOk(m.heap[b], b, tr)
  }

  ghost predicate ManagerOk(m: Manager, tr: Trace) {
    MapOk(m) && BlocksOk(m, tr) && TraceOk(m, tr)
  }

  /** Each submitting thread owns a block the map no longer has, and no two own the same one;
      a configuring thread holds the mutex and a block still in the map. */
  ghost predicate ThreadsOk(s: State) {
    && (forall t | t in s.pcs && Submits(s.pcs[t]) ::
          s.pcs[t].b in s.m.heap && !InMap(s.m, s.pcs[t].b) && s.pcs[t].b in s.tr.removed)
    && (forall t, u | t in s.pcs && u in s.pcs && Submits(s.pcs[t]) && Submits(s.pcs[u]) ::
          s.pcs[t].b == s.pcs[u].b ==> t == u)
    && (forall t | t in s.pcs && Configures(s.pcs[t]) :: s.lock == Some(t) && InMap(s.m, s.pcs[t].b))
  }

  /** Some owner will free block b: the map, or a submitting thread. */
  ghost predicate Owned(s: State, b: BlockId) {
    InMap(s.m, b) || exists t :: t in s.pcs && Submits(s.pcs[t]) && s.pcs[t].b == b
  }

  ghost predicate OwnersOk(s: State) {
    forall b | b in s.m.heap :: Owned(s, b)
  }

  ghost predicate Inv(s: State) {
    ManagerOk(s.m, s.tr) && OwnersOk(s) && ThreadsOk(s)
  }

  // ---------------------------------------------------------------------------------
  // Preservation.

  lemma CreateMap(m: Manager, h: Handle)
    requires MapOk(m) && h !in m.jobMap
    ensures var m' := Create(m, h, true); MapOk(m') && SamePlaces(m, m') && InMap(m', m.next)
  {
  }

  lemma CreateEffect(m: Manager, h: Handle, tr: Trace)
    requires ManagerOk(m, tr) && h !in m.jobMap
    ensures ManagerOk(Create(m, h, true), RecordCreated(tr, m.next, h))
  {
    CreateMap(m, h);
    CreateBlocks(m, h, tr);
    CreateTrace(m, h, tr);
  }

  lemma CreateTrace(m: Manager, h: Handle, tr: Trace)
    requires MapOk(m) && TraceOk(m, tr) && h !in m.jobMap
    ensures TraceOk(Create(m, h, true), RecordCreated(tr, m.next, h))
  {
    var m', tr' := Create(m, h, true), RecordCreated(tr, m.next, h);
    forall b | b in tr.removed ensures !InMap(m', b) {
      assert b < m.next && !InMap(m, b);
    }
    forall b: BlockId ensures (b < m'.next && b !in m'.heap) <==> (b < m.next && b !in m.heap) {
      assert b == m.next || (b in m'.heap <==> b in m.heap);
    }
    KeepsTrace(m, m', tr, tr');
  }

  lemma CreateBlocks(m: Manager, h: Handle, tr: Trace)
    requires MapOk(m) && BlocksOk(m, tr) && h !in m.jobMap
    ensures BlocksOk(Create(m, h, true), RecordCreated(tr, m.next, h))
  {
    var m', tr' := Create(m, h, true), RecordCreated(tr, m.next, h);
    forall b | b in m'.heap ensures BlockOk(m'.heap[b], b, tr') {
      if b != m.next { assert BlockOk(m.heap[b], b, tr); }
    }
  }

  /** What the trace says of removed, freed and submitted blocks outlives a step that puts no
      removed block back, frees nothing and adds nothing to a removed block. */
  lemma KeepsTrace(m: Manager, m': Manager, tr: Trace, tr': Trace)
    requires TraceOk(m, tr) && m.next <= m'.next
    requires tr'.freed == tr.freed && tr'.submitted == tr.submitted && tr.removed <= tr'.removed
    requires forall b | b in tr'.created || b in tr'.appended :: b < m'.next
    requires forall b | b in tr'.removed :: b < m'.next && !InMap(m', b)
    requires forall b: BlockId :: (b < m'.next && b !in m'.heap) <==> (b < m.next && b !in m.heap)
    requires forall b | b in tr.removed && b in tr.appended :: b in tr'.appended && tr'.appended[b] == tr.appended[b]
    requires forall b | b in tr.removed && b in tr.created :: b in tr'.created && tr'.created[b] == tr.created[b]
    ensures TraceOk(m', tr')
  {
    forall d | d in tr'.submitted ensures DeliveryOk(d, tr') { assert DeliveryOk(d, tr); }
  }

  lemma AppendMap(m: Manager, h: Handle, r: Request, tr: Trace)
    requires MapOk(m) && BlocksOk(m, tr) && Appends(m, h)
    ensures var m' := Append(m, h, r);
            MapOk(m') && SamePlaces(m, m') && m'.heap.Keys == m.heap.Keys && m'.next == m.next && InMap(m, m.jobMap[h])
  {
    assert BlockOk(m.heap[m.jobMap[h]], m.jobMap[h], tr);
  }

  lemma AppendBlocks(m: Manager, h: Handle, r: Request, tr: Trace)
    requires BlocksOk(m, tr) && Appends(m, h)
    ensures BlocksOk(Append(m, h, r), RecordAppended(tr, m.jobMap[h], r))
  {
    var b := m.jobMap[h];
    var m', tr' := Append(m, h, r), RecordAppended(tr, b, r);
    forall c | c in m'.heap ensures BlockOk(m'.heap[c], c, tr') {
      assert BlockOk(m.heap[c], c, tr);
      if c == b { assert Tasks(m'.heap[b]) == Tasks(m.heap[b]) + [r]; }
    }
  }

  lemma AppendEffect(m: Manager, h: Handle, r: Request, tr: Trace)
    requires ManagerOk(m, tr) && Appends(m, h)
    ensures ManagerOk(Append(m, h, r), RecordAppended(tr, m.jobMap[h], r))
  {
    AppendMap(m, h, r, tr);
    AppendBlocks(m, h, r, tr);
    var m', tr' := Append(m, h, r), RecordAppended(tr, m.jobMap[h], r);
    assert forall b | b in tr'.removed :: !InMap(m', b);
    KeepsTrace(m, m', tr, tr');
  }

  lemma RemoveMap(m: Manager, h: Handle)
    requires MapOk(m) && h in m.jobMap
    ensures var m', b := Remove(m, h), m.jobMap[h];
            && MapOk(m') && m'.heap == m.heap && m'.next == m.next && InMap(m, b) && !InMap(m', b)
            && (forall c :: InMap(m', c) <==> InMap(m, c) && c != b)
  {
  }

  lemma RemoveEffect(m: Manager, h: Handle, tr: Trace)
    requires ManagerOk(m, tr) && h in m.jobMap
    ensures ManagerOk(Remove(m, h), RecordRemoved(tr, m.jobMap[h]))
  {
    RemoveMap(m, h);
    var m', tr' := Remove(m, h), RecordRemoved(tr, m.jobMap[h]);
    assert BlocksOk(m', tr') by { assert forall c | c in m.heap :: BlockOk(m.heap[c], c, tr); }
    KeepsTrace(m, m', tr, tr');
  }

  lemma SubmitEffect(m: Manager, b: BlockId, tr: Trace)
    requires ManagerOk(m, tr) && b in m.heap && b in tr.removed
    ensures ManagerOk(m, tr.(submitted := tr.submitted + {Deliver(m, b)}))
  {
    var tr' := tr.(submitted := tr.submitted + {Deliver(m, b)});
    assert BlockOk(m.heap[b], b, tr);
    assert BlocksOk(m, tr') by { assert forall c | c in m.heap :: BlockOk(m.heap[c], c, tr); }
    forall d | d in tr'.submitted ensures DeliveryOk(d, tr') {
      if d in tr.submitted { assert DeliveryOk(d, tr); }
    }
  }

  lemma ConfigEffect(m: Manager, d: Delivery, tr: Trace)
    requires ManagerOk(m, tr)
    ensures ManagerOk(m, tr.(configured := tr.configured + {d}))
  {
    var tr' := tr.(configured := tr.configured + {d});
    assert BlocksOk(m, tr') by { assert forall c | c in m.heap :: BlockOk(m.heap[c], c, tr); }
    KeepsTrace(m, m, tr, tr');
  }

  /** Freeing a block that the map cannot reach any more. */
  lemma FreeEffect(m: Manager, b: BlockId, tr: Trace)
    requires ManagerOk(m, tr) && b in m.heap && !InMap(m, b) && b in tr.removed
    ensures var m' := Free(m, b);
            ManagerOk(m', RecordFreed(tr, b)) && (forall c | c in m'.heap :: InMap(m', c) <==> InMap(m, c))
  {
    var m', tr' := Free(m, b), RecordFreed(tr, b);
    assert forall h | h in m.jobMap :: m.jobMap[h] != b;
    assert forall c | c in m'.heap :: m'.heap[c] == m.heap[c] && BlockOk(m.heap[c], c, tr);
    assert forall d | d in tr'.submitted :: DeliveryOk(d, tr);
  }

  /** Every allocated block keeps its place in or out of the map. */
  predicate SamePlaces(m: Manager, m': Manager) {
    forall b | b in m.heap :: b in m'.heap && (InMap(m', b) <==> InMap(m, b))
  }

  /** Thread t, or no thread, moved. */
  predicate Moved(s: State, s': State, t: Tid) {
    s'.pcs == s.pcs || (t in s'.pcs && s'.pcs == s.pcs[t := s'.pcs[t]])
  }

  /** An owned block stays owned unless thread t gives it up. */
  lemma KeepsOwner(s: State, s': State, t: Tid, b: BlockId)
    requires Owned(s, b) && (InMap(s.m, b) ==> InMap(s'.m, b)) && Moved(s, s', t)
    requires Submits(PcOf(s, t)) && PcOf(s, t).b == b ==> Submits(PcOf(s', t)) && PcOf(s', t).b == b
    ensures Owned(s', b)
  {
    if !InMap(s.m, b) {
      var u :| u in s.pcs && Submits(s.pcs[u]) && s.pcs[u].b == b;
      assert u in s'.pcs && Submits(s'.pcs[u]) && s'.pcs[u].b == b;
    }
  }

  /** A thread that owns no block does something else that involves no block. */
  lemma ThreadsFrame(s: State, s': State, t: Tid)
    requires ThreadsOk(s) && SamePlaces(s.m, s'.m) && s'.lock == s.lock && Moved(s, s', t)
    requires s'.tr.removed == s.tr.removed
    requires !Configures(PcOf(s, t)) && !Submits(PcOf(s, t)) && !Configures(PcOf(s', t)) && !Submits(PcOf(s', t))
    ensures ThreadsOk(s')
  {
  }

  lemma OwnersFrame(s: State, s': State, t: Tid)
    requires OwnersOk(s) && SamePlaces(s.m, s'.m) && !Submits(PcOf(s, t)) && Moved(s, s', t)
    requires forall b | b in s'.m.heap :: b in s.m.heap || InMap(s'.m, b)
    ensures OwnersOk(s')
  {
    forall b | b in s'.m.heap ensures Owned(s', b) {
      if b in s.m.heap { KeepsOwner(s, s', t, b); }
    }
  }

  lemma InvCreate(s: State, t: Tid, h: Handle)
    requires Inv(s) && Enabled(s, CreateStep(t, h, true)) && h !in s.m.jobMap
    ensures Inv(Apply(s, CreateStep(t, h, true)))
  {
    var s' := Apply(s, CreateStep(t, h, true));
    CreateMap(s.m, h);
    CreateEffect(s.m, h, s.tr);
    ThreadsFrame(s, s', t);
    OwnersFrame(s, s', t);
  }

  lemma InvAppend(s: State, t: Tid, h: Handle, r: Request)
    requires Inv(s) && Enabled(s, AppendStep(t, h, r)) && Appends(s.m, h)
    ensures Inv(Apply(s, AppendStep(t, h, r)))
  {
    var s' := Apply(s, AppendStep(t, h, r));
    AppendMap(s.m, h, r, s.tr);
    AppendEffect(s.m, h, r, s.tr);
    ThreadsFrame(s, s', t);
    OwnersFrame(s, s', t);
  }

  lemma InvTake(s: State, t: Tid, h: Handle)
    requires Inv(s) && Enabled(s, TakeStep(t, h)) && h in s.m.jobMap
    ensures Inv(Apply(s, TakeStep(t, h)))
  {
    RemoveMap(s.m, h);
    RemoveEffect(s.m, h, s.tr);
    ThreadsTake(s, Apply(s, TakeStep(t, h)), t, s.m.jobMap[h]);
  }

  /** The submitting thread becomes the only owner of the block it took out. */
  lemma ThreadsTake(s: State, s': State, t: Tid, b: BlockId)
    requires ThreadsOk(s) && OwnersOk(s) && s.lock.None? && s'.lock.None? && PcOf(s, t) == Idle
    requires s'.pcs == s.pcs[t := Submitting(b)] && s'.m.heap == s.m.heap && InMap(s.m, b) && !InMap(s'.m, b)
    requires s'.tr.removed == s.tr.removed + {b}
    requires forall c | c in s.m.heap && c != b :: InMap(s'.m, c) <==> InMap(s.m, c)
    ensures ThreadsOk(s') && OwnersOk(s')
  {
    forall c | c in s'.m.heap ensures Owned(s', c) {
      if c == b {
        assert t in s'.pcs && Submits(s'.pcs[t]) && s'.pcs[t].b == c;
      } else {
        KeepsOwner(s, s', t, c);
      }
    }
  }

  lemma InvCancel(s: State, t: Tid, h: Handle)
    requires Inv(s) && Enabled(s, CancelStep(t, h)) && h in s.m.jobMap
    ensures Inv(Apply(s, CancelStep(t, h)))
  {
    var b := s.m.jobMap[h];
    RemoveMap(s.m, h);
    RemoveEffect(s.m, h, s.tr);
    FreeEffect(Remove(s.m, h), b, RecordRemoved(s.tr, b));
    ThreadsFree(s, Apply(s, CancelStep(t, h)), t, b);
  }

  /** The block leaves with whoever owned it: the map, or the thread t. */
  lemma ThreadsFree(s: State, s': State, t: Tid, b: BlockId)
    requires ThreadsOk(s) && OwnersOk(s) && s'.lock == s.lock && s'.pcs == s.pcs[t := Idle]
    requires !Configures(PcOf(s, t)) && if Submits(PcOf(s, t)) then PcOf(s, t).b == b else InMap(s.m, b)
    requires InMap(s.m, b) ==> s.lock.None?
    requires s'.m.heap == s.m.heap - {b} && s.tr.removed <= s'.tr.removed
    requires forall c | c in s'.m.heap :: InMap(s'.m, c) <==> InMap(s.m, c)
    ensures ThreadsOk(s') && OwnersOk(s')
  {
    forall c | c in s'.m.heap ensures Owned(s', c) { KeepsOwner(s, s', t, c); }
  }

  lemma InvFree(s: State, t: Tid)
    requires Inv(s) && Enabled(s, FreeStep(t))
    ensures Inv(Apply(s, FreeStep(t)))
  {
    FreeEffect(s.m, PcOf(s, t).b, s.tr);
    ThreadsFree(s, Apply(s, FreeStep(t)), t, PcOf(s, t).b);
  }

  /** A thread moves on without giving up or gaining a block. */
  lemma ThreadsMove(s: State, s': State, t: Tid)
    requires ThreadsOk(s) && OwnersOk(s) && Moved(s, s', t) && s'.m == s.m && s'.tr.removed == s.tr.removed
    requires Submits(PcOf(s, t)) == Submits(PcOf(s', t)) && (Submits(PcOf(s, t)) ==> PcOf(s, t).b == PcOf(s', t).b)
    requires if s'.lock == s.lock then
               && Configures(PcOf(s, t)) == Configures(PcOf(s', t))
               && (Configures(PcOf(s, t)) ==> PcOf(s, t).b == PcOf(s', t).b)
             else
               && (s.lock.None? || s.lock == Some(t))
               && (if s'.lock == Some(t) then Configures(PcOf(s', t)) && InMap(s.m, PcOf(s', t).b)
                   else !Configures(PcOf(s', t)))
    ensures ThreadsOk(s') && OwnersOk(s')
  {
    forall c | c in s'.m.heap ensures Owned(s', c) { KeepsOwner(s, s', t, c); }
  }

  /** The driver calls read a block that is still allocated. */
  lemma InvDriver(s: State, step: Step)
    requires Inv(s) && Enabled(s, step) && (step.SubmitStep? || step.ConfigStep?)
    ensures Inv(Apply(s, step)) && PcOf(s, step.t).b in s.m.heap
  {
    var b := PcOf(s, step.t).b;
    assert b in s.m.heap;
    if step.SubmitStep? { SubmitEffect(s.m, b, s.tr); } else { ConfigEffect(s.m, Deliver(s.m, b), s.tr); }
    ThreadsMove(s, Apply(s, step), step.t);
  }

  lemma InvLocks(s: State, step: Step)
    requires Inv(s) && Enabled(s, step) && (step.ConfigLock? || step.ConfigUnlock?)
    ensures Inv(Apply(s, step))
  {
    if step.ConfigUnlock? || step.h in s.m.jobMap { ThreadsMove(s, Apply(s, step), step.t); }
  }

  /** A request that changes no block: a refused create or append, a cancel or submit of an
      unknown handle. */
  lemma InvRefused(s: State, s': State, t: Tid)
    requires Inv(s) && Moved(s, s', t) && s'.m == s.m && s'.tr == s.tr && s'.lock == s.lock
    requires !Configures(PcOf(s, t)) && !Submits(PcOf(s, t)) && !Configures(PcOf(s', t)) && !Submits(PcOf(s', t))
    ensures Inv(s')
  {
    ThreadsFrame(s, s', t);
    OwnersFrame(s, s', t);
  }

  /** Every critical section and driver call of every thread keeps the invariant. */
  lemma InvStep(s: State, step: Step)
    requires Inv(s) && Enabled(s, step)
    ensures Inv(Apply(s, step))
  {
    match step
    case CreateStep(t, h, granted) =>
      if Creates(s.m, h, granted) { InvCreate(s, t, h); } else { InvRefused(s, Apply(s, step), t); }
    case AppendStep(t, h, r) =>
      if Appends(s.m, h) { InvAppend(s, t, h, r); } else { InvRefused(s, Apply(s, step), t); }
    case CancelStep(t, h) =>
      if h in s.m.jobMap { InvCancel(s, t, h); } else { InvRefused(s, Apply(s, step), t); }
    case TakeStep(t, h) =>
      if h in s.m.jobMap { InvTake(s, t, h); }
    case FreeStep(t) => InvFree(s, t);
    case _ =>
      if step.SubmitStep? || step.ConfigStep? { InvDriver(s, step); } else { InvLocks(s, step); }
  }

  // ---------------------------------------------------------------------------------
  // What each step does, in terms of the map and of what was appended before.

  lemma CreateMakes(m: Manager, h: Handle, granted: bool)
    requires MapOk(m)
    ensures var m' := Create(m, h, granted);
            if h !in m.jobMap && granted then
              && m'.jobMap == m.jobMap[h := m.next] && m.next !in m.heap && m'.jobCount == m.jobCount + 1
              && m'.heap == m.heap[m.next := m'.heap[m.next]] && m'.heap[m.next].taskCount == 0 && !m'.fault
              && |m'.heap[m.next].req| == 256 && m'.heap[m.next].id == h
            else m' == m
  {
  }

  /** A create makes an empty job exactly when its handle is free and there is memory; otherwise the
      thread goes on to cancel. */
  lemma CreateOutcome(s: State, t: Tid, h: Handle, granted: bool)
    requires MapOk(s.m) && Enabled(s, CreateStep(t, h, granted))
    ensures var s' := Apply(s, CreateStep(t, h, granted));
            if h !in s.m.jobMap && granted then
              && s'.m.jobMap == s.m.jobMap[h := s.m.next] && s.m.next !in s.m.heap && s.m.next in s'.m.heap
              && s'.tr.appended == s.tr.appended[s.m.next := []] && s'.tr.created == s.tr.created[s.m.next := h]
              && s'.m.jobCount == s.m.jobCount + 1 && PcOf(s', t) == Idle
            else s'.m == s.m && s'.tr == s.tr && PcOf(s', t) == Cancelling(h)
  {
    CreateMakes(s.m, h, granted);
  }

  /** An append to a job in the map is taken exactly while fewer than 256 were; it goes to the end
      and touches no other job. */
  lemma AppendOutcome(s: State, t: Tid, h: Handle, r: Request)
    requires Inv(s) && Enabled(s, AppendStep(t, h, r))
    ensures var s' := Apply(s, AppendStep(t, h, r));
            if h in s.m.jobMap && |s.tr.appended[s.m.jobMap[h]]| < 256 then
              && s'.tr == s.tr.(appended := s.tr.appended[s.m.jobMap[h] := s.tr.appended[s.m.jobMap[h]] + [r]])
              && s'.m.jobMap == s.m.jobMap
            else s' == s
  {
    if h in s.m.jobMap {
      assert BlockOk(s.m.heap[s.m.jobMap[h]], s.m.jobMap[h], s.tr);
    }
  }

  /** So a job in the map takes a request exactly while it holds fewer than 256, and else keeps what
      it has. */
  lemma AppendedIff(s: State, t: Tid, h: Handle, r: Request)
    requires Inv(s) && Enabled(s, AppendStep(t, h, r)) && h in s.m.jobMap
    ensures var b, s' := s.m.jobMap[h], Apply(s, AppendStep(t, h, r));
            && b in s.tr.appended && b in s'.tr.appended
            && (s'.tr.appended[b] == s.tr.appended[b] + [r] <==> |s.tr.appended[b]| < 256)
            && (s'.tr.appended[b] == s.tr.appended[b] <==> |s.tr.appended[b]| >= 256)
  {
    var b := s.m.jobMap[h];
    assert BlockOk(s.m.heap[b], b, s.tr);
    AppendOutcome(s, t, h, r);
    assert |s.tr.appended[b] + [r]| != |s.tr.appended[b]|;
  }

  /** A cancel removes and frees the job its handle names, and nothing if it names none. */
  lemma CancelOutcome(s: State, t: Tid, h: Handle)
    requires Inv(s) && Enabled(s, CancelStep(t, h))
    ensures var s' := Apply(s, CancelStep(t, h));
            && PcOf(s', t) == Idle
            && if h in s.m.jobMap then
                 && s'.m.jobMap == s.m.jobMap - {h} && s'.m.heap == s.m.heap - {s.m.jobMap[h]}
                 && s'.m.jobCount == s.m.jobCount - 1
               else s'.m == s.m
  {
    if h in s.m.jobMap { RemoveMap(s.m, h); }
  }

  /** A submit takes the job its handle names, and nothing if it names none. */
  lemma TakeOutcome(s: State, t: Tid, h: Handle)
    requires Inv(s) && Enabled(s, TakeStep(t, h))
    ensures var s' := Apply(s, TakeStep(t, h));
            if h in s.m.jobMap then
              && s'.m.jobMap == s.m.jobMap - {h} && s'.m.heap == s.m.heap && s'.m.jobCount == s.m.jobCount - 1
              && PcOf(s', t) == Submitting(s.m.jobMap[h])
            else s' == s
  {
  }

  /** Submit and config each give the driver the job's own requests, in order, their number and the
      handle it was created for. */
  lemma DriverOutcome(s: State, step: Step)
    requires Inv(s) && Enabled(s, step) && (step.SubmitStep? || step.ConfigStep?)
    ensures var b, s' := PcOf(s, step.t).b, Apply(s, step);
            && b in s.tr.appended && b in s.tr.created
            && var d := Delivery(b, s.tr.appended[b], |s.tr.appended[b]|, s.tr.created[b]);
               if step.SubmitStep? then
                 && s'.tr == s.tr.(submitted := s.tr.submitted + {d}) && s'.calls == s.calls + multiset{b}
                 && PcOf(s', step.t) == Delivered(b)
               else
                 && s'.tr == s.tr.(configured := s.tr.configured + {d}) && s'.calls == s.calls
                 && PcOf(s', step.t) == Copied(b)
  {
    var b := PcOf(s, step.t).b;
    assert b in s.m.heap && BlockOk(s.m.heap[b], b, s.tr);
  }

  /** Config finds the job its handle names and keeps the mutex until the driver has copied it. */
  lemma ConfigOutcome(s: State, t: Tid, h: Handle)
    requires Inv(s) && Enabled(s, ConfigLock(t, h))
    ensures var s' := Apply(s, ConfigLock(t, h));
            if h in s.m.jobMap then s'.lock == Some(t) && PcOf(s', t) == Configuring(s.m.jobMap[h]) && s'.m == s.m
            else s' == s
  {
  }

  /** A submit ends by freeing its job, a config by giving the mutex back. */
  lemma EndOutcome(s: State, step: Step)
    requires Inv(s) && Enabled(s, step) && (step.FreeStep? || step.ConfigUnlock?)
    ensures var s' := Apply(s, step);
            && PcOf(s', step.t) == Idle
            && if step.FreeStep? then s'.m == s.m.(heap := s.m.heap - {PcOf(s, step.t).b}) && s'.lock == s.lock
               else s'.m == s.m && s'.lock == None
  {
  }

  /** What the invariant rules out: touching or freeing a block that is not allocated is a fault. */
  lemma FaultsAreSeen(s: State, step: Step)
    requires Enabled(s, step)
    ensures (step.FreeStep? || step.SubmitStep? || step.ConfigStep?) && PcOf(s, step.t).b !in s.m.heap ==>
              Apply(s, step).m.fault
    ensures (step.AppendStep? || step.CancelStep?) && step.h in s.m.jobMap && s.m.jobMap[step.h] !in s.m.heap ==>
              Apply(s, step).m.fault
  {
  }

  // ---------------------------------------------------------------------------------
  // Whole runs.

  ghost predicate IsRun(states: seq<State>, steps: seq<Step>) {
    && |states| == |steps| + 1 && states[0] == Initial
    && forall i {:trigger steps[i]} | 0 <= i < |steps| ::
         Enabled(states[i], steps[i]) && states[i + 1] == Apply(states[i], steps[i])
  }

  /** In every reachable state no freed block has been touched, no request written out of
      bounds, and job_count is the number of jobs in the map. */
  lemma {:induction false} RunKeepsInv(states: seq<State>, steps: seq<Step>, i: nat)
    requires IsRun(states, steps) && i < |states|
    ensures Inv(states[i]) && !states[i].m.fault && states[i].m.jobCount == |states[i].m.jobMap|
  {
    if i > 0 {
      RunKeepsInv(states, steps, i - 1);
      InvStep(states[i - 1], steps[i - 1]);
    }
  }

  /** A removed block is out of reach of appends for good. */
  lemma FrozenStep(s: State, step: Step, b: BlockId)
    requires Inv(s) && Enabled(s, step) && b in s.tr.removed && b in s.tr.appended && b in s.tr.created
    ensures var tr := Apply(s, step).tr;
            && b in tr.removed && b in tr.appended && tr.appended[b] == s.tr.appended[b]
            && b in tr.created && tr.created[b] == s.tr.created[b]
  {
    if step.AppendStep? && Appends(s.m, step.h) { assert InMap(s.m, s.m.jobMap[step.h]); }
  }

  lemma {:induction false} FrozenAfterRemoval(states: seq<State>, steps: seq<Step>, i: nat, j: nat, b: BlockId)
    requires IsRun(states, steps) && i <= j < |states|
    requires var tr := states[i].tr; b in tr.removed && b in tr.appended && b in tr.created
    ensures var tr, tr' := states[i].tr, states[j].tr;
            && b in tr'.removed && b in tr'.appended && tr'.appended[b] == tr.appended[b]
            && b in tr'.created && tr'.created[b] == tr.created[b]
  {
    if i < j {
      FrozenAfterRemoval(states, steps, i, j - 1, b);
      RunKeepsInv(states, steps, j - 1);
      FrozenStep(states[j - 1], steps[j - 1], b);
    }
  }

  /** What a submit finds when it removes a job. */
  lemma TakeFinds(s: State, t: Tid, h: Handle)
    requires Inv(s) && Enabled(s, TakeStep(t, h)) && h in s.m.jobMap
    ensures var tr, b := Apply(s, TakeStep(t, h)).tr, s.m.jobMap[h];
            && b in tr.removed && tr.appended == s.tr.appended && tr.created == s.tr.created
            && b in s.tr.created && s.tr.created[b] == h
            && b in s.tr.appended && |s.tr.appended[b]| <= TASK_NUM_MAX
  {
    var b := s.m.jobMap[h];
    assert BlockOk(s.m.heap[b], b, s.tr);
  }

  /** Submit takes effect when it removes the job: whenever the driver is called for it, it
      gets exactly the requests appended before the removal, in lock order, with their number,
      at most 256, and the handle. */
  lemma SubmitDelivers(states: seq<State>, steps: seq<Step>, i: nat, j: nat, d: Delivery)
    requires IsRun(states, steps) && i < j < |states|
    requires steps[i].TakeStep? && steps[i].h in states[i].m.jobMap
    requires d in states[j].tr.submitted && d.b == states[i].m.jobMap[steps[i].h]
    ensures d.b in states[i].tr.appended && d.tasks == states[i].tr.appended[d.b]
    ensures d.num == |d.tasks| <= TASK_NUM_MAX && d.id == steps[i].h
  {
    RunKeepsInv(states, steps, i);
    TakeFinds(states[i], steps[i].t, steps[i].h);
    assert states[i + 1] == Apply(states[i], steps[i]);
    FrozenAfterRemoval(states, steps, i + 1, j, d.b);
    RunKeepsInv(states, steps, j);
    assert DeliveryOk(d, states[j].tr);
  }

  // ---------------------------------------------------------------------------------
  // Each submitted job reaches the driver exactly once.

  predicate CallOk(s: State, pc: Pc) {
    && (Submits(pc) ==> pc.b in s.taken)
    && (pc.Submitting? ==> s.calls[pc.b] == 0)
    && (pc.Delivered? ==> s.calls[pc.b] == 1)
  }

  ghost predicate CallsOk(s: State) {
    && (forall t | t in s.pcs :: CallOk(s, s.pcs[t]))
    && (forall b: BlockId :: s.calls[b] <= if b in s.taken then 1 else 0)
    && (forall b | b in s.taken && b !in s.m.heap :: s.calls[b] == 1)
    && s.taken <= s.tr.removed
  }

  lemma InMapNotRemoved(s: State, h: Handle)
    requires Inv(s) && h in s.m.jobMap
    ensures s.m.jobMap[h] in s.m.heap && s.m.jobMap[h] !in s.tr.removed
  {
    assert InMap(s.m, s.m.jobMap[h]);
  }

  lemma CallsTake(s: State, t: Tid, h: Handle)
    requires CallsOk(s) && Enabled(s, TakeStep(t, h)) && h in s.m.jobMap
    requires s.m.jobMap[h] in s.m.heap && s.m.jobMap[h] !in s.tr.removed
    ensures CallsOk(Apply(s, TakeStep(t, h)))
  {
    var s' := Apply(s, TakeStep(t, h));
    forall u | u in s'.pcs ensures CallOk(s', s'.pcs[u]) {
      if u != t { assert CallOk(s, s.pcs[u]); }
    }
  }

  lemma CallsSubmit(s: State, t: Tid)
    requires ThreadsOk(s) && CallsOk(s) && Enabled(s, SubmitStep(t))
    ensures CallsOk(Apply(s, SubmitStep(t)))
  {
    var s' := Apply(s, SubmitStep(t));
    assert CallOk(s, s.pcs[t]);
    forall u | u in s'.pcs ensures CallOk(s', s'.pcs[u]) {
      if u != t { assert CallOk(s, s.pcs[u]); }
    }
  }

  /** Steps that neither take nor deliver a job, and free only what was delivered or never taken. */
  lemma CallsFrame(s: State, s': State, t: Tid)
    requires CallsOk(s) && s'.calls == s.calls && s'.taken == s.taken && s.tr.removed <= s'.tr.removed
    requires Moved(s, s', t) && (s'.pcs == s.pcs || !Submits(s'.pcs[t]))
    requires forall b | b in s.taken && b in s.m.heap :: b in s'.m.heap || s.calls[b] == 1
    ensures CallsOk(s')
  {
    forall u | u in s'.pcs ensures CallOk(s', s'.pcs[u]) {
      if u in s.pcs { assert CallOk(s, s.pcs[u]); }
    }
  }

  lemma CallsFree(s: State, t: Tid)
    requires CallsOk(s) && Enabled(s, FreeStep(t))
    ensures CallsOk(Apply(s, FreeStep(t)))
  {
    assert CallOk(s, s.pcs[t]);
    CallsFrame(s, Apply(s, FreeStep(t)), t);
  }

  lemma CallsCancel(s: State, t: Tid, h: Handle)
    requires CallsOk(s) && Enabled(s, CancelStep(t, h)) && (h in s.m.jobMap ==> s.m.jobMap[h] !in s.tr.removed)
    ensures CallsOk(Apply(s, CancelStep(t, h)))
  {
    CallsFrame(s, Apply(s, CancelStep(t, h)), t);
  }

  lemma CallsOther(s: State, step: Step)
    requires CallsOk(s) && Enabled(s, step)
    requires !step.TakeStep? && !step.SubmitStep? && !step.FreeStep? && !step.CancelStep?
    ensures CallsOk(Apply(s, step))
  {
    CallsFrame(s, Apply(s, step), step.t);
  }

  lemma CallsStep(s: State, step: Step)
    requires Inv(s) && CallsOk(s) && Enabled(s, step)
    ensures CallsOk(Apply(s, step))
  {
    match step
    case TakeStep(t, h) =>
      if h in s.m.jobMap { InMapNotRemoved(s, h); CallsTake(s, t, h); }
    case SubmitStep(t) => CallsSubmit(s, t);
    case FreeStep(t) => CallsFree(s, t);
    case CancelStep(t, h) =>
      if h in s.m.jobMap { InMapNotRemoved(s, h); }
      CallsCancel(s, t, h);
    case _ => CallsOther(s, step);
  }

  lemma {:induction false} RunKeepsCalls(states: seq<State>, steps: seq<Step>, i: nat)
    requires IsRun(states, steps) && i < |states|
    ensures CallsOk(states[i])
  {
    if i > 0 {
      RunKeepsCalls(states, steps, i - 1);
      RunKeepsInv(states, steps, i - 1);
      CallsStep(states[i - 1], steps[i - 1]);
    }
  }

  /** In every run the driver is called for a block at most once, and by the time the block is
      freed exactly once if a submit took it and never if it was cancelled. */
  lemma SubmittedExactlyOnce(states: seq<State>, steps: seq<Step>, i: nat, b: BlockId)
    requires IsRun(states, steps) && i < |states|
    ensures states[i].calls[b] <= 1
    ensures b in states[i].tr.freed ==> states[i].calls[b] == if b in states[i].taken then 1 else 0
  {
    RunKeepsInv(states, steps, i);
    RunKeepsCalls(states, steps, i);
  }

  // ---------------------------------------------------------------------------------
  // A refused create cancels its handle on the way out, and whichever job has it is lost.

  /** Once out of the map and not taken by a submit, a block is never taken. */
  lemma {:induction false} NeverTaken(states: seq<State>, steps: seq<Step>, i: nat, j: nat, b: BlockId)
    requires IsRun(states, steps) && i <= j < |states|
    requires b in states[i].tr.removed && b !in states[i].taken
    ensures b in states[j].tr.removed && b !in states[j].taken
  {
    if i < j {
      NeverTaken(states, steps, i, j - 1, b);
      RunKeepsInv(states, steps, j - 1);
      NeverTakenStep(states[j - 1], steps[j - 1], b);
    }
  }

  lemma NeverTakenStep(s: State, step: Step, b: BlockId)
    requires Inv(s) && Enabled(s, step) && b in s.tr.removed && b !in s.taken
    ensures b in Apply(s, step).tr.removed && b !in Apply(s, step).taken
  {
    if step.TakeStep? && step.h in s.m.jobMap { InMapNotRemoved(s, step.h); }
  }

  /** A cancelled job is freed there and then, and never reaches the driver through a submit. */
  lemma CancelledIsLost(states: seq<State>, steps: seq<Step>, i: nat, j: nat)
    requires IsRun(states, steps) && i < j < |states|
    requires steps[i].CancelStep? && steps[i].h in states[i].m.jobMap
    ensures var b := states[i].m.jobMap[steps[i].h];
            b !in states[i + 1].m.heap && states[j].calls[b] == 0
  {
    var s, h := states[i], steps[i].h;
    var b := s.m.jobMap[h];
    RunKeepsInv(states, steps, i);
    RunKeepsCalls(states, steps, i);
    InMapNotRemoved(s, h);
    assert states[i + 1] == Apply(s, steps[i]);
    NeverTaken(states, steps, i + 1, j, b);
    RunKeepsCalls(states, steps, j);
  }

  /** Step i is thread t's create of handle h, refused because the handle is known or there is no
      memory, and t takes no step between it and j. */
  predicate RefusedAt(states: seq<State>, steps: seq<Step>, i: nat, j: nat, t: Tid, h: Handle)
    requires i < j <= |steps| <= |states|
  {
    && steps[i].CreateStep? && steps[i].t == t && steps[i].h == h
    && !Creates(states[i].m, h, steps[i].granted) && forall n | i < n < j :: steps[n].t != t
  }

  lemma OtherThreadKeepsPc(s: State, step: Step, t: Tid)
    requires Enabled(s, step) && step.t != t
    ensures PcOf(Apply(s, step), t) == PcOf(s, t)
  {
  }

  /** Only a refused create leaves a thread cancelling. */
  lemma OwnStepCancels(s: State, step: Step)
    requires Enabled(s, step) && PcOf(Apply(s, step), step.t).Cancelling?
    ensures step.CreateStep? && !Creates(s.m, step.h, step.granted)
    ensures PcOf(Apply(s, step), step.t) == Cancelling(step.h)
  {
  }

  lemma {:induction false} StaysCancelling(states: seq<State>, steps: seq<Step>, i: nat, j: nat, t: Tid, h: Handle)
    requires IsRun(states, steps) && i < j < |states| && RefusedAt(states, steps, i, j, t, h)
    ensures PcOf(states[j], t) == Cancelling(h)
  {
    if i + 1 == j {
      assert states[i + 1] == Apply(states[i], steps[i]);
    } else {
      StaysCancelling(states, steps, i, j - 1, t, h);
      OtherThreadKeepsPc(states[j - 1], steps[j - 1], t);
    }
  }

  lemma {:induction false} CancellingWasRefused(states: seq<State>, steps: seq<Step>, j: nat, t: Tid) returns (i: nat)
    requires IsRun(states, steps) && j < |states| && PcOf(states[j], t).Cancelling?
    ensures i < j && RefusedAt(states, steps, i, j, t, PcOf(states[j], t).h)
  {
    var s, step := states[j - 1], steps[j - 1];
    assert states[j] == Apply(s, step);
    if step.t == t {
      OwnStepCancels(s, step);
      i := j - 1;
    } else {
      OtherThreadKeepsPc(s, step, t);
      i := CancellingWasRefused(states, steps, j - 1, t);
    }
  }

  /** Step j removes a job on the way out of a create, not at a client's request. */
  predicate LostToCreate(states: seq<State>, steps: seq<Step>, j: nat)
    requires j < |steps| <= |states|
  {
    steps[j].CancelStep? && steps[j].h in states[j].m.jobMap && PcOf(states[j], steps[j].t) == Cancelling(steps[j].h)
  }

  /** A cancel that removes a job does so on the way out of a create exactly when the thread's last
      own step was a create refused for that handle; every other cancel is a client's own. */
  lemma LostToCreateIff(states: seq<State>, steps: seq<Step>, j: nat)
    requires IsRun(states, steps) && j < |steps| && steps[j].CancelStep? && steps[j].h in states[j].m.jobMap
    ensures LostToCreate(states, steps, j) <==>
              exists i: nat :: i < j && RefusedAt(states, steps, i, j, steps[j].t, steps[j].h)
    ensures !LostToCreate(states, steps, j) ==> PcOf(states[j], steps[j].t) == Idle
  {
    var t, h := steps[j].t, steps[j].h;
    assert Enabled(states[j], steps[j]);
    if LostToCreate(states, steps, j) {
      var i := CancellingWasRefused(states, steps, j, t);
    }
    if i: nat :| i < j && RefusedAt(states, steps, i, j, t, h) {
      StaysCancelling(states, steps, i, j, t, h);
    }
  }

  /** So if every create finds its handle free and gets its memory, no job is lost to a create. */
  lemma GrantedCreatesLoseNothing(states: seq<State>, steps: seq<Step>, j: nat)
    requires IsRun(states, steps) && j < |steps|
    requires forall i {:trigger steps[i]} | 0 <= i < j ::
               steps[i].CreateStep? ==> Creates(states[i].m, steps[i].h, steps[i].granted)
    ensures !LostToCreate(states, steps, j)
  {
    if LostToCreate(states, steps, j) {
      LostToCreateIff(states, steps, j);
    }
  }

  /** After a refused create a thread can do nothing but cancel the handle, so whichever job the
      handle names by then is lost: freed and never submitted. */
  lemma RefusedCreateLosesJob(states: seq<State>, steps: seq<Step>, i: nat, j: nat, k: nat, t: Tid, h: Handle)
    requires IsRun(states, steps) && i < j < k < |states|
    requires RefusedAt(states, steps, i, j, t, h) && steps[j].t == t
    ensures steps[j] == CancelStep(t, h) && (LostToCreate(states, steps, j) <==> h in states[j].m.jobMap)
    ensures h in states[j].m.jobMap ==>
              var b := states[j].m.jobMap[h]; b !in states[j + 1].m.heap && states[k].calls[b] == 0
  {
    StaysCancelling(states, steps, i, j, t, h);
    assert Enabled(states[j], steps[j]);
    if h in states[j].m.jobMap {
      CancelledIsLost(states, steps, j, k);
    }
  }

  function NewBlock(): Block { Block(seq(TASK_NUM_MAX, _ => 0), 0, 5) }
  function UsedBlock(): Block { Block(NewBlock().req[0 := 7], 1, 5) }

  /** One job with one request in it, while the threads stand as `pcs` says. */
  function OneJob(pcs: map<Tid, Pc>): State {
    State(Manager(map[5 := 0], 1, map[0 := UsedBlock()], 1, false), pcs, None,
          Trace(map[0 := 5], map[0 := [7]], {}, multiset{}, {}, {}), {}, multiset{})
  }

  lemma MakeOneJob(t: Tid, pcs: map<Tid, Pc>)
    requires t !in pcs
    ensures var s := Initial.(pcs := pcs);
            && Enabled(s, CreateStep(t, 5, true)) && Enabled(Apply(s, CreateStep(t, 5, true)), AppendStep(t, 5, 7))
            && Apply(Apply(s, CreateStep(t, 5, true)), AppendStep(t, 5, 7)) == OneJob(pcs)
  {
    var s := Initial.(pcs := pcs);
    var made := Apply(s, CreateStep(t, 5, true));
    assert made.m == Manager(map[5 := 0], 1, map[0 := NewBlock()], 1, false);
    assert Append(made.m, 5, 7) == OneJob(pcs).m;
    assert made.tr.created == map[0 := 5] && made.tr.appended == map[0 := []];
    assert made.tr.appended[0] + [7] == [7];
    assert RecordAppended(made.tr, 0, 7).appended == map[0 := [7]];
  }

  /** The cancel of a refused create takes it away. */
  lemma LoseOneJob(t: Tid, pcs: map<Tid, Pc>)
    requires t in pcs && pcs[t] == Cancelling(5)
    ensures Enabled(OneJob(pcs), CancelStep(t, 5))
    ensures var s := Apply(OneJob(pcs), CancelStep(t, 5));
            s.m.jobMap == map[] && s.m.heap == map[] && s.calls == multiset{}
  {
    assert Cancel(OneJob(pcs).m, 5).heap == map[];
  }

  /** A job is lost to a second create that the driver answers with its handle, ... */
  lemma ClashExample() returns (states: seq<State>, steps: seq<Step>)
    ensures IsRun(states, steps)
    ensures steps == [CreateStep(0, 5, true), AppendStep(0, 5, 7), CreateStep(1, 5, true), CancelStep(1, 5)]
    ensures states[4].m.jobMap == map[] && states[4].m.heap == map[] && states[4].calls == multiset{}
  {
    steps := [CreateStep(0, 5, true), AppendStep(0, 5, 7), CreateStep(1, 5, true), CancelStep(1, 5)];
    MakeOneJob(0, map[]);
    var s1 := Apply(Initial, steps[0]);
    var pcs: map<Tid, Pc> := map[1 := Cancelling(5)];
    assert Apply(OneJob(map[]), steps[2]) == OneJob(pcs);
    LoseOneJob(1, pcs);
    states := [Initial, s1, OneJob(map[]), OneJob(pcs), Apply(OneJob(pcs), steps[3])];
  }

  /** ... and to an earlier create of the same handle that got no memory. */
  lemma UngrantedExample() returns (states: seq<State>, steps: seq<Step>)
    ensures IsRun(states, steps) && 5 !in states[0].m.jobMap
    ensures steps == [CreateStep(0, 5, false), CreateStep(1, 5, true), AppendStep(1, 5, 7), CancelStep(0, 5)]
    ensures states[4].m.jobMap == map[] && states[4].m.heap == map[] && states[4].calls == multiset{}
  {
    steps := [CreateStep(0, 5, false), CreateStep(1, 5, true), AppendStep(1, 5, 7), CancelStep(0, 5)];
    var pcs: map<Tid, Pc> := map[0 := Cancelling(5)];
    var s1 := Initial.(pcs := pcs);
    assert Apply(Initial, steps[0]) == s1;
    MakeOneJob(1, pcs);
    LoseOneJob(0, pcs);
    states := [Initial, s1, Apply(s1, steps[1]), OneJob(pcs), Apply(OneJob(pcs), steps[3])];
  }

  /** While config has the driver copying a job, no other thread's step changes or frees it. */
  lemma ConfigBorrows(s: State, step: Step, t: Tid)
    requires Inv(s) && Enabled(s, step) && Configures(PcOf(s, t)) && step.t != t
    ensures var m, b := Apply(s, step).m, PcOf(s, t).b;
            && m.jobMap == s.m.jobMap && b in s.m.heap && b in m.heap && m.heap[b] == s.m.heap[b]
            && Deliver(m, b).tasks == s.tr.appended[b] && Deliver(m, b).id == s.tr.created[b]
  {
    var b := PcOf(s, t).b;
    assert InMap(s.m, b) && BlockOk(s.m.heap[b], b, s.tr);
    if step.FreeStep? { assert !InMap(s.m, PcOf(s, step.t).b); }
  }

  /** Every block is owned by the map or by exactly one submitting thread, never by both. */
  lemma OneOwner(states: seq<State>, steps: seq<Step>, i: nat, b: BlockId, t: Tid, u: Tid)
    requires IsRun(states, steps) && i < |states| && b in states[i].m.heap
    ensures InMap(states[i].m, b) <==>
              !exists v :: v in states[i].pcs && Submits(states[i].pcs[v]) && states[i].pcs[v].b == b
    ensures var s := states[i];
            Submits(PcOf(s, t)) && PcOf(s, t).b == b && Submits(PcOf(s, u)) && PcOf(s, u).b == b ==> t == u
  {
    RunKeepsInv(states, steps, i);
    assert Owned(states[i], b);
  }

  /** Once the map is empty and no submit is under way, every block ever created has been
      removed and freed exactly once. */
  lemma NothingLeaks(states: seq<State>, steps: seq<Step>, i: nat)
    requires IsRun(states, steps) && i < |states|
    requires states[i].m.jobMap == map[] && forall t | t in states[i].pcs :: !Submits(states[i].pcs[t])
    ensures states[i].m.heap == map[]
    ensures forall b: BlockId | b < states[i].m.next :: states[i].tr.freed[b] == 1 && b in states[i].tr.removed
  {
    RunKeepsInv(states, steps, i);
    var s := states[i];
    assert forall b | b in s.m.heap :: Owned(s, b);
    assert s.m.heap.Keys == {};
    forall b: BlockId | b < s.m.next ensures s.tr.freed[b] == 1 && b in s.tr.removed { assert b in s.tr.freed; }
  }
}
