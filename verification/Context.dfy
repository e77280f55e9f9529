/**
 * The life of the one shared device context (core/NormalRga.cpp).
 *
 * `Shared` holds the globals guarded by `mMutex` together with the two resources the
 * critical sections acquire: heap blocks and device file descriptors. Every critical
 * section, from taking the mutex to releasing it or to waiting on `context_idle`, is one
 * atomic step of the machine below; any number of threads take steps in any order, and a
 * sleeping thread may wake spuriously.
 *
 * Addresses and descriptors can be handed out again once released, so a context is
 * identified by its address and by `gen`, the number of contexts published so far.
 */
module DeviceContext {
  import opened Common

  type Addr = nat
  type Fd = nat
  type Tid = nat

  datatype Shared = Shared(
    rgaCtx: Option<Addr>,
    refCount: int,
    active: int,
    closing: bool,
    blocks: map<Addr, Fd>, // allocated context blocks, with the rgaFd stored in each
    fds: set<Fd>,          // device descriptors currently open
    gen: nat)

  /** What malloc, open and the four version ioctls answer to one NormalRgaOpen. */
  datatype OpenEnv = OpenEnv(
    block: Option<Addr>, fd: Option<Fd>,
    driverVersion: int, hwVersions: int, rga2Version: int, rga1Version: int)

  /** The allocator and the kernel hand out only what is not in use. */
  predicate Fresh(s: Shared, e: OpenEnv) {
    && (e.block.Some? ==> e.block.value !in s.blocks)
    && (e.fd.Some? ==> e.fd.value !in s.fds)
  }

  predicate Probed(e: OpenEnv) {
    && e.block.Some? && e.fd.Some?
    && (if e.driverVersion >= 0 then e.hwVersions >= 0 else e.rga2Version >= 0 || e.rga1Version >= 0)
  }

  // ---------------------------------------------------------------------------------
  // The critical sections as functions of the shared state.

  /** NormalRgaOpen once `context_closing` is clear: its net effect over all exits. */
  function OpenSection(s: Shared, e: OpenEnv): Shared {
    if s.rgaCtx.Some? then s.(refCount := s.refCount + 1)
    else if Probed(e) then
      s.(rgaCtx := e.block, refCount := s.refCount + 1, gen := s.gen + 1,
         blocks := s.blocks[e.block.value := e.fd.value], fds := s.fds + {e.fd.value})
    else s
  }

  predicate Opens(s: Shared, e: OpenEnv) {
    s.rgaCtx.Some? || Probed(e)
  }

  /** The close passes every guard and gives a reference back. */
  predicate EffectiveClose(s: Shared, handle: Option<Addr>) {
    s.rgaCtx.Some? && handle == s.rgaCtx && s.refCount > 0
  }

  /** Dropping one reference; the last one turns new operations and opens away. */
  function Release(s: Shared): Shared {
    if s.refCount - 1 > 0 then s.(refCount := s.refCount - 1)
    else s.(refCount := s.refCount - 1, closing := true)
  }

  /** The tail of NormalRgaClose after the drain, on the block it remembered. */
  function Teardown(s: Shared, a: Addr): Shared {
    s.(rgaCtx := None, closing := false,
       fds := if a in s.blocks then s.fds - {s.blocks[a]} else s.fds,
       blocks := s.blocks - {a})
  }

  /** What the constructor of RgaContextUse sees as its context. */
  function Visible(s: Shared): Option<Addr> {
    if s.closing then None else s.rgaCtx
  }

  // ---------------------------------------------------------------------------------
  // The machine.

  datatype Pc =
    | Idle
    | OpenAsleep(init: bool)             // in pthread_cond_wait inside NormalRgaOpen
    | OpenAwake(init: bool)              // woken, about to take the mutex again
    | Checking(ctx: Addr, gen: nat)      // RgaInit between the open and rga_check_driver
    | Operating(ctx: Addr, gen: nat)     // between RgaContextUse and its destructor
    | CloseAsleep(ctx: Addr, gen: nat)   // last closer waiting for active operations
    | CloseAwake(ctx: Addr, gen: nat)

  /** `opens` and `closes` count successful opens and effective closes; `tokens` are the
      references handed to clients and not yet given back. */
  datatype State = State(
    sh: Shared, pcs: map<Tid, Pc>, opens: nat, closes: nat, tokens: multiset<(Addr, nat)>)

  datatype Step =
    | OpenStep(t: Tid, init: bool, env: OpenEnv)
    | CloseStep(t: Tid, handle: Option<Addr>)
    | CheckStep(t: Tid, accepted: bool)
    | DrainStep(t: Tid)
    | UseBegin(t: Tid)
    | UseEnd(t: Tid)
    | Spurious(t: Tid)

  const Initial := State(Shared(None, 0, 0, false, map[], {}, 0), map[], 0, 0, multiset{})

  function PcOf(s: State, t: Tid): Pc {
    if t in s.pcs then s.pcs[t] else Idle
  }

  function Wake(pc: Pc): Pc {
    match pc
    case OpenAsleep(init) => OpenAwake(init)
    case CloseAsleep(a, g) => CloseAwake(a, g)
    case _ => pc
  }

  /** pthread_cond_broadcast: the whole waiting set wakes. */
  function WakeAll(pcs: map<Tid, Pc>): map<Tid, Pc> {
    map t | t in pcs :: Wake(pcs[t])
  }

  predicate Enabled(s: State, step: Step) {
    match step
    case OpenStep(t, init, e) =>
      (PcOf(s, t) == Idle || PcOf(s, t) == OpenAwake(init)) && Fresh(s.sh, e)
    case CloseStep(t, _) => PcOf(s, t) == Idle
    case CheckStep(t, _) => PcOf(s, t).Checking?
    case DrainStep(t) => PcOf(s, t).CloseAwake?
    case UseBegin(t) => PcOf(s, t) == Idle
    case UseEnd(t) => PcOf(s, t).Operating?
    case Spurious(t) => PcOf(s, t).OpenAsleep? || PcOf(s, t).CloseAsleep?
  }

  /** One evaluation of the closer's wait loop: sleep while operations run, else tear down. */
  function Drain(s: State, t: Tid, a: Addr, g: nat): State {
    if s.sh.active != 0 then s.(pcs := s.pcs[t := CloseAsleep(a, g)])
    else s.(sh := Teardown(s.sh, a), pcs := WakeAll(s.pcs)[t := Idle])
  }

  /** NormalRgaClose up to its end or its first wait. */
  function Close(s: State, t: Tid, handle: Option<Addr>): State {
    if !EffectiveClose(s.sh, handle) then s.(pcs := s.pcs[t := Idle])
    else
      var s1 := s.(sh := Release(s.sh), closes := s.closes + 1);
      if s.sh.refCount - 1 > 0 then s1.(pcs := s.pcs[t := Idle])
      else Drain(s1, t, handle.value, s.sh.gen)
  }

  function Open(s: State, t: Tid, init: bool, e: OpenEnv): State {
    if s.sh.closing then s.(pcs := s.pcs[t := OpenAsleep(init)])
    else if !Opens(s.sh, e) then s.(pcs := s.pcs[t := Idle])
    else
      var sh := OpenSection(s.sh, e);
      s.(sh := sh, opens := s.opens + 1,
         tokens := if init then s.tokens else s.tokens + multiset{(sh.rgaCtx.value, sh.gen)},
         pcs := s.pcs[t := if init then Checking(sh.rgaCtx.value, sh.gen) else Idle])
  }

  function Apply(s: State, step: Step): State
    requires Enabled(s, step)
  {
    match step
    case OpenStep(t, init, e) => Open(s, t, init, e)
    case CloseStep(t, handle) =>
      var s' := Close(s, t, handle);
      if EffectiveClose(s.sh, handle) then s'.(tokens := s.tokens - multiset{(handle.value, s.sh.gen)}) else s'
    case CheckStep(t, accepted) =>
      var held := PcOf(s, t);
      if accepted then s.(pcs := s.pcs[t := Idle], tokens := s.tokens + multiset{(held.ctx, held.gen)})
      else Close(s, t, Some(held.ctx))
    case DrainStep(t) => Drain(s, t, PcOf(s, t).ctx, PcOf(s, t).gen)
    case UseBegin(t) =>
      if Visible(s.sh).None? then s
      else s.(sh := s.sh.(active := s.sh.active + 1),
              pcs := s.pcs[t := Operating(s.sh.rgaCtx.value, s.sh.gen)])
    case UseEnd(t) =>
      var sh := s.sh.(active := s.sh.active - 1);
      s.(sh := sh, pcs := (if sh.active == 0 then WakeAll(s.pcs) else s.pcs)[t := Idle])
    case Spurious(t) => s.(pcs := s.pcs[t := Wake(PcOf(s, t))])
  }

  // ---------------------------------------------------------------------------------
  // What each critical section does, in terms of the globals alone.

  /** An operation is admitted exactly when a context is published and not closing, however many
      already run; it then holds that context and is counted. Otherwise nothing happens. */
  lemma UseBeginOutcome(s: State, t: Tid)
    requires Enabled(s, UseBegin(t))
    ensures var s' := Apply(s, UseBegin(t));
            if s.sh.rgaCtx.Some? && !s.sh.closing then
              && PcOf(s', t) == Operating(s.sh.rgaCtx.value, s.sh.gen)
              && s' == s.(sh := s.sh.(active := s.sh.active + 1), pcs := s'.pcs) && Moved(s, s', t)
            else s' == s
  {
  }

  /** Only thread t may have moved. */
  predicate Moved(s: State, s': State, t: Tid) { t in s'.pcs && s'.pcs == s.pcs[t := s'.pcs[t]] }

  /** The last operation to end, and no other, wakes every sleeper. */
  lemma UseEndOutcome(s: State, t: Tid, u: Tid)
    requires Enabled(s, UseEnd(t)) && u != t
    ensures var s' := Apply(s, UseEnd(t));
            && PcOf(s', t) == Idle && s'.sh == s.sh.(active := s.sh.active - 1)
            && (s.sh.active != 1 ==> PcOf(s', u) == PcOf(s, u))
            && (s.sh.active == 1 ==> !PcOf(s', u).OpenAsleep? && !PcOf(s', u).CloseAsleep?)
  {
  }

  /** An open waits exactly while a close drains. Otherwise it shares the published context, or else
      publishes a new one exactly when memory, device and version queries all come through; a
      failure leaves everything as it was. */
  lemma OpenOutcome(s: State, t: Tid, init: bool, e: OpenEnv)
    requires Enabled(s, OpenStep(t, init, e))
    ensures var s' := Apply(s, OpenStep(t, init, e));
            var answered := e.block.Some? && e.fd.Some?
              && ((e.driverVersion >= 0 && e.hwVersions >= 0)
                  || (e.driverVersion < 0 && (e.rga2Version >= 0 || e.rga1Version >= 0)));
            if s.sh.closing then s'.sh == s.sh && s'.opens == s.opens && PcOf(s', t) == OpenAsleep(init)
            else if s.sh.rgaCtx.Some? then
              && s'.sh == s.sh.(refCount := s.sh.refCount + 1) && s'.opens == s.opens + 1
              && PcOf(s', t) == if init then Checking(s.sh.rgaCtx.value, s.sh.gen) else Idle
            else if answered then
              && s'.opens == s.opens + 1 && s'.sh.rgaCtx == e.block && s'.sh.refCount == s.sh.refCount + 1
              && s'.sh.blocks == s.sh.blocks[e.block.value := e.fd.value] && s'.sh.fds == s.sh.fds + {e.fd.value}
              && s'.sh.active == s.sh.active && !s'.sh.closing && s'.sh.gen == s.sh.gen + 1
              && PcOf(s', t) == if init then Checking(e.block.value, s'.sh.gen) else Idle
            else s'.sh == s.sh && s'.opens == s.opens && PcOf(s', t) == Idle
  {
  }

  /** A close by the published handle gives a reference back; the last one turns opens and
      operations away, and tears down at once exactly when no operation runs. Any other close
      changes nothing. */
  lemma CloseOutcome(s: State, t: Tid, handle: Option<Addr>)
    requires Enabled(s, CloseStep(t, handle))
    ensures var s' := Apply(s, CloseStep(t, handle));
            if handle.None? || handle != s.sh.rgaCtx || s.sh.refCount <= 0 then
              s'.sh == s.sh && s'.closes == s.closes && PcOf(s', t) == Idle
            else
              && s'.closes == s.closes + 1 && s'.sh.refCount == s.sh.refCount - 1 && s'.sh.active == s.sh.active
              && if s.sh.refCount > 1 then s'.sh == s.sh.(refCount := s.sh.refCount - 1) && PcOf(s', t) == Idle
                 else if s.sh.active != 0 then
                   && s'.sh == s.sh.(refCount := s.sh.refCount - 1, closing := true)
                   && PcOf(s', t) == CloseAsleep(handle.value, s.sh.gen)
                 else s'.sh.rgaCtx.None? && !s'.sh.closing && handle.value !in s'.sh.blocks && PcOf(s', t) == Idle
  {
  }

  // ---------------------------------------------------------------------------------
  // The invariant of every reachable state.

  function Operators(s: State): set<Tid> {
    set t | t in s.pcs && s.pcs[t].Operating?
  }

  predicate IsCloser(pc: Pc) { pc.CloseAsleep? || pc.CloseAwake? }

  /** A published context is the only block and holds the only descriptor; else nothing is left. */
  predicate Resources(sh: Shared) {
    if sh.rgaCtx.Some? then
      && sh.rgaCtx.value in sh.blocks
      && sh.blocks == map[sh.rgaCtx.value := sh.blocks[sh.rgaCtx.value]]
      && sh.fds == {sh.blocks[sh.rgaCtx.value]}
    else sh.blocks == map[] && sh.fds == {}
  }

  predicate Counters(s: State) {
    && s.sh.refCount == s.opens - s.closes
    && s.sh.refCount >= 0
    && (s.sh.refCount > 0 <==> s.sh.rgaCtx.Some? && !s.sh.closing)
    && (s.sh.closing ==> s.sh.rgaCtx.Some?)
    && s.sh.active == |Operators(s)|
  }

  /** The thread holds the published context of the current generation. */
  predicate HoldsCurrent(s: State, ctx: Addr, gen: nat) {
    s.sh.rgaCtx == Some(ctx) && s.sh.gen == gen
  }

  ghost predicate Threads(s: State) {
    && (forall t | t in s.pcs && (s.pcs[t].Operating? || IsCloser(s.pcs[t])) ::
          HoldsCurrent(s, s.pcs[t].ctx, s.pcs[t].gen))
    && (forall t | t in s.pcs :: IsCloser(s.pcs[t]) ==> s.sh.closing)
    && (forall t, u | t in s.pcs && u in s.pcs :: IsCloser(s.pcs[t]) && IsCloser(s.pcs[u]) ==> t == u)
    && (s.sh.closing ==> exists t :: t in s.pcs && IsCloser(s.pcs[t]))
    && (forall t | t in s.pcs :: s.pcs[t].CloseAsleep? ==> s.sh.active > 0)
    && (forall t | t in s.pcs :: s.pcs[t].OpenAsleep? ==> s.sh.closing)
  }

  ghost predicate Inv(s: State) {
    Resources(s.sh) && Counters(s) && Threads(s)
  }

  /** Changing one thread that neither was nor becomes a closer keeps the thread invariant. */
  lemma ThreadsUpdate(s: State, s': State, t: Tid, pc: Pc)
    requires Threads(s) && s'.pcs == s.pcs[t := pc]
    requires s'.sh.rgaCtx == s.sh.rgaCtx && s'.sh.gen == s.sh.gen && s'.sh.closing == s.sh.closing
    requires s.sh.active > 0 ==> s'.sh.active > 0
    requires !IsCloser(PcOf(s, t)) && !IsCloser(pc)
    requires pc.Operating? ==> HoldsCurrent(s, pc.ctx, pc.gen)
    requires pc.OpenAsleep? ==> s.sh.closing
    ensures Threads(s')
  {
    if s.sh.closing {
      var u :| u in s.pcs && IsCloser(s.pcs[u]);
      assert u in s'.pcs && IsCloser(s'.pcs[u]);
    }
  }

  /** Nobody uses or closes a context that is not published. */
  lemma UnpublishedIsUnused(s: State)
    requires Threads(s) && s.sh.rgaCtx.None?
    ensures forall u | u in s.pcs :: !s.pcs[u].Operating? && !IsCloser(s.pcs[u])
  {
  }

  lemma InvSleepingCloser(s: State, t: Tid, a: Addr, g: nat)
    requires Resources(s.sh) && Counters(s) && s.sh.closing && HoldsCurrent(s, a, g) && s.sh.active != 0
    requires forall u | u in s.pcs && s.pcs[u].Operating? :: HoldsCurrent(s, s.pcs[u].ctx, s.pcs[u].gen)
    requires forall u | u in s.pcs && u != t :: !IsCloser(s.pcs[u])
    requires !PcOf(s, t).Operating?
    ensures Inv(Drain(s, t, a, g))
  {
    var s' := Drain(s, t, a, g);
    assert Operators(s') == Operators(s);
    assert t in s'.pcs && IsCloser(s'.pcs[t]);
  }

  lemma InvTeardown(s: State, t: Tid, a: Addr, g: nat)
    requires Resources(s.sh) && Counters(s) && s.sh.closing && HoldsCurrent(s, a, g) && s.sh.active == 0
    requires forall u | u in s.pcs && u != t :: !IsCloser(s.pcs[u])
    requires !PcOf(s, t).Operating?
    ensures Inv(Drain(s, t, a, g))
  {
    var s' := Drain(s, t, a, g);
    assert forall u | u in s.pcs :: s.pcs[u].Operating? ==> u in Operators(s);
    assert Operators(s) == {};
    assert forall u | u in s'.pcs :: !s'.pcs[u].Operating? && !IsCloser(s'.pcs[u]) && !s'.pcs[u].OpenAsleep?;
    assert Operators(s') == {};
    assert s'.sh.blocks == map[];
  }

  lemma InvDrain(s: State, t: Tid, a: Addr, g: nat)
    requires Resources(s.sh) && Counters(s) && s.sh.closing && HoldsCurrent(s, a, g)
    requires forall u | u in s.pcs && s.pcs[u].Operating? :: HoldsCurrent(s, s.pcs[u].ctx, s.pcs[u].gen)
    requires forall u | u in s.pcs && u != t :: !IsCloser(s.pcs[u])
    requires !PcOf(s, t).Operating?
    ensures Inv(Drain(s, t, a, g))
  {
    if s.sh.active != 0 { InvSleepingCloser(s, t, a, g); } else { InvTeardown(s, t, a, g); }
  }

  lemma InvClose(s: State, t: Tid, handle: Option<Addr>)
    requires Inv(s) && !PcOf(s, t).Operating? && !IsCloser(PcOf(s, t))
    ensures Inv(Close(s, t, handle))
  {
    var s' := Close(s, t, handle);
    if EffectiveClose(s.sh, handle) && s.sh.refCount - 1 <= 0 {
      var s1 := s.(sh := Release(s.sh), closes := s.closes + 1);
      assert Operators(s1) == Operators(s);
      InvDrain(s1, t, handle.value, s.sh.gen);
    } else {
      assert Operators(s') == Operators(s);
      ThreadsUpdate(s, s', t, Idle);
    }
  }

  lemma InvPublish(s: State, t: Tid, init: bool, e: OpenEnv)
    requires Inv(s) && Fresh(s.sh, e) && !s.sh.closing && s.sh.rgaCtx.None? && Probed(e)
    ensures Inv(Open(s, t, init, e))
  {
    var s' := Open(s, t, init, e);
    UnpublishedIsUnused(s);
    assert forall u | u in s'.pcs :: !s'.pcs[u].Operating? && !IsCloser(s'.pcs[u]);
    assert Operators(s) == {} && Operators(s') == {};
    assert s'.sh.blocks == map[e.block.value := e.fd.value];
  }

  lemma InvOpen(s: State, t: Tid, init: bool, e: OpenEnv)
    requires Inv(s) && Fresh(s.sh, e) && !PcOf(s, t).Operating? && !IsCloser(PcOf(s, t))
    ensures Inv(Open(s, t, init, e))
  {
    if !s.sh.closing && s.sh.rgaCtx.None? && Probed(e) {
      InvPublish(s, t, init, e);
    } else {
      var s' := Open(s, t, init, e);
      assert Operators(s') == Operators(s);
      ThreadsUpdate(s, s', t, s'.pcs[t]);
    }
  }

  lemma InvUseBegin(s: State, t: Tid)
    requires Inv(s) && PcOf(s, t) == Idle
    ensures Inv(Apply(s, UseBegin(t)))
  {
    var s' := Apply(s, UseBegin(t));
    if Visible(s.sh).Some? {
      assert t !in Operators(s) && Operators(s') == Operators(s) + {t};
      ThreadsUpdate(s, s', t, s'.pcs[t]);
    }
  }

  /** A broadcast with no operation left keeps the thread invariant: nobody sleeps any more. */
  lemma ThreadsWoken(s: State, s1: State)
    requires Threads(s) && s1 == s.(pcs := WakeAll(s.pcs), sh := s.sh.(active := 0))
    ensures Threads(s1)
  {
    assert forall u | u in s1.pcs :: !s1.pcs[u].CloseAsleep? && !s1.pcs[u].OpenAsleep?;
    assert forall u | u in s1.pcs :: IsCloser(s1.pcs[u]) <==> IsCloser(s.pcs[u]);
    if s.sh.closing {
      var u :| u in s.pcs && IsCloser(s.pcs[u]);
      assert u in s1.pcs && IsCloser(s1.pcs[u]);
    }
  }

  /** The destructor that ends the last operation broadcasts, and wakes the closer. */
  lemma InvLastUseEnd(s: State, t: Tid)
    requires Inv(s) && PcOf(s, t).Operating? && s.sh.active == 1
    ensures Inv(Apply(s, UseEnd(t)))
  {
    var s' := Apply(s, UseEnd(t));
    var s1 := s.(pcs := WakeAll(s.pcs), sh := s.sh.(active := 0));
    ThreadsWoken(s, s1);
    ThreadsUpdate(s1, s', t, Idle);
    assert t in Operators(s);
    assert Operators(s') == Operators(s) - {t};
  }

  lemma InvUseEnd(s: State, t: Tid)
    requires Inv(s) && PcOf(s, t).Operating?
    ensures Inv(Apply(s, UseEnd(t)))
  {
    if s.sh.active == 1 {
      InvLastUseEnd(s, t);
    } else {
      var s' := Apply(s, UseEnd(t));
      assert Operators(s') == Operators(s) - {t} && t in Operators(s);
      ThreadsUpdate(s, s', t, Idle);
    }
  }

  lemma InvSpurious(s: State, t: Tid)
    requires Inv(s) && Enabled(s, Spurious(t))
    ensures Inv(Apply(s, Spurious(t)))
  {
    var s' := Apply(s, Spurious(t));
    assert Operators(s') == Operators(s);
    if s.pcs[t].OpenAsleep? {
      ThreadsUpdate(s, s', t, s'.pcs[t]);
    } else {
      assert t in s'.pcs && IsCloser(s'.pcs[t]);
    }
  }

  lemma InvAccepted(s: State, t: Tid)
    requires Inv(s) && PcOf(s, t).Checking?
    ensures Inv(Apply(s, CheckStep(t, true)))
  {
    var s' := Apply(s, CheckStep(t, true));
    assert Operators(s') == Operators(s);
    ThreadsUpdate(s, s', t, Idle);
  }

  /** Every critical section of every thread keeps the invariant. */
  lemma InvStep(s: State, step: Step)
    requires Inv(s) && Enabled(s, step)
    ensures Inv(Apply(s, step))
  {
    match step
    case OpenStep(t, init, e) => InvOpen(s, t, init, e);
    case CloseStep(t, handle) =>
      InvClose(s, t, handle);
      assert Operators(Apply(s, step)) == Operators(Close(s, t, handle));
    case CheckStep(t, accepted) =>
      if accepted { InvAccepted(s, t); } else { InvClose(s, t, Some(PcOf(s, t).ctx)); }
    case DrainStep(t) => InvDrain(s, t, PcOf(s, t).ctx, PcOf(s, t).gen);
    case UseBegin(t) => InvUseBegin(s, t);
    case UseEnd(t) => InvUseEnd(s, t);
    case Spurious(t) => InvSpurious(s, t);
  }

  // ---------------------------------------------------------------------------------
  // Whole runs.

  ghost predicate IsRun(states: seq<State>, steps: seq<Step>) {
    && |states| == |steps| + 1 && states[0] == Initial
    && forall i {:trigger steps[i]} | 0 <= i < |steps| ::
         Enabled(states[i], steps[i]) && states[i + 1] == Apply(states[i], steps[i])
  }

  lemma InvInitially()
    ensures Inv(Initial)
  {
    assert Operators(Initial) == {};
  }

  lemma {:induction false} RunKeepsInv(states: seq<State>, steps: seq<Step>, i: nat)
    requires IsRun(states, steps) && i < |states|
    ensures Inv(states[i])
  {
    if i == 0 {
      InvInitially();
    } else {
      RunKeepsInv(states, steps, i - 1);
      InvStep(states[i - 1], steps[i - 1]);
    }
  }

  /** While an operation runs, no step of any thread replaces, frees or unpublishes the context. */
  lemma ContextPinned(s: State, step: Step)
    requires Inv(s) && Enabled(s, step) && s.sh.active > 0
    ensures var sh := Apply(s, step).sh;
            sh.rgaCtx == s.sh.rgaCtx && sh.gen == s.sh.gen && sh.blocks == s.sh.blocks && sh.fds == s.sh.fds
  {
    var t :| t in Operators(s);
    assert HoldsCurrent(s, s.pcs[t].ctx, s.pcs[t].gen);
  }

  /** The block an operation holds is the published one, allocated, with its descriptor open. */
  predicate Live(sh: Shared, a: Addr) {
    sh.rgaCtx == Some(a) && a in sh.blocks && sh.blocks[a] in sh.fds
  }

  lemma DrainLeavesOperating(s: State, u: Tid, a: Addr, g: nat, t: Tid)
    requires PcOf(s, t).Operating? && u != t
    ensures PcOf(Drain(s, u, a, g), t) == PcOf(s, t)
  {
  }

  lemma CloseLeavesOperating(s: State, u: Tid, handle: Option<Addr>, t: Tid)
    requires PcOf(s, t).Operating? && u != t
    ensures PcOf(Close(s, u, handle), t) == PcOf(s, t)
  {
    if EffectiveClose(s.sh, handle) {
      DrainLeavesOperating(s.(sh := Release(s.sh), closes := s.closes + 1), u, handle.value, s.sh.gen, t);
    }
  }

  lemma OperatingPersists(s: State, step: Step, t: Tid)
    requires Enabled(s, step) && PcOf(s, t).Operating? && step != UseEnd(t)
    ensures PcOf(Apply(s, step), t) == PcOf(s, t)
  {
    match step
    case CloseStep(u, handle) => CloseLeavesOperating(s, u, handle, t);
    case CheckStep(u, accepted) => CloseLeavesOperating(s, u, Some(PcOf(s, u).ctx), t);
    case DrainStep(u) => DrainLeavesOperating(s, u, PcOf(s, u).ctx, PcOf(s, u).gen, t);
    case _ =>
  }

  lemma OperatingIsLive(s: State, t: Tid)
    requires Inv(s) && PcOf(s, t).Operating?
    ensures Live(s.sh, PcOf(s, t).ctx) && s.sh.active > 0
  {
    assert HoldsCurrent(s, s.pcs[t].ctx, s.pcs[t].gen) && t in Operators(s);
  }

  /** In every run, an operation sees the published, allocated, open context it started with,
      so its later unlocked reads of the global hit the block it holds. */
  lemma {:induction false} OperationHoldsLiveContext(states: seq<State>, steps: seq<Step>, i: nat, j: nat, t: Tid)
    requires IsRun(states, steps) && i <= j < |states|
    requires PcOf(states[i], t).Operating?
    requires forall k | i <= k < j :: steps[k] != UseEnd(t)
    ensures PcOf(states[j], t) == PcOf(states[i], t) && Live(states[j].sh, PcOf(states[i], t).ctx)
    ensures states[j].sh.gen == states[i].sh.gen && states[j].sh.blocks == states[i].sh.blocks
  {
    if i < j {
      OperationHoldsLiveContext(states, steps, i, j - 1, t);
      var s, step := states[j - 1], steps[j - 1];
      RunKeepsInv(states, steps, j - 1);
      OperatingIsLive(s, t);
      OperatingPersists(s, step, t);
      ContextPinned(s, step);
    }
    RunKeepsInv(states, steps, j);
    OperatingIsLive(states[j], t);
  }

  /** The step frees a block or closes a descriptor. */
  predicate Frees(sh: Shared, sh': Shared) { !(sh.blocks.Keys <= sh'.blocks.Keys) || !(sh.fds <= sh'.fds) }

  predicate TornDown(sh: Shared) { sh.refCount == 0 && sh.blocks == map[] && sh.fds == {} && !sh.closing }

  lemma DrainFrees(s: State, t: Tid, a: Addr, g: nat)
    requires Resources(s.sh) && HoldsCurrent(s, a, g) && s.sh.refCount == 0
    ensures Frees(s.sh, Drain(s, t, a, g).sh) ==> s.sh.active == 0 && TornDown(Drain(s, t, a, g).sh)
  {
  }

  lemma CloseFrees(s: State, t: Tid, handle: Option<Addr>)
    requires Inv(s)
    ensures Frees(s.sh, Close(s, t, handle).sh) ==> s.sh.active == 0 && TornDown(Close(s, t, handle).sh)
  {
    if EffectiveClose(s.sh, handle) && s.sh.refCount - 1 <= 0 {
      DrainFrees(s.(sh := Release(s.sh), closes := s.closes + 1), t, handle.value, s.sh.gen);
    }
  }

  /** Blocks are freed and descriptors closed only with no reference and no operation left;
      afterwards nothing is allocated. */
  lemma TeardownOnlyWhenIdle(s: State, step: Step)
    requires Inv(s) && Enabled(s, step)
    requires !(s.sh.blocks.Keys <= Apply(s, step).sh.blocks.Keys) || !(s.sh.fds <= Apply(s, step).sh.fds)
    ensures s.sh.active == 0 && Apply(s, step).sh.refCount == 0
    ensures Apply(s, step).sh.blocks == map[] && Apply(s, step).sh.fds == {} && !Apply(s, step).sh.closing
  {
    match step
    case CloseStep(t, handle) => CloseFrees(s, t, handle);
    case CheckStep(t, accepted) => CloseFrees(s, t, Some(PcOf(s, t).ctx));
    case DrainStep(t) => DrainFrees(s, t, PcOf(s, t).ctx, PcOf(s, t).gen);
    case _ =>
  }

  /** A sleeper always waits for something that will wake it, and at most one thread drains. */
  lemma NoLostWakeup(states: seq<State>, steps: seq<Step>, i: nat, t: Tid, u: Tid)
    requires IsRun(states, steps) && i < |states|
    ensures PcOf(states[i], t).CloseAsleep? ==> exists v :: v in Operators(states[i])
    ensures PcOf(states[i], t).OpenAsleep? ==> exists v :: IsCloser(PcOf(states[i], v))
    ensures IsCloser(PcOf(states[i], t)) && IsCloser(PcOf(states[i], u)) ==> t == u
  {
    RunKeepsInv(states, steps, i);
    var s := states[i];
    if PcOf(s, t).CloseAsleep? {
      assert Operators(s) != {};
    }
    if s.sh.closing {
      var v :| v in s.pcs && IsCloser(s.pcs[v]);
      assert IsCloser(PcOf(s, v));
    }
  }

  /** During a drain the number of active operations only falls, by one at each end of an operation. */
  lemma DrainNeverGrows(s: State, step: Step)
    requires Inv(s) && Enabled(s, step) && s.sh.closing && Apply(s, step).sh.closing
    ensures Apply(s, step).sh.active == s.sh.active - (if step.UseEnd? then 1 else 0)
  {
  }

  // ---------------------------------------------------------------------------------
  // Liveness: under a fair scheduler the last close always completes.

  ghost predicate IsBehaviour(st: nat -> State, lab: nat -> Step) {
    && st(0) == Initial
    && forall i: nat {:trigger lab(i)} :: Enabled(st(i), lab(i)) && st(i + 1) == Apply(st(i), lab(i))
  }

  /** Operations end, and a woken closer gets the mutex. Openers and clients may be starved. */
  ghost predicate Fair(st: nat -> State, lab: nat -> Step) {
    && (forall i: nat, t: Tid {:trigger Eventually(lab, i, UseEnd(t))} ::
          PcOf(st(i), t).Operating? ==> Eventually(lab, i, UseEnd(t)))
    && (forall i: nat, t: Tid {:trigger Eventually(lab, i, DrainStep(t))} ::
          PcOf(st(i), t).CloseAwake? ==> Eventually(lab, i, DrainStep(t)))
  }

  ghost predicate Eventually(lab: nat -> Step, i: nat, step: Step) {
    exists j: nat :: i <= j && lab(j) == step
  }

  lemma {:induction false} BehaviourKeepsInv(st: nat -> State, lab: nat -> Step, i: nat)
    requires IsBehaviour(st, lab)
    ensures Inv(st(i))
  {
    if i == 0 {
      InvInitially();
    } else {
      BehaviourKeepsInv(st, lab, i - 1);
      InvStep(st(i - 1), lab(i - 1));
    }
  }

  /** From i to j either the drain ends on the way or the active count has not grown. */
  lemma {:induction false} DrainUpTo(st: nat -> State, lab: nat -> Step, i: nat, j: nat) returns (k: nat)
    requires IsBehaviour(st, lab) && i <= j && st(i).sh.closing
    ensures i <= k <= j
    ensures !st(k).sh.closing || (k == j && st(j).sh.active <= st(i).sh.active)
  {
    if i == j {
      k := i;
    } else {
      k := DrainUpTo(st, lab, i, j - 1);
      if st(k).sh.closing {
        BehaviourKeepsInv(st, lab, j - 1);
        assert st(j - 1 + 1) == Apply(st(j - 1), lab(j - 1));
        if st(j).sh.closing { DrainNeverGrows(st(j - 1), lab(j - 1)); }
        k := j;
      }
    }
  }

  /** One fair round of a drain: it ends, or an operation ends. */
  lemma DrainRound(st: nat -> State, lab: nat -> Step, i: nat) returns (j: nat)
    requires IsBehaviour(st, lab) && Fair(st, lab) && st(i).sh.closing
    ensures i <= j
    ensures st(j).sh.closing ==> st(j).sh.active < st(i).sh.active
  {
    j := DrainProgressAt(st, lab, i);
    var k := DrainUpTo(st, lab, i, j);
    if !st(k).sh.closing {
      j := k;
    } else {
      DrainAdvancesAt(st, lab, j, st(i).sh.active);
      j := j + 1;
    }
  }

  lemma DrainProgressAt(st: nat -> State, lab: nat -> Step, i: nat) returns (j: nat)
    requires IsBehaviour(st, lab) && Fair(st, lab) && st(i).sh.closing
    ensures i <= j && (lab(j).UseEnd? || (lab(j).DrainStep? && st(i).sh.active == 0))
  {
    BehaviourKeepsInv(st, lab, i);
    var step := DrainProgress(st(i));
    assert Eventually(lab, i, step);
    j :| i <= j && lab(j) == step;
  }

  lemma DrainAdvancesAt(st: nat -> State, lab: nat -> Step, j: nat, bound: int)
    requires IsBehaviour(st, lab) && st(j).sh.closing && st(j).sh.active <= bound
    requires lab(j).UseEnd? || (lab(j).DrainStep? && bound == 0)
    ensures st(j + 1).sh.closing ==> st(j + 1).sh.active < bound
  {
    BehaviourKeepsInv(st, lab, j);
    DrainAdvances(st(j), lab(j), bound);
  }

  /** What a draining state waits for: the end of an operation, or else the woken closer. */
  lemma DrainProgress(s: State) returns (step: Step)
    requires Inv(s) && s.sh.closing
    ensures if s.sh.active > 0 then step.UseEnd? && PcOf(s, step.t).Operating?
            else step.DrainStep? && PcOf(s, step.t).CloseAwake?
  {
    if s.sh.active > 0 {
      var t :| t in Operators(s);
      step := UseEnd(t);
    } else {
      var t :| t in s.pcs && IsCloser(s.pcs[t]);
      step := DrainStep(t);
    }
  }

  lemma DrainAdvances(s: State, step: Step, bound: int)
    requires Inv(s) && Enabled(s, step) && s.sh.closing && s.sh.active <= bound
    requires step.UseEnd? || (step.DrainStep? && bound == 0)
    ensures Apply(s, step).sh.closing ==> Apply(s, step).sh.active < bound
  {
  }

  /** Whatever is still active when the last reference goes, the drain ends and the closer tears down. */
  lemma {:induction false} CloseCompletes(st: nat -> State, lab: nat -> Step, i: nat) returns (j: nat)
    requires IsBehaviour(st, lab) && Fair(st, lab)
    ensures i <= j && !st(j).sh.closing
    decreases st(i).sh.active
  {
    j := i;
    if st(i).sh.closing {
      j := DrainRound(st, lab, i);
      if st(j).sh.closing {
        BehaviourKeepsInv(st, lab, j);
        j := CloseCompletes(st, lab, j);
      }
    }
  }

  // ---------------------------------------------------------------------------------
  // References held by clients.

  function Checkers(s: State): set<Tid> {
    set t | t in s.pcs && s.pcs[t].Checking?
  }

  /** The client's side of the bargain: an effective close gives back a reference it was handed. */
  predicate Matched(s: State, step: Step) {
    step.CloseStep? && EffectiveClose(s.sh, step.handle) ==> (step.handle.value, s.sh.gen) in s.tokens
  }

  ghost predicate References(s: State) {
    && s.sh.refCount == |s.tokens| + |Checkers(s)|
    && (forall r | r in s.tokens :: HoldsCurrent(s, r.0, r.1))
    && (forall t | t in s.pcs && s.pcs[t].Checking? :: HoldsCurrent(s, s.pcs[t].ctx, s.pcs[t].gen))
  }

  /** References carry over when none is added or removed and the context they name stays. */
  lemma ReferencesKept(s: State, s': State)
    requires References(s) && s'.tokens == s.tokens && s'.sh.refCount == s.sh.refCount
    requires Checkers(s') == Checkers(s) && forall t | t in Checkers(s) :: s'.pcs[t] == s.pcs[t]
    requires s.sh.refCount > 0 ==> s'.sh.rgaCtx == s.sh.rgaCtx && s'.sh.gen == s.sh.gen
    ensures References(s')
  {
    if s.sh.refCount == 0 { assert s.tokens == multiset{} && Checkers(s) == {}; }
    assert forall t | t in s'.pcs && s'.pcs[t].Checking? :: t in Checkers(s');
  }

  /** The opener becomes a checker, and no other thread changes its mind. */
  lemma OpenCheckers(s: State, t: Tid, init: bool, e: OpenEnv)
    requires !PcOf(s, t).Checking? && !s.sh.closing && Opens(s.sh, e)
    ensures var s' := Open(s, t, init, e);
            && |Checkers(s')| == |Checkers(s)| + (if init then 1 else 0)
            && (forall u | u in s'.pcs && s'.pcs[u].Checking? && u != t :: u in Checkers(s) && s'.pcs[u] == s.pcs[u])
  {
    var s' := Open(s, t, init, e);
    assert t !in Checkers(s);
    assert Checkers(s') == if init then Checkers(s) + {t} else Checkers(s);
  }

  lemma ReferencesOpen(s: State, t: Tid, init: bool, e: OpenEnv)
    requires References(s) && (s.sh.rgaCtx.None? ==> s.sh.refCount == 0)
    requires !PcOf(s, t).Checking? && !s.sh.closing && Opens(s.sh, e)
    ensures References(Open(s, t, init, e))
  {
    OpenCheckers(s, t, init, e);
    if s.sh.rgaCtx.None? { assert s.tokens == multiset{} && Checkers(s) == {}; }
  }

  /** A close takes back one reference and touches no other thread's. */
  lemma CloseTakesOne(s: State, t: Tid, handle: Option<Addr>)
    requires EffectiveClose(s.sh, handle)
    ensures var s' := Close(s, t, handle);
            && Checkers(s') == Checkers(s) - {t} && (forall u | u in Checkers(s') :: s'.pcs[u] == s.pcs[u])
            && s'.sh.refCount == s.sh.refCount - 1 && s'.tokens == s.tokens && s'.sh.gen == s.sh.gen
            && (s.sh.refCount > 1 ==> s'.sh.rgaCtx == s.sh.rgaCtx)
  {
    var s' := Close(s, t, handle);
    if s.sh.refCount - 1 > 0 || s.sh.active != 0 {
      assert Checkers(s') == Checkers(s) - {t};
    } else {
      assert s'.pcs == WakeAll(s.pcs)[t := Idle];
      assert Checkers(s') == Checkers(s) - {t};
    }
  }

  /** One reference fewer, whether a thread in RgaInit held it or a client. */
  lemma OneFewer(
    checkers: set<Tid>, t: Tid, tokens: multiset<(Addr, nat)>, r: (Addr, nat), tokens': multiset<(Addr, nat)>)
    requires if t in checkers then tokens' == tokens else r in tokens && tokens' == tokens - multiset{r}
    ensures |tokens'| + |checkers - {t}| == |tokens| + |checkers| - 1
  {
    if t !in checkers {
      assert checkers - {t} == checkers;
    }
  }

  lemma ReferencesClose(s: State, t: Tid, handle: Option<Addr>, s': State)
    requires References(s) && EffectiveClose(s.sh, handle)
    requires var c := Close(s, t, handle); s'.sh == c.sh && s'.pcs == c.pcs
    requires if t in Checkers(s) then s'.tokens == s.tokens
             else (handle.value, s.sh.gen) in s.tokens && s'.tokens == s.tokens - multiset{(handle.value, s.sh.gen)}
    ensures References(s')
  {
    CloseTakesOne(s, t, handle);
    assert Checkers(s') == Checkers(Close(s, t, handle));
    OneFewer(Checkers(s), t, s.tokens, (handle.value, s.sh.gen), s'.tokens);
    ReferencesLeft(s, s');
  }

  /** What is left of the references still holds, as long as any is left. */
  lemma ReferencesLeft(s: State, s': State)
    requires References(s) && s'.sh.refCount == |s'.tokens| + |Checkers(s')| && s'.tokens <= s.tokens
    requires Checkers(s') <= Checkers(s) && forall u | u in Checkers(s') :: s'.pcs[u] == s.pcs[u]
    requires s'.sh.refCount > 0 ==> s'.sh.rgaCtx == s.sh.rgaCtx && s'.sh.gen == s.sh.gen
    ensures References(s')
  {
    if s'.sh.refCount == 0 { assert s'.tokens == multiset{} && Checkers(s') == {}; }
    assert forall u | u in s'.pcs && s'.pcs[u].Checking? :: u in Checkers(s');
    assert forall r | r in s'.tokens :: r in s.tokens;
  }

  lemma ReferencesStep(s: State, step: Step)
    requires Inv(s) && References(s) && Enabled(s, step) && Matched(s, step)
    ensures References(Apply(s, step))
  {
    var s' := Apply(s, step);
    var t := step.t;
    if step.OpenStep? && !s.sh.closing && Opens(s.sh, step.env) {
      ReferencesOpen(s, t, step.init, step.env);
    } else if step.CloseStep? && EffectiveClose(s.sh, step.handle) {
      ReferencesClose(s, t, step.handle, s');
    } else if step.CheckStep? {
      ReferencesChecked(s, t, step.accepted);
    } else {
      OthersKeepReferences(s, step);
      ReferencesKept(s, s');
    }
  }

  lemma ReferencesChecked(s: State, t: Tid, accepted: bool)
    requires Inv(s) && References(s) && PcOf(s, t).Checking?
    ensures References(Apply(s, CheckStep(t, accepted)))
  {
    var s' := Apply(s, CheckStep(t, accepted));
    assert t in Checkers(s);
    if accepted {
      assert Checkers(s') == Checkers(s) - {t};
    } else {
      ReferencesClose(s, t, Some(PcOf(s, t).ctx), s');
    }
  }

  lemma OthersKeepReferences(s: State, step: Step)
    requires Counters(s) && Enabled(s, step) && !step.CheckStep?
    requires step.OpenStep? ==> s.sh.closing || !Opens(s.sh, step.env)
    requires step.CloseStep? ==> !EffectiveClose(s.sh, step.handle)
    requires step.DrainStep? ==> s.sh.closing
    ensures var s' := Apply(s, step);
            && Checkers(s') == Checkers(s) && (forall t | t in Checkers(s) :: s'.pcs[t] == s.pcs[t])
            && s'.sh.refCount == s.sh.refCount && s'.tokens == s.tokens
            && (s.sh.refCount > 0 ==> s'.sh.rgaCtx == s.sh.rgaCtx && s'.sh.gen == s.sh.gen)
  {
    var s' := Apply(s, step);
    assert forall u :: u in Checkers(s') <==> u in Checkers(s);
  }

  lemma ReferencesInitially()
    ensures References(Initial)
  {
    assert Checkers(Initial) == {} && Initial.tokens == multiset{};
  }

  lemma {:induction false} MatchedRunKeepsReferences(states: seq<State>, steps: seq<Step>, i: nat)
    requires IsRun(states, steps) && i < |states|
    requires forall k {:trigger steps[k]} | 0 <= k < |steps| :: Matched(states[k], steps[k])
    ensures References(states[i])
  {
    if i == 0 {
      ReferencesInitially();
    } else {
      MatchedRunKeepsReferences(states, steps, i - 1);
      RunKeepsInv(states, steps, i - 1);
      ReferencesStep(states[i - 1], steps[i - 1]);
    }
  }

  /** If clients only return what they were handed, every handed-out reference, and the one
      RgaInit dereferences outside the mutex, is the live context. */
  lemma ClientsHoldLiveContext(states: seq<State>, steps: seq<Step>, i: nat, a: Addr, g: nat, t: Tid)
    requires IsRun(states, steps) && i < |states|
    requires forall k {:trigger steps[k]} | 0 <= k < |steps| :: Matched(states[k], steps[k])
    requires (a, g) in states[i].tokens || PcOf(states[i], t) == Checking(a, g)
    ensures states[i].sh.rgaCtx == Some(a) && a in states[i].sh.blocks && !states[i].sh.closing
  {
    MatchedRunKeepsReferences(states, steps, i);
    RunKeepsInv(states, steps, i);
    var s := states[i];
    if PcOf(s, t) == Checking(a, g) { assert t in Checkers(s); }
    assert HoldsCurrent(s, a, g) && s.sh.refCount > 0;
  }

  // ---- The bargain is necessary: any close outside it can free a block that RgaInit holds ----

  ghost predicate OneStep(s: State, s': State) { exists step :: Enabled(s, step) && s' == Apply(s, step) }

  /** Some n moves of the relation lead from s to s'. */
  ghost predicate Reaches(move: (State, State) -> bool, s: State, s': State, n: nat)
    decreases n
  {
    if n == 0 then s == s' else exists next :: move(s, next) && Reaches(move, next, s', n - 1)
  }

  /** The relation allows at least what the machine does. The proofs below use no more of it. */
  ghost predicate Includes(move: (State, State) -> bool) {
    forall a, b {:trigger OneStep(a, b)} :: OneStep(a, b) ==> move(a, b)
  }

  /** Every thread inside RgaInit is still there, with the block it had. */
  predicate SameCheckers(s: State, s': State) {
    Checkers(s') == Checkers(s) && forall u | u in Checkers(s) :: s'.pcs[u] == s.pcs[u]
  }

  lemma SameCheckersTransitive(a: State, b: State, c: State)
    requires SameCheckers(a, b) && SameCheckers(b, c)
    ensures SameCheckers(a, c)
  {
  }

  lemma EndOneOperation(move: (State, State) -> bool, s: State, t: Tid) returns (next: State)
    requires Includes(move) && Inv(s) && s.sh.closing && s.sh.active > 0 && IsCloser(PcOf(s, t))
    ensures move(s, next) && Inv(next) && SameCheckers(s, next)
    ensures next.sh.closing && next.sh.active == s.sh.active - 1 && IsCloser(PcOf(next, t))
  {
    var u :| u in Operators(s);
    next := Apply(s, UseEnd(u));
    InvStep(s, UseEnd(u));
    OthersKeepReferences(s, UseEnd(u));
    assert OneStep(s, next);
  }

  lemma FinishClose(move: (State, State) -> bool, s: State, t: Tid) returns (s': State)
    requires Includes(move) && Inv(s) && s.sh.closing && s.sh.active == 0 && IsCloser(PcOf(s, t))
    ensures move(s, s') && s'.sh.blocks == map[] && SameCheckers(s, s')
  {
    OthersKeepReferences(s, DrainStep(t));
    InvStep(s, DrainStep(t));
    s' := Apply(s, DrainStep(t));
    assert OneStep(s, s');
  }

  lemma ReachesFirst(move: (State, State) -> bool, s: State, next: State, s': State, n: nat)
    requires move(s, next) && Reaches(move, next, s', n)
    ensures Reaches(move, s, s', n + 1)
  {
  }

  /** A closer that waits can be let through: end every operation, then let it tear down. */
  lemma {:induction false} DrainDown(move: (State, State) -> bool, s: State, t: Tid) returns (s': State, n: nat)
    requires Includes(move) && Inv(s) && s.sh.closing && IsCloser(PcOf(s, t))
    ensures Reaches(move, s, s', n) && s'.sh.blocks == map[] && SameCheckers(s, s')
    decreases s.sh.active
  {
    if s.sh.active > 0 {
      var next := EndOneOperation(move, s, t);
      s', n := DrainDown(move, next, t);
      ReachesFirst(move, s, next, s', n);
      SameCheckersTransitive(s, next, s');
    } else {
      s' := FinishClose(move, s, t);
      n := 0;
      ReachesFirst(move, s, s', s', 0);
    }
    n := n + 1;
  }

  /** Thread t can bring the context down: it is down, t waits to tear it down, or t can close it. */
  predicate CanBringDown(s: State, t: Tid) {
    || s.sh.blocks == map[]
    || (s.sh.closing && IsCloser(PcOf(s, t)))
    || (PcOf(s, t) == Idle && EffectiveClose(s.sh, s.sh.rgaCtx))
  }

  lemma CloseOnce(move: (State, State) -> bool, s: State, t: Tid) returns (next: State)
    requires Includes(move) && Inv(s) && PcOf(s, t) == Idle && EffectiveClose(s.sh, s.sh.rgaCtx)
    ensures next == Apply(s, CloseStep(t, s.sh.rgaCtx)) && move(s, next)
    ensures Inv(next) && SameCheckers(s, next) && next.sh.refCount == s.sh.refCount - 1 && CanBringDown(next, t)
  {
    var close := CloseStep(t, s.sh.rgaCtx);
    next := Apply(s, close);
    InvStep(s, close);
    CloseTakesOne(s, t, s.sh.rgaCtx);
    assert t !in Checkers(s) && Checkers(next) == Checkers(Close(s, t, s.sh.rgaCtx)) == Checkers(s);
    assert OneStep(s, next);
  }

  /** By closing and closing again, and letting every operation end. */
  lemma {:induction false} BringDown(move: (State, State) -> bool, s: State, t: Tid) returns (s': State, n: nat)
    requires Includes(move) && Inv(s) && CanBringDown(s, t)
    ensures Reaches(move, s, s', n) && s'.sh.blocks == map[] && SameCheckers(s, s')
    decreases s.sh.refCount
  {
    if s.sh.blocks == map[] {
      s', n := s, 0;
    } else if s.sh.closing && IsCloser(PcOf(s, t)) {
      s', n := DrainDown(move, s, t);
    } else {
      var next := CloseOnce(move, s, t);
      s', n := BringDown(move, next, t);
      ReachesFirst(move, s, next, s', n);
      SameCheckersTransitive(s, next, s');
      n := n + 1;
    }
  }

  /** Written out, that is a run. */
  lemma {:induction false} ReachesIsRun(move: (State, State) -> bool, s: State, s': State, n: nat)
    returns (run: seq<State>)
    requires Reaches(move, s, s', n)
    ensures |run| == n + 1 && run[0] == s && run[n] == s'
    ensures forall i | 0 <= i < n :: move(run[i], run[i + 1])
    decreases n
  {
    if n == 0 {
      run := [s];
    } else {
      var next :| move(s, next) && Reaches(move, next, s', n - 1);
      var rest := ReachesIsRun(move, next, s', n - 1);
      run := [s] + rest;
    }
  }

  /** Where clients have kept the bargain, an effective close that breaks it finds no client
      reference left, only RgaInit calls in flight, and can be continued so that each of them holds
      a freed block. */
  lemma UnmatchedCloseCanFree(s: State, t: Tid, handle: Option<Addr>) returns (run: seq<State>)
    requires Inv(s) && References(s) && PcOf(s, t) == Idle && EffectiveClose(s.sh, handle)
    requires !Matched(s, CloseStep(t, handle))
    ensures s.tokens == multiset{} && s.sh.refCount == |Checkers(s)| > 0
    ensures |run| > 0 && run[0] == Apply(s, CloseStep(t, handle))
    ensures forall i | 0 <= i < |run| - 1 :: OneStep(run[i], run[i + 1])
    ensures forall u | u in Checkers(s) ::
              && PcOf(run[|run| - 1], u) == Checking(handle.value, s.sh.gen)
              && handle.value !in run[|run| - 1].sh.blocks
  {
    assert forall r | r in s.tokens :: HoldsCurrent(s, r.0, r.1);
    assert s.tokens == multiset{};
    var next := CloseOnce(OneStep, s, t);
    var s', n := BringDown(OneStep, next, t);
    run := ReachesIsRun(OneStep, next, s', n);
    SameCheckersTransitive(s, next, s');
    forall u | u in Checkers(s)
      ensures PcOf(s', u) == Checking(handle.value, s.sh.gen) && handle.value !in s'.sh.blocks
    {
      assert HoldsCurrent(s, s.pcs[u].ctx, s.pcs[u].gen);
    }
  }

  /** Without that bargain RgaInit can read a freed block: a close nobody was entitled to. */
  lemma UnmatchedCloseFreesUnderInit() returns (states: seq<State>, steps: seq<Step>)
    ensures IsRun(states, steps) && |states| == 3 && !Matched(states[1], steps[1])
    ensures PcOf(states[2], 0) == Checking(7, 1) && 7 !in states[2].sh.blocks
  {
    var open := OpenStep(0, true, OpenEnv(Some(7), Some(3), 0, 0, 0, 0));
    var s1 := State(Shared(Some(7), 1, 0, false, map[7 := 3], {3}, 1), map[0 := Checking(7, 1)], 1, 0, multiset{});
    assert OpenSection(Initial.sh, open.env) == s1.sh;
    assert Apply(Initial, open) == s1;
    assert Teardown(Release(s1.sh), 7).blocks == map[];
    var s2 := Apply(s1, CloseStep(1, Some(7)));
    states, steps := [Initial, s1, s2], [open, CloseStep(1, Some(7))];
  }
}
