/** The lazily initialised im2d session (im2d_api/src/im2d_context.cpp): a double check under a
    read-write lock around a device setup that can fail at every call into the kernel. */
module Session {
  import opened Common
  import V = Versions

  datatype Kind = Unknown | Rga1 | Rga2 | MultiRga

  /** The hardware capability table, as the lookup left it. */
  datatype Info = Unset | Partial(id: nat) | Complete(id: nat)

  datatype Session = Session(fd: int, driver: V.Version, cores: seq<V.Version>, kind: Kind,
                             closeFence: bool, info: Info)

  /** The session and the device descriptors the library holds open. */
  datatype Device = Device(s: Session, open: set<int>)

  /** The numbers read from a legacy version string, in order; all three unless it is malformed. */
  type Scan = seq<nat>

  /** A field that is not read keeps what it held. */
  function Scanned(held: V.Version, f: Scan): V.Version {
    V.Version(if |f| > 0 then f[0] else held.major, if |f| > 1 then f[1] else held.minor,
              if |f| > 2 then f[2] else held.revision)
  }

  /** What the kernel and the capability lookup answer during one attempt. */
  datatype Answers = Answers(fd: int, driver: Option<V.Version>, cores: Option<seq<V.Version>>,
                             rga2: Option<Scan>, rga1: Option<Scan>, infoFound: bool, info: nat)

  /** Where a thread stands inside the write-locked section. */
  datatype Stage =
    | Check | Opening | AskDriver(fd: int) | AskCores(fd: int) | AskLegacy(fd: int)
    | Publishing(fd: int) | Informing | Returned | Refused

  const ZERO := V.Version(0, 0, 0)
  const CLOSES_FENCE := V.Version(1, 3, 0)

  const Loaded := Device(Session(-1, ZERO, [], Unknown, false, Unset), {})

  function Closed(d: Device, fd: int): Device { d.(open := d.open - {fd}) }

  function ExitDevice(d: Device): Device {
    if d.s.fd < 0 then d
    else Closed(d, d.s.fd).(s := d.s.(fd := -1, kind := Unknown, closeFence := false))
  }

  function FirstCore(cores: seq<V.Version>): seq<V.Version> { if cores == [] then [ZERO] else cores[..1] }

  /** One step of the write-locked section. */
  function Advance(d: Device, p: Stage, a: Answers): (Device, Stage) {
    match p
    case Check => (d, if d.s.fd > 0 then Returned else Opening)
    case Opening =>
      if a.fd < 0 then (d, Refused) else (d.(open := d.open + {a.fd}), AskDriver(a.fd))
    case AskDriver(fd) =>
      (match a.driver
       case Some(v) => (d.(s := d.s.(driver := v)), AskCores(fd))
       case None => (d.(s := d.s.(cores := FirstCore(d.s.cores))), AskLegacy(fd)))
    case AskCores(fd) =>
      (match a.cores
       case Some(cores) => (d.(s := d.s.(cores := cores, kind := MultiRga)), Publishing(fd))
       case None => (Closed(d, fd), Refused))
    case AskLegacy(fd) =>
      (match if a.rga2.Some? then a.rga2 else a.rga1
       case Some(f) =>
         var v := Scanned(FirstCore(d.s.cores)[0], f);
         (d.(s := d.s.(cores := [v], kind := if v.major < 2 then Rga1 else Rga2)), Publishing(fd))
       case None => (Closed(d, fd), Refused))
    case Publishing(fd) =>
      if V.CheckDriver(d.s.driver) == ERROR_VERSION then (Closed(d, fd), Refused)
      else
        var feature := d.s.closeFence || V.AtMost(CLOSES_FENCE, d.s.driver);
        (d.(s := d.s.(closeFence := feature, fd := fd)), Informing)
    case Informing =>
      if a.infoFound then (d.(s := d.s.(info := Complete(a.info))), Returned)
      else (ExitDevice(d.(s := d.s.(info := Partial(a.info)))), Refused)
    case Returned => (d, p)
    case Refused => (d, p)
  }

  function Remaining(p: Stage): nat {
    match p
    case Check => 6 case Opening => 5 case AskDriver(_) => 4 case AskCores(_) => 3 case AskLegacy(_) => 3
    case Publishing(_) => 2 case Informing => 1 case Returned => 0 case Refused => 0
  }

  /** The section run to its end without interference. */
  function Finish(d: Device, p: Stage, a: Answers): (Device, Stage)
    decreases Remaining(p)
  {
    if p.Returned? || p.Refused? then (d, p)
    else var next := Advance(d, p, a); Finish(next.0, next.1, a)
  }

  // ---- What each stage guarantees ----

  predicate FeatureRight(s: Session) { s.closeFence <==> V.AtMost(CLOSES_FENCE, s.driver) }

  predicate Ready(d: Device) {
    d.s.fd > 0 && d.open == {d.s.fd} && d.s.kind != Unknown && d.s.info.Complete? && FeatureRight(d.s)
  }

  predicate Untouched(s: Session) { s.fd == -1 && !s.closeFence }

  predicate Blank(d: Device) { Untouched(d.s) && d.s.kind == Unknown && d.open == {} }

  predicate Settled(d: Device) { Ready(d) || Blank(d) }

  predicate StageOk(d: Device, p: Stage) {
    match p
    case Check => Settled(d)
    case Opening => Blank(d)
    case AskDriver(fd) => fd > 0 && d.open == {fd} && Untouched(d.s) && d.s.kind == Unknown
    case AskCores(fd) => fd > 0 && d.open == {fd} && Untouched(d.s) && d.s.kind == Unknown
    case AskLegacy(fd) => fd > 0 && d.open == {fd} && Untouched(d.s) && d.s.kind == Unknown
    case Publishing(fd) => fd > 0 && d.open == {fd} && Untouched(d.s) && d.s.kind != Unknown
    case Informing => d.s.fd > 0 && d.open == {d.s.fd} && d.s.kind != Unknown && FeatureRight(d.s)
    case Returned => Ready(d)
    case Refused => Blank(d)
  }

  /** Every step keeps what its stage promises, given that `open` never yields descriptor 0. That
      the publishing step cannot be refused rests on the shipped version table. */
  lemma AdvanceKeepsStage(d: Device, p: Stage, a: Answers)
    requires StageOk(d, p) && a.fd != 0
    ensures var next := Advance(d, p, a); StageOk(next.0, next.1)
  {
    if p.Publishing? {
      V.ShippedTables(d.s.driver);
    }
  }

  lemma {:induction false} FinishKeepsStage(d: Device, p: Stage, a: Answers)
    requires StageOk(d, p) && a.fd != 0
    ensures var end := Finish(d, p, a); StageOk(end.0, end.1) && (end.1.Returned? || end.1.Refused?)
    decreases Remaining(p)
  {
    if !p.Returned? && !p.Refused? {
      AdvanceKeepsStage(d, p, a);
      var next := Advance(d, p, a);
      FinishKeepsStage(next.0, next.1, a);
    }
  }

  /** Did every call this attempt needs succeed? */
  predicate AllAnswered(a: Answers) {
    && a.fd >= 0 && a.infoFound
    && (if a.driver.Some? then a.cores.Some? else a.rga2.Some? || a.rga1.Some?)
  }

  /** An attempt succeeds exactly when every call it needs does, and the session then holds its
      answers: a driver that reports its version is a multi-core one; a legacy driver has the one core
      it reported, as RGA2 or else as RGA1, over what the session held of it, and its type is RGA1
      exactly below version 2. */
  lemma AttemptSucceedsIff(d: Device, a: Answers)
    requires d.s.fd <= 0
    ensures var end := Finish(d, Check, a);
            && (end.1 == Returned <==>
                  && a.fd >= 0 && a.infoFound
                  && (if a.driver.Some? then a.cores.Some? else a.rga2.Some? || a.rga1.Some?))
            && (end.1 == Returned <==> AllAnswered(a)) && (end.1 == Returned || end.1 == Refused)
            && (end.1 == Returned ==>
                  && end.0.s.fd == a.fd && end.0.s.info == Complete(a.info)
                  && end.0.s.driver == (if a.driver.Some? then a.driver.value else d.s.driver)
                  && (a.driver.Some? ==> end.0.s.cores == a.cores.value && end.0.s.kind == MultiRga)
                  && (a.driver.None? ==>
                        var held := if d.s.cores == [] then V.Version(0, 0, 0) else d.s.cores[0];
                        var f := if a.rga2.Some? then a.rga2.value else a.rga1.value;
                        && |end.0.s.cores| == 1
                        && end.0.s.cores[0].major == (if |f| > 0 then f[0] else held.major)
                        && end.0.s.cores[0].minor == (if |f| > 1 then f[1] else held.minor)
                        && end.0.s.cores[0].revision == (if |f| > 2 then f[2] else held.revision)
                        && end.0.s.kind == if end.0.s.cores[0].major < 2 then Rga1 else Rga2))
  {
    FinishOpening(d, a);
    if a.fd >= 0 {
      var asking := d.(open := d.open + {a.fd});
      var asked := Advance(asking, AskDriver(a.fd), a);
      var ready := Advance(asked.0, asked.1, a);
      assert Finish(asking, AskDriver(a.fd), a) == Finish(asked.0, asked.1, a) == Finish(ready.0, ready.1, a);
      if ready.1.Publishing? {
        FinishPublishing(ready.0, a.fd, a);
      }
    }
  }

  lemma FinishOpening(d: Device, a: Answers)
    requires d.s.fd <= 0
    ensures Finish(d, Check, a) == Finish(d, Opening, a)
    ensures Finish(d, Opening, a) ==
              if a.fd < 0 then (d, Refused) else Finish(d.(open := d.open + {a.fd}), AskDriver(a.fd), a)
  {
    assert Advance(d, Check, a) == (d, Opening);
  }

  lemma FinishPublishing(d: Device, fd: int, a: Answers)
    ensures var end := Finish(d, Publishing(fd), a);
            && (end.1 == Returned <==> a.infoFound)
            && (end.1 == Returned ==>
                  && end.0.open == d.open
                  && end.0.s == d.s.(fd := fd, info := Complete(a.info),
                                     closeFence := d.s.closeFence || V.AtMost(CLOSES_FENCE, d.s.driver)))
  {
    V.ShippedTables(d.s.driver);
    var next := Advance(d, Publishing(fd), a);
    var last := Advance(next.0, Informing, a);
    assert Finish(d, Publishing(fd), a) == Finish(next.0, Informing, a) == Finish(last.0, last.1, a);
  }

  /** Descriptor 0 is accepted by the setup and then not recognised: a successful attempt leaves a
      settled session exactly when its descriptor is positive. */
  lemma ZeroDescriptorIsNotRecognised(d: Device, a: Answers)
    requires Blank(d) && AllAnswered(a)
    ensures Settled(Finish(d, Check, a).0) <==> a.fd > 0
  {
    AttemptSucceedsIff(d, a);
    if a.fd > 0 {
      FinishKeepsStage(d, Check, a);
    }
  }

  /** A session that got descriptor 0 is set up again by the next call, and 0 stays open. */
  lemma ZeroDescriptorLeaks()
    ensures exists a, b: Answers ::
              var first := Finish(Loaded, Check, a);
              var second := Finish(first.0, Check, b);
              first.1 == Returned && second.1 == Returned && second.0.s.fd == 3 && second.0.open == {0, 3}
  {
    var a := Answers(0, Some(CLOSES_FENCE), Some([ZERO]), None, None, true, 0);
    var b := a.(fd := 3);
    var first := Finish(Loaded, Check, a);
    AttemptSucceedsIff(Loaded, a);
    AttemptOpens(Loaded, a);
    AttemptSucceedsIff(first.0, b);
    AttemptOpens(first.0, b);
    assert first.0.open == {0};
    assert Finish(first.0, Check, b).0.open == {0, 3};
  }

  lemma AttemptOpens(d: Device, a: Answers)
    requires d.s.fd <= 0 && AllAnswered(a)
    ensures Finish(d, Check, a).0.open == d.open + {a.fd}
    ensures Finish(d, Check, a).0.s.closeFence ==
              (d.s.closeFence || V.AtMost(CLOSES_FENCE, if a.driver.Some? then a.driver.value else d.s.driver))
    ensures var v := if a.driver.Some? then a.driver.value else d.s.driver;
            Finish(d, Check, a).0.s.closeFence <==> d.s.closeFence || v.major > 1 || (v.major == 1 && v.minor >= 3)
  {
    FinishOpening(d, a);
    var asking := d.(open := d.open + {a.fd});
    var asked := Advance(asking, AskDriver(a.fd), a);
    var ready := Advance(asked.0, asked.1, a);
    assert Finish(asking, AskDriver(a.fd), a) == Finish(asked.0, asked.1, a) == Finish(ready.0, ready.1, a);
    FinishPublishing(ready.0, a.fd, a);
  }

  /** Is the fence feature granted on the strength of a version this attempt's driver reported? */
  predicate FeatureReported(s: Session, a: Answers) {
    s.closeFence <==> a.driver.Some? && V.AtMost(CLOSES_FENCE, a.driver.value)
  }

  /** A legacy driver reports no version and is judged by the one an earlier failed attempt left,
      so the feature is right exactly when the driver answered or nothing recent was left. */
  lemma LegacyFeatureIsStale(d: Device, a: Answers)
    requires Blank(d) && AllAnswered(a)
    ensures FeatureReported(Finish(d, Check, a).0.s, a) <==>
              a.driver.Some? || !V.AtMost(CLOSES_FENCE, d.s.driver)
  {
    AttemptOpens(d, a);
  }

  /** ... and a failed attempt does leave one. */
  lemma StaleVersionExample()
    ensures exists a, b: Answers ::
              var first := Finish(Loaded, Check, a);
              var second := Finish(first.0, Check, b);
              first.1 == Refused && second.1 == Returned && !FeatureReported(second.0.s, b)
  {
    var a := Answers(3, Some(CLOSES_FENCE), None, None, None, true, 0);
    var b := Answers(3, None, None, Some([0, 0, 0]), None, true, 0);
    var asking := Loaded.(open := Loaded.open + {3});
    var asked := Loaded.s.(driver := CLOSES_FENCE);
    FinishOpening(Loaded, a);
    var left := Device(asked, {});
    assert Advance(asking, AskDriver(3), a) == (asking.(s := asked), AskCores(3));
    assert Advance(asking.(s := asked), AskCores(3), a) == (left, Refused);
    assert Finish(asking.(s := asked), AskCores(3), a) == Finish(left, Refused, a) == (left, Refused);
    AttemptSucceedsIff(left, b);
    LegacyFeatureIsStale(left, b);
  }

  // ---- All interleavings ----

  type Tid = nat

  datatype Pc =
    | Idle
    | Reading                                  // holds the read lock
    | Between                                  // saw no session, holds no lock
    | Writing(stage: Stage)                    // holds the write lock
    | Holding(epoch: nat, seen: Session)       // was handed the session as it stood then

  /** `made` counts the successful initialisations since the library was last unloaded, `epoch`
      the unloadings. */
  datatype State = State(d: Device, made: nat, epoch: nat, threads: map<Tid, Pc>)

  datatype Label =
    | Enter(t: Tid) | Look(t: Tid) | Lock(t: Tid) | Work(t: Tid, a: Answers) | Leave(t: Tid)
    | Forget(t: Tid) | Unload

  predicate NoWriter(st: State) { forall t | t in st.threads :: !st.threads[t].Writing? }
  predicate NoReader(st: State) { forall t | t in st.threads :: !st.threads[t].Reading? }

  /** No thread is inside get_rga_session. */
  predicate Quiet(st: State) { forall t | t in st.threads :: st.threads[t].Idle? || st.threads[t].Holding? }

  predicate Enabled(st: State, l: Label) {
    match l
    case Enter(t) => t in st.threads && st.threads[t].Idle? && NoWriter(st)
    case Look(t) => t in st.threads && st.threads[t].Reading?
    case Lock(t) => t in st.threads && st.threads[t].Between? && NoWriter(st) && NoReader(st)
    case Work(t, a) => t in st.threads && st.threads[t].Writing? && a.fd != 0
    case Leave(t) => t in st.threads && st.threads[t].Writing? && Remaining(st.threads[t].stage) == 0
    case Forget(t) => t in st.threads && st.threads[t].Holding?
    case Unload => Quiet(st)
  }

  function Apply(st: State, l: Label): State
    requires Enabled(st, l)
  {
    match l
    case Enter(t) => st.(threads := st.threads[t := Reading])
    case Look(t) =>
      st.(threads := st.threads[t := if st.d.s.fd > 0 then Holding(st.epoch, st.d.s) else Between])
    case Lock(t) => st.(threads := st.threads[t := Writing(Check)])
    case Work(t, a) =>
      var p := st.threads[t].stage;
      var next := Advance(st.d, p, a);
      st.(d := next.0, threads := st.threads[t := Writing(next.1)],
          made := if p.Informing? && next.1.Returned? then st.made + 1 else st.made)
    case Leave(t) =>
      st.(threads := st.threads[t := if st.threads[t].stage.Returned? then Holding(st.epoch, st.d.s) else Idle])
    case Forget(t) => st.(threads := st.threads[t := Idle])
    case Unload => st.(d := ExitDevice(st.d.(s := st.d.s.(info := Unset))), made := 0, epoch := st.epoch + 1)
  }

  /** Unloading, possible exactly while no thread is inside, closes what is open and starts over. */
  lemma UnloadOutcome(st: State)
    ensures Enabled(st, Unload) <==> forall t | t in st.threads :: st.threads[t] == Idle || st.threads[t].Holding?
    ensures Enabled(st, Unload) ==>
              var st' := Apply(st, Unload);
              && st'.made == 0 && st'.epoch > st.epoch && st'.d.s.info == Unset && st'.threads == st.threads
              && (st.d.s.fd >= 0 ==> st'.d.s.fd == -1 && st'.d.open == st.d.open - {st.d.s.fd})
              && (st.d.s.fd < 0 ==> st'.d.s.fd == st.d.s.fd && st'.d.open == st.d.open)
  {
  }

  /** The library starts with nothing open and every thread outside. */
  lemma StartsBlank(st: State)
    ensures Initial(st) <==>
              && st.d.s.fd == -1 && st.d.open == {} && st.d == Loaded && st.made == 0 && st.epoch == 0
              && forall t | t in st.threads :: st.threads[t] == Idle
  {
  }

  /** A reader is handed a published session without taking the write lock, and otherwise goes for
      that lock. A writer is handed the session it set up or found, and otherwise nothing. */
  lemma HandingOut(st: State, l: Label)
    requires Enabled(st, l) && (l.Look? || l.Leave?)
    ensures var pc := Apply(st, l).threads[l.t];
            && Apply(st, l).d == st.d
            && (l.Look? ==> pc == if st.d.s.fd > 0 then Holding(st.epoch, st.d.s) else Between)
            && (l.Leave? ==> pc == if st.threads[l.t].stage == Returned then Holding(st.epoch, st.d.s) else Idle)
  {
  }

  /** The second check finds a session set up in the meantime and leaves it alone. */
  lemma SecondCheck(st: State, t: Tid, a: Answers)
    requires Enabled(st, Work(t, a)) && st.threads[t] == Writing(Check)
    ensures var st' := Apply(st, Work(t, a));
            st'.d == st.d && st'.threads[t] == Writing(if st.d.s.fd > 0 then Returned else Opening)
  {
  }

  predicate OneWriter(st: State) {
    forall t, u | t in st.threads && u in st.threads && st.threads[t].Writing? && u != t ::
      !st.threads[u].Writing? && !st.threads[u].Reading?
  }

  predicate DeviceOk(st: State) {
    && (NoWriter(st) ==> Settled(st.d) && st.made == if st.d.s.fd > 0 then 1 else 0)
    && forall t | t in st.threads && st.threads[t].Writing? ::
         var p := st.threads[t].stage;
         StageOk(st.d, p) && st.made == if st.d.s.fd > 0 && !p.Informing? then 1 else 0
  }

  predicate HandedOut(st: State, pc: Pc) {
    pc.Holding? ==> pc.epoch <= st.epoch && (pc.epoch == st.epoch ==> pc.seen == st.d.s && Ready(st.d) && st.made == 1)
  }

  predicate HoldersOk(st: State) { forall t | t in st.threads :: HandedOut(st, st.threads[t]) }

  predicate Inv(st: State) { OneWriter(st) && DeviceOk(st) && HoldersOk(st) }

  predicate Initial(st: State) {
    st.d == Loaded && st.made == 0 && st.epoch == 0 && forall t | t in st.threads :: st.threads[t].Idle?
  }

  lemma InvStep(st: State, l: Label)
    requires Inv(st) && Enabled(st, l)
    ensures Inv(Apply(st, l))
  {
    match l
    case Work(t, a) =>
      WorkStep(st, t, a);
    case Leave(t) =>
      assert forall u | u in st.threads && u != t :: !st.threads[u].Writing?;
    case Lock(t) =>
    case Enter(t) =>
      assert !NoWriter(Apply(st, l)) ==> !NoWriter(st);
    case Look(t) =>
      ReadersSeeSettled(st, t);
    case Forget(t) =>
      forall u | u in st.threads && st.threads[u].Writing? ensures Apply(st, l).threads[u].Writing? {
      }
    case Unload =>
      assert NoWriter(st);
  }

  lemma WorkStep(st: State, t: Tid, a: Answers)
    requires Inv(st) && Enabled(st, Work(t, a))
    ensures Inv(Apply(st, Work(t, a)))
  {
    var after := Apply(st, Work(t, a));
    var p := st.threads[t].stage;
    AdvanceKeepsStage(st.d, p, a);
    assert after.threads[t].Writing?;
    if Ready(st.d) && st.made == 1 {
      assert after.d == st.d;
    }
    forall u | u in after.threads ensures HandedOut(after, after.threads[u]) {
      if u != t {
        assert HandedOut(st, st.threads[u]);
      }
    }
  }

  /** Under the read lock the session is never half built. */
  lemma ReadersSeeSettled(st: State, t: Tid)
    requires Inv(st) && t in st.threads && st.threads[t].Reading?
    ensures NoWriter(st) && Settled(st.d)
  {
  }

  ghost predicate IsRun(states: seq<State>, steps: seq<Label>) {
    && |states| == |steps| + 1
    && forall i {:trigger steps[i]} | 0 <= i < |steps| ::
         Enabled(states[i], steps[i]) && states[i + 1] == Apply(states[i], steps[i])
  }

  lemma {:induction false} RunKeepsInv(states: seq<State>, steps: seq<Label>, i: nat)
    requires IsRun(states, steps) && Initial(states[0]) && i <= |steps|
    ensures Inv(states[i])
  {
    if i > 0 {
      RunKeepsInv(states, steps, i - 1);
      assert Enabled(states[i - 1], steps[i - 1]);
      InvStep(states[i - 1], steps[i - 1]);
    }
  }

  /** In every run: initialisation succeeds at most once between unloadings; whoever was handed the
      session since the last unloading still sees it unchanged and fully initialised, with its one
      descriptor open; and while nobody initialises, no descriptor is open without a session. */
  lemma SessionIsInitialisedOnce(states: seq<State>, steps: seq<Label>, i: nat, t: Tid)
    requires IsRun(states, steps) && Initial(states[0]) && i <= |steps|
    ensures states[i].made <= 1
    ensures NoWriter(states[i]) && states[i].d.s.fd <= 0 ==> states[i].d.open == {}
    ensures t in states[i].threads && states[i].threads[t].Holding?
            && states[i].threads[t].epoch == states[i].epoch ==>
              states[i].threads[t].seen == states[i].d.s && Ready(states[i].d)
  {
    RunKeepsInv(states, steps, i);
    if t in states[i].threads {
      assert HandedOut(states[i], states[i].threads[t]);
    }
    if !NoWriter(states[i]) {
      var w :| w in states[i].threads && states[i].threads[w].Writing?;
    }
  }

  // ---- The code itself ----

  /** g_rga_session and the file functions that fill it in. */
  class Global {
    var fd: int
    var driver: V.Version
    var cores: seq<V.Version>
    var kind: Kind
    var closeFence: bool
    var info: Info
    var open: set<int>

    ghost function Value(): Device
      reads this
    {
      Device(Session(fd, driver, cores, kind, closeFence, info), open)
    }

    /** librga_init */
    constructor ()
      ensures Value() == Loaded
    {
      fd, driver, cores, kind, closeFence, info, open := -1, ZERO, [], Unknown, false, Unset, {};
    }

    /** The version queries of rga_device_init; a failure closes the device. */
    method Probe(dev: int, a: Answers) returns (ok: bool)
      modifies this
      ensures Finish(old(Value()), AskDriver(dev), a) ==
                if ok then Finish(Value(), Publishing(dev), a) else (Value(), Refused)
      ensures ok <==> if a.driver.Some? then a.cores.Some? else a.rga2.Some? || a.rga1.Some?
      ensures open == if ok then old(open) else old(open) - {dev}
      ensures ok && a.driver.Some? ==> driver == a.driver.value && cores == a.cores.value && kind == MultiRga
      ensures ok && a.driver.None? ==>
                var f := if a.rga2.Some? then a.rga2.value else a.rga1.value;
                && driver == old(driver) && |cores| == 1 && (|f| > 0 ==> cores[0].major == f[0])
                && (|f| > 1 ==> cores[0].minor == f[1]) && (|f| > 2 ==> cores[0].revision == f[2])
                && kind == if cores[0].major < 2 then Rga1 else Rga2
    {
      if a.driver.Some? {
        driver := a.driver.value;
        ghost var asked := Value();
        assert Advance(old(Value()), AskDriver(dev), a) == (asked, AskCores(dev));
        if a.cores.None? {
          open := open - {dev};
          assert Advance(asked, AskCores(dev), a) == (Value(), Refused);
          assert Finish(asked, AskCores(dev), a) == Finish(Value(), Refused, a);
          return false;
        }
        cores := a.cores.value;
        kind := MultiRga;
        assert Advance(asked, AskCores(dev), a) == (Value(), Publishing(dev));
      } else {
        cores := FirstCore(cores);
        ghost var asked := Value();
        assert Advance(old(Value()), AskDriver(dev), a) == (asked, AskLegacy(dev));
        var v := a.rga2;
        if v.None? {
          v := a.rga1;
          if v.None? {
            open := open - {dev};
            assert Advance(asked, AskLegacy(dev), a) == (Value(), Refused);
            assert Finish(asked, AskLegacy(dev), a) == Finish(Value(), Refused, a);
            return false;
          }
        }
        cores := [Scanned(cores[0], v.value)];
        kind := if cores[0].major < 2 then Rga1 else Rga2;
        assert Advance(asked, AskLegacy(dev), a) == (Value(), Publishing(dev));
      }
      ok := true;
    }

    /** rga_device_init */
    method DeviceInit(a: Answers) returns (status: int)
      modifies this
      ensures status == SUCCESS ==> Finish(old(Value()), Opening, a) == Finish(Value(), Informing, a)
      ensures status != SUCCESS ==> Finish(old(Value()), Opening, a) == (Value(), Refused)
    {
      if a.fd < 0 {
        return FAILED;
      }
      open := open + {a.fd};
      assert Advance(old(Value()), Opening, a) == (Value(), AskDriver(a.fd));
      var ok := Probe(a.fd, a);
      if !ok {
        return FAILED;
      }
      ghost var probed := Value();
      var ret := V.CheckDriver(driver);
      if ret == ERROR_VERSION {
        // The code would close the device and fail, but the shipped table refuses no driver.
        V.ShippedTables(driver);
        assert false;
      }
      if V.Compare(driver, CLOSES_FENCE) >= 0 {
        closeFence := true;
      }
      fd := a.fd;
      assert Advance(probed, Publishing(a.fd), a) == (Value(), Informing);
      status := SUCCESS;
    }

    /** rga_device_exit */
    method DeviceExit()
      modifies this
      ensures Value() == ExitDevice(old(Value()))
      ensures old(fd) < 0 ==> unchanged(this)
      ensures old(fd) >= 0 ==> fd == -1 && kind == Unknown && !closeFence && open == old(open) - {old(fd)}
    {
      if fd < 0 {
        return;
      }
      open := open - {fd};
      fd := -1;
      kind := Unknown;
      closeFence := false;
    }

    /** rga_session_init */
    method SessionInit(a: Answers) returns (status: int)
      modifies this
      ensures Finish(old(Value()), Opening, a) == (Value(), if status == SUCCESS then Returned else Refused)
    {
      status := DeviceInit(a);
      if status != SUCCESS {
        return;
      }
      ghost var before := Value();
      if !a.infoFound {
        info := Partial(a.info);
        DeviceExit();
        assert Advance(before, Informing, a) == (Value(), Refused);
        return NOT_SUPPORTED;
      }
      info := Complete(a.info);
      assert Advance(before, Informing, a) == (Value(), Returned);
    }

    /** The write-locked section of get_rga_session. */
    method GetSession(a: Answers) returns (ok: bool)
      modifies this
      ensures Finish(old(Value()), Check, a) == (Value(), if ok then Returned else Refused)
      ensures old(Settled(Value())) && a.fd != 0 ==> if ok then Ready(Value()) else Blank(Value())
      ensures old(fd) > 0 ==> ok && Value() == old(Value())
      ensures old(fd) <= 0 ==>
                (ok <==> && a.fd >= 0 && a.infoFound
                         && (if a.driver.Some? then a.cores.Some? else a.rga2.Some? || a.rga1.Some?))
      ensures old(fd) <= 0 && ok ==> fd == a.fd && info == Complete(a.info)
      ensures old(fd) <= 0 && ok ==>
                kind == if a.driver.Some? then MultiRga else if |cores| == 1 && cores[0].major < 2 then Rga1 else Rga2
    {
      ghost var before := Value();
      if fd > 0 {
        ok := true;
        assert Advance(before, Check, a) == (Value(), Returned);
      } else {
        FinishOpening(before, a);
        AttemptSucceedsIff(before, a);
        var status := SessionInit(a);
        ok := status == SUCCESS;
      }
      if Settled(before) && a.fd != 0 {
        FinishKeepsStage(before, Check, a);
      }
    }

    /** librga_exit */
    method Unload()
      modifies this
      ensures Value() == ExitDevice(old(Value()).(s := old(Value()).s.(info := Unset)))
      ensures old(Settled(Value())) ==> Blank(Value())
    {
      info := Unset;
      DeviceExit();
    }
  }
}
