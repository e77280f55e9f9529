/** Merging fences through one of two kernel interfaces, with a cache of the one that worked
    (core/rga_sync.cpp). */
module SyncMerge {

  datatype Uapi = Unknown | Modern | Legacy

  /** What an ioctl returns: a descriptor (ret >= 0) or a failure and its errno. */
  datatype Answer = Answer(ret: int, errno: int)

  const ENOTTY := 25

  predicate NoSuchCall(a: Answer) { a.ret < 0 && a.errno == ENOTTY }

  /** The kernel's two answers to one merge, whether or not both are asked for. */
  datatype Answers = Answers(modern: Answer, legacy: Answer)

  /** A kernel with exactly one interface refuses the other. The one it has may answer anything,
      ENOTTY included (the descriptor need not be a fence). */
  predicate Consistent(kernel: Uapi, a: Answers) {
    match kernel
    case Modern => NoSuchCall(a.legacy)
    case Legacy => NoSuchCall(a.modern)
    case Unknown => false
  }

  /** The merge with no cache: try the modern call, then the legacy one. */
  function Uncached(a: Answers): Answer { if NoSuchCall(a.modern) then a.legacy else a.modern }

  /** The merge as a thread that loaded `uapi` performs it. */
  function Cached(uapi: Uapi, a: Answers): Answer {
    if uapi != Legacy && !NoSuchCall(a.modern) then a.modern else a.legacy
  }

  /** The cache is harmless exactly when it does not skip a modern call that would have answered. */
  lemma CacheAgreesIff(uapi: Uapi, a: Answers)
    ensures Cached(uapi, a) == Uncached(a) <==> (uapi == Legacy ==> NoSuchCall(a.modern) || a.modern == a.legacy)
  {
  }

  /** The legacy call's answer counts exactly when the modern one fails with ENOTTY, errno 25. */
  lemma UncachedIs(a: Answers)
    ensures a.modern.ret < 0 && a.modern.errno == 25 ==> Uncached(a) == a.legacy
    ensures a.modern.ret >= 0 || a.modern.errno != 25 ==> Uncached(a) == a.modern
  {
  }

  type Tid = nat

  datatype Pc =
    | Idle
    | Asking(uapi: Uapi, a: Answers)                 // cache loaded, modern call next
    | AskingLegacy(uapi: Uapi, a: Answers)           // legacy call next
    | Storing(found: Uapi, result: Answer, a: Answers)  // about to publish what worked
    | Done(result: Answer, a: Answers)

  datatype State = State(kernel: Uapi, cache: Uapi, threads: map<Tid, Pc>)

  datatype Label = Load(t: Tid, a: Answers) | AskModern(t: Tid) | AskLegacy(t: Tid) | Store(t: Tid) | Forget(t: Tid)

  predicate Enabled(st: State, l: Label) {
    && l.t in st.threads
    && match l
       case Load(t, a) => st.threads[t].Idle? && Consistent(st.kernel, a)
       case AskModern(t) => st.threads[t].Asking?
       case AskLegacy(t) => st.threads[t].AskingLegacy?
       case Store(t) => st.threads[t].Storing?
       case Forget(t) => st.threads[t].Done?
  }

  /** Return `result`, first storing `found` when the call worked and nothing was cached. */
  function Conclude(uapi: Uapi, found: Uapi, result: Answer, a: Answers): Pc {
    if result.ret >= 0 && uapi == Unknown then Storing(found, result, a) else Done(result, a)
  }

  function Apply(st: State, l: Label): State
    requires Enabled(st, l)
  {
    match l
    case Load(t, a) =>
      st.(threads := st.threads[t := if st.cache == Legacy then AskingLegacy(st.cache, a) else Asking(st.cache, a)])
    case AskModern(t) =>
      var Asking(uapi, a) := st.threads[t];
      st.(threads := st.threads[t :=
        if NoSuchCall(a.modern) then AskingLegacy(uapi, a) else Conclude(uapi, Modern, a.modern, a)])
    case AskLegacy(t) =>
      var AskingLegacy(uapi, a) := st.threads[t];
      st.(threads := st.threads[t := Conclude(uapi, Legacy, a.legacy, a)])
    case Store(t) =>
      var Storing(found, result, a) := st.threads[t];
      st.(cache := found, threads := st.threads[t := Done(result, a)])
    case Forget(t) => st.(threads := st.threads[t := Idle])
  }

  predicate Right(kernel: Uapi, uapi: Uapi) { uapi == Unknown || uapi == kernel }

  predicate PcOk(kernel: Uapi, pc: Pc) {
    match pc
    case Idle => true
    case Asking(uapi, a) => Consistent(kernel, a) && Right(kernel, uapi) && uapi != Legacy
    case AskingLegacy(uapi, a) =>
      Consistent(kernel, a) && Right(kernel, uapi) && (NoSuchCall(a.modern) || uapi == Legacy)
    case Storing(found, result, a) => found == kernel && result == Uncached(a)
    case Done(result, a) => result == Uncached(a)
  }

  predicate Inv(st: State) {
    Right(st.kernel, st.cache) && forall t | t in st.threads :: PcOk(st.kernel, st.threads[t])
  }

  predicate Initial(st: State) {
    st.kernel != Unknown && st.cache == Unknown && forall t | t in st.threads :: st.threads[t].Idle?
  }

  /** A step keeps the invariant, and a cache once set. */
  lemma InvStep(st: State, l: Label)
    requires Inv(st) && Enabled(st, l)
    ensures Inv(Apply(st, l)) && Apply(st, l).kernel == st.kernel
    ensures st.cache != Unknown ==> Apply(st, l).cache == st.cache
  {
    assert PcOk(st.kernel, st.threads[l.t]);
    var after := Apply(st, l);
    assert PcOk(st.kernel, after.threads[l.t]);
  }

  /** A merge that works while nothing is cached goes on to cache the interface that worked; any other
      caches nothing. */
  lemma WhatWorksIsStored(st: State, l: Label)
    requires Inv(st) && Enabled(st, l) && (l.AskModern? || l.AskLegacy?)
    ensures var pc, pc' := st.threads[l.t], Apply(st, l).threads[l.t];
            var tried := if l.AskModern? then pc.a.modern else pc.a.legacy;
            && (tried.ret >= 0 && pc.uapi == Unknown ==>
                  pc' == Storing(if l.AskModern? then Modern else Legacy, tried, pc.a))
            && (tried.ret >= 0 && pc.uapi != Unknown ==> pc' == Done(tried, pc.a))
            && (tried.ret < 0 && (l.AskLegacy? || tried.errno != 25) ==> pc' == Done(tried, pc.a))
            && (tried.ret < 0 && l.AskModern? && tried.errno == 25 ==> pc' == AskingLegacy(pc.uapi, pc.a))
  {
  }

  /** A thread that loads the cache asks the modern interface first unless the legacy one is cached,
      and a store sets it. */
  lemma LoadAndStore(st: State, l: Label)
    requires Enabled(st, l) && (l.Load? || l.Store?)
    ensures l.Load? && st.cache == Legacy ==> Apply(st, l).threads[l.t] == AskingLegacy(st.cache, l.a)
    ensures l.Load? && st.cache != Legacy ==> Apply(st, l).threads[l.t] == Asking(st.cache, l.a)
    ensures l.Store? ==> Apply(st, l).cache == st.threads[l.t].found
  {
  }

  ghost predicate IsRun(states: seq<State>, steps: seq<Label>) {
    && |states| == |steps| + 1
    && forall i {:trigger steps[i]} | 0 <= i < |steps| ::
         Enabled(states[i], steps[i]) && states[i + 1] == Apply(states[i], steps[i])
  }

  lemma {:induction false} RunKeepsInv(states: seq<State>, steps: seq<Label>, i: nat)
    requires IsRun(states, steps) && Initial(states[0]) && i <= |steps|
    ensures Inv(states[i]) && states[i].kernel == states[0].kernel
  {
    if i > 0 {
      RunKeepsInv(states, steps, i - 1);
      assert Enabled(states[i - 1], steps[i - 1]);
      InvStep(states[i - 1], steps[i - 1]);
    }
  }

  lemma {:induction false} CacheNeverChangesOnceSet(states: seq<State>, steps: seq<Label>, i: nat, j: nat)
    requires IsRun(states, steps) && Initial(states[0]) && i <= j <= |steps|
    ensures states[i].cache != Unknown ==> states[j].cache == states[i].cache
  {
    if i < j {
      CacheNeverChangesOnceSet(states, steps, i, j - 1);
      RunKeepsInv(states, steps, j - 1);
      assert Enabled(states[j - 1], steps[j - 1]);
      InvStep(states[j - 1], steps[j - 1]);
    }
  }

  /** In every interleaving the cache is unknown or right, and each finished merge returned exactly
      what trying the modern call and then the legacy one would have returned. */
  lemma MergeEqualsUncached(states: seq<State>, steps: seq<Label>, i: nat, t: Tid)
    requires IsRun(states, steps) && Initial(states[0]) && i <= |steps|
    ensures Right(states[0].kernel, states[i].cache)
    ensures t in states[i].threads && states[i].threads[t].Done? ==>
              states[i].threads[t].result == Uncached(states[i].threads[t].a)
  {
    RunKeepsInv(states, steps, i);
    if t in states[i].threads {
      assert PcOk(states[i].kernel, states[i].threads[t]);
    }
  }

  /** g_uapi_version and rga_sync_merge as one thread runs it. */
  class Cache {
    var version: Uapi

    constructor ()
      ensures version == Unknown
    {
      version := Unknown;
    }

    method Merge(a: Answers) returns (result: Answer)
      modifies this
      ensures result == Cached(old(version), a)
      ensures forall kernel | Consistent(kernel, a) && Right(kernel, old(version)) ::
                result == Uncached(a) && Right(kernel, version)
      ensures version == if old(version) != Unknown || result.ret < 0 then old(version)
                         else if NoSuchCall(a.modern) then Legacy else Modern
    {
      var uapi := version;
      if uapi == Modern || uapi == Unknown {
        result := a.modern;
        if result.ret >= 0 || result.errno != ENOTTY {
          if result.ret >= 0 && uapi == Unknown {
            version := Modern;
          }
          return;
        }
      }
      result := a.legacy;
      if result.ret >= 0 && uapi == Unknown {
        version := Legacy;
      }
    }
  }
}
