/** imrectangle and the array calls (im2d_api/src/im2d.cpp): frames, batches and fences. */
module Rectangles {
  import opened Common
  import opened Windows
  import opened Raster
  import Jobs

  // ---------------------------------------------------------------------------------
  // Geometry of one frame.

  /** The four fills of imrectangle: top, bottom, left, right. */
  function FrameRects(r: Rect, thickness: int): (f: seq<Rect>)
    ensures |f| == 4
  {
    var v := r.height - 2 * thickness;
    [Rect(r.x, r.y, r.width, thickness),
     Rect(r.x, r.y + (r.height - thickness), r.width, thickness),
     Rect(r.x, r.y + thickness, thickness, v),
     Rect(r.x + (r.width - thickness), r.y + thickness, thickness, v)]
  }

  predicate InFrame(r: Rect, thickness: int, x: int, y: int) {
    Inside(r, x, y) &&
    (x < r.x + thickness || x >= r.x + r.width - thickness || y < r.y + thickness || y >= r.y + r.height - thickness)
  }

  /** Some fill's window covers the pixel. */
  predicate Painted(b: Buffer, rects: seq<Rect>, x: int, y: int) {
    exists k :: 0 <= k < |rects| && Inside(Region(b, rects[k]), x, y)
  }

  predicate AllAccepted(b: Buffer, rects: seq<Rect>, limit: Resolution) {
    forall k | 0 <= k < |rects| :: Accepts(b, rects[k], limit)
  }

  /** A frame of positive thickness is admitted exactly when it is at least two pixels thick, leaves
      at least two rows between its horizontal bars, and all four bars lie inside the strides; one
      of thickness 0 exactly when its rectangle is empty and admitted as a fill. */
  lemma FrameAcceptedIff(b: Buffer, r: Rect, t: nat, limit: Resolution)
    ensures AllAccepted(b, FrameRects(r, t), limit) <==>
              if t == 0 then Empty(r) && Accepts(b, r, limit)
              else
                && b.format >= 0
                && 2 <= t <= limit.width && t <= limit.height && 2 <= r.width <= limit.width
                && 2 <= r.height - 2 * t <= limit.height
                && 0 <= r.x && 0 <= r.y && r.x + r.width <= b.wstride && r.y + r.height <= b.hstride
                && 0 <= r.x + r.width - t && r.x + t <= b.wstride
  {
    var f := FrameRects(r, t);
    assert AllAccepted(b, f, limit) <==>
           Accepts(b, f[0], limit) && Accepts(b, f[1], limit) && Accepts(b, f[2], limit) && Accepts(b, f[3], limit);
    AcceptsIff(b, f[0], limit);
    AcceptsIff(b, f[1], limit);
    AcceptsIff(b, f[2], limit);
    AcceptsIff(b, f[3], limit);
  }

  lemma PaintedFrame(b: Buffer, r: Rect, t: int, x: int, y: int)
    ensures var f := FrameRects(r, t);
            Painted(b, f, x, y) <==>
              || Inside(Region(b, f[0]), x, y) || Inside(Region(b, f[1]), x, y)
              || Inside(Region(b, f[2]), x, y) || Inside(Region(b, f[3]), x, y)
  {
  }

  /** An admitted frame paints its frame and nothing else exactly when it has a thickness and is no
      thicker than it is wide: a thicker one paints outside the rectangle, and one of thickness 0
      paints an image-sized window. */
  lemma FramePaintedExactly(b: Buffer, r: Rect, t: nat, limit: Resolution)
    requires AllAccepted(b, FrameRects(r, t), limit)
    ensures (forall x, y :: Painted(b, FrameRects(r, t), x, y) <==> InFrame(r, t, x, y)) <==> 0 < t <= r.width
  {
    FrameAcceptedIff(b, r, t, limit);
    var f := FrameRects(r, t);
    if 0 < t <= r.width {
      forall x, y ensures Painted(b, f, x, y) <==> InFrame(r, t, x, y) { PaintedFrame(b, r, t, x, y); }
    } else if t == 0 {
      AcceptsIff(b, r, limit);
      PaintedFrame(b, r, t, r.x, r.y);
      assert Painted(b, f, r.x, r.y) && !InFrame(r, t, r.x, r.y);
    } else {
      var x, y := r.x + r.width, r.y + t;
      PaintedFrame(b, r, t, x, y);
      assert Painted(b, f, x, y) && !InFrame(r, t, x, y);
    }
  }

  ghost predicate Overlap(a: Rect, b: Rect) {
    exists x, y :: Inside(a, x, y) && Inside(b, x, y)
  }

  ghost predicate PairwiseDisjoint(b: Buffer, rects: seq<Rect>) {
    forall i, j | 0 <= i < j < |rects| :: !Overlap(Region(b, rects[i]), Region(b, rects[j]))
  }

  /** The four fills of an admitted frame are disjoint exactly when both bars fit side by side. */
  lemma FrameDisjointIff(b: Buffer, r: Rect, t: nat, limit: Resolution)
    requires AllAccepted(b, FrameRects(r, t), limit)
    ensures PairwiseDisjoint(b, FrameRects(r, t)) <==> 0 < 2 * t <= r.width
    ensures 0 < 2 * t <= r.width ==>
              var f := FrameRects(r, t);
              && !Overlap(f[0], f[1]) && !Overlap(f[0], f[2]) && !Overlap(f[0], f[3])
              && !Overlap(f[1], f[2]) && !Overlap(f[1], f[3]) && !Overlap(f[2], f[3])
  {
    FrameAcceptedIff(b, r, t, limit);
    var f := FrameRects(r, t);
    if t == 0 {
      AcceptsIff(b, r, limit);
      assert Inside(Region(b, f[0]), r.x, r.y) && Inside(Region(b, f[1]), r.x, r.y);
      assert Overlap(Region(b, f[0]), Region(b, f[1]));
    } else if 2 * t > r.width {
      var x, y := if t <= r.width then r.x + r.width - t else r.x, r.y + t;
      assert Inside(Region(b, f[2]), x, y) && Inside(Region(b, f[3]), x, y);
      assert Overlap(Region(b, f[2]), Region(b, f[3]));
    }
  }

  const Square := Buffer(100, 100, 100, 100, 0)
  const Large := Resolution(4096, 4096)

  /** An admitted frame three pixels thick and two wide: it paints (9, 13), left of its rectangle,
      and its vertical bars overlap. */
  lemma ThickFrameExample() returns (r: Rect)
    ensures r == Rect(10, 10, 2, 20) && AllAccepted(Square, FrameRects(r, 3), Large)
    ensures Painted(Square, FrameRects(r, 3), 9, 13) && !Inside(r, 9, 13)
    ensures Overlap(FrameRects(r, 3)[2], FrameRects(r, 3)[3])
  {
    r := Rect(10, 10, 2, 20);
    var f := FrameRects(r, 3);
    FrameAcceptedIff(Square, r, 3, Large);
    PaintedFrame(Square, r, 3, 9, 13);
    assert Inside(f[2], 10, 13) && Inside(f[3], 10, 13);
  }

  /** A frame of thickness 0 around an admitted empty rectangle paints a window of the image's size. */
  lemma EmptyFramePaints(b: Buffer, r: Rect, limit: Resolution, x: int, y: int)
    requires Empty(r) && Accepts(b, r, limit) && Inside(Rect(r.x, r.y, b.width, b.height), x, y)
    ensures AllAccepted(b, FrameRects(r, 0), limit) && Painted(b, FrameRects(r, 0), x, y)
  {
    FrameAcceptedIff(b, r, 0, limit);
    assert FrameRects(r, 0)[0] == r;
    PaintedFrame(b, r, 0, x, y);
  }

  lemma EmptyFrameExample() returns (r: Rect)
    ensures Empty(r) && Accepts(Square, r, Large)
    ensures forall x, y | 0 <= x < 100 && 0 <= y < 100 :: Painted(Square, FrameRects(r, 0), x, y)
  {
    r := Rect(0, 0, 0, 0);
    assert Accepts(Square, r, Large);
    var empty := r;
    forall x, y | 0 <= x < 100 && 0 <= y < 100 ensures Painted(Square, FrameRects(empty, 0), x, y) {
      EmptyFramePaints(Square, empty, Large, x, y);
    }
  }

  // ---------------------------------------------------------------------------------
  // The array calls, direct and queued.

  /** The fills a call makes for one rectangle. */
  function FillsOf(r: Rect, thickness: int): seq<Rect> {
    if thickness < 0 then [r] else FrameRects(r, thickness)
  }

  function Fills(rects: seq<Rect>, thickness: int): seq<Rect> {
    if rects == [] then [] else Fills(rects[..|rects| - 1], thickness) + FillsOf(rects[|rects| - 1], thickness)
  }

  /** A negative thickness fills the rectangles themselves, in order. */
  lemma {:induction false} SolidFills(rects: seq<Rect>, thickness: int)
    requires thickness < 0
    ensures Fills(rects, thickness) == rects
  {
    if rects != [] {
      SolidFills(rects[..|rects| - 1], thickness);
    }
  }

  /** Any other gives four fills for each rectangle, in order: its top, bottom, left and right bar. */
  lemma {:induction false} BarFills(rects: seq<Rect>, thickness: nat, n: nat)
    requires n < |rects|
    ensures |Fills(rects, thickness)| == 4 * |rects|
    ensures var f, r, t := Fills(rects, thickness), rects[n], thickness;
            && f[4 * n] == Rect(r.x, r.y, r.width, t)
            && f[4 * n + 1] == Rect(r.x, r.y + r.height - t, r.width, t)
            && f[4 * n + 2] == Rect(r.x, r.y + t, t, r.height - 2 * t)
            && f[4 * n + 3] == Rect(r.x + r.width - t, r.y + t, t, r.height - 2 * t)
  {
    var front := rects[..|rects| - 1];
    if front != [] {
      BarFills(front, thickness, if n < |front| then n else 0);
    }
  }

  /** A fence stands for the fills it waits for; None is a negative descriptor. Merging two
      fences gives a fence for both. */
  type Fence = Option<set<nat>>

  function Merge(a: Fence, b: Fence): Fence
    requires a.Some? && b.Some?
  {
    Some(a.value + b.value)
  }

  /** One call: its target, its mode, whether it was given a place for the release fence, and the
      answers to the fills it issues, by number: to the checks, from the driver, and fenced or not. */
  datatype Call = Call(
    dst: Buffer, limit: Resolution, sync: int, hasFence: bool,
    checks: nat -> Answer, driver: nat -> int, fenced: nat -> bool)

  /** imfill for rectangle r as fill number n: the first refusal on its way to the driver. */
  function FillStatus(c: Call, r: Rect, n: nat): int {
    Then(c.checks(n).early, Then(InfoStatus(c.dst, r, c.limit), Then(c.checks(n).late,
      if c.sync == 0 && !c.hasFence then ILLEGAL_PARAM else c.driver(n))))
  }

  /** A fill succeeds exactly when everything on its way does, ... */
  lemma FillTakenIff(c: Call, r: Rect, n: nat)
    ensures FillStatus(c, r, n) == SUCCESS <==>
              && c.checks(n).early == SUCCESS && Accepts(c.dst, r, c.limit) && c.checks(n).late == SUCCESS
              && (c.sync != 0 || c.hasFence) && c.driver(n) == SUCCESS
  {
  }

  /** ... and else has the code of the first that does not. */
  lemma FillRefusal(c: Call, r: Rect, n: nat)
    ensures var status, w := FillStatus(c, r, n), c.checks(n);
            && (w.early != SUCCESS ==> status == w.early)
            && (w.early == SUCCESS && !Accepts(c.dst, r, c.limit) ==>
                  status == CheckInfo(ApplyRect(c.dst, r), r, c.limit) != SUCCESS)
            && (w.early == SUCCESS && Accepts(c.dst, r, c.limit) && w.late != SUCCESS ==> status == w.late)
            && (w.early == SUCCESS && Accepts(c.dst, r, c.limit) && w.late == SUCCESS ==>
                  status == if c.sync == 0 && !c.hasFence then ILLEGAL_PARAM else c.driver(n))
  {
  }

  /** The fills were all admitted and taken, as numbers n, n + 1, ... */
  predicate AllTaken(c: Call, fills: seq<Rect>, n: nat) {
    forall k | 0 <= k < |fills| :: FillStatus(c, fills[k], n + k) == SUCCESS
  }

  function FillFence(c: Call, n: nat, rel: Fence): Fence {
    if c.sync == 0 then OneFence(c, n) else rel
  }

  /** The merge step both loops share. */
  function Accumulate(tmp: Fence, rel: Fence): Fence {
    if rel.Some? && tmp.Some? then Merge(tmp, rel) else if rel.Some? then rel else tmp
  }

  function OneFence(c: Call, n: nat): Fence { if c.fenced(n) then Some({n}) else None }

  /** The fence for the fenced fills numbered from lo to hi. */
  function FenceFor(c: Call, lo: nat, hi: nat): Fence
    decreases hi
  {
    if hi <= lo then None else Accumulate(FenceFor(c, lo, hi - 1), OneFence(c, hi - 1))
  }

  /** It covers exactly those, and is no fence if there are none. */
  lemma {:induction false} FenceForCovers(c: Call, lo: nat, hi: nat)
    ensures var fills := set k: nat | lo <= k < hi && c.fenced(k);
            FenceFor(c, lo, hi) == if fills == {} then None else Some(fills)
    decreases hi
  {
    var fills := set k: nat | lo <= k < hi && c.fenced(k);
    if lo < hi {
      FenceForCovers(c, lo, hi - 1);
      var before := set k: nat | lo <= k < hi - 1 && c.fenced(k);
      assert fills == if c.fenced(hi - 1) then before + {hi - 1} else before;
      assert {} + {hi - 1} == {hi - 1};
    } else {
      assert fills == {};
    }
  }

  lemma {:induction false} FenceForSplit(c: Call, lo: nat, mid: nat, hi: nat)
    requires lo <= mid <= hi
    ensures FenceFor(c, lo, hi) == Accumulate(FenceFor(c, lo, mid), FenceFor(c, mid, hi))
    decreases hi
  {
    if mid < hi {
      FenceForSplit(c, lo, mid, hi - 1);
      AccumulateAssociates(FenceFor(c, lo, mid), FenceFor(c, mid, hi - 1), OneFence(c, hi - 1));
    }
  }

  lemma AccumulateAssociates(a: Fence, b: Fence, c: Fence)
    ensures Accumulate(Accumulate(a, b), c) == Accumulate(a, Accumulate(b, c))
  {
    if a.Some? && b.Some? && c.Some? {
      assert a.value + b.value + c.value == a.value + (b.value + c.value);
    }
  }

  /** The release fence a successful array call must leave. */
  predicate FenceOk(c: Call, rel: Fence, lo: nat, hi: nat) {
    c.hasFence ==> rel == if c.sync == 0 then FenceFor(c, lo, hi) else None
  }

  /** The fence gathered so far in an array call. */
  predicate Pending(c: Call, tmp: Fence, lo: nat, hi: nat) {
    tmp == if c.sync == 0 && c.hasFence then FenceFor(c, lo, hi) else None
  }

  /** The merge after each fill or rectangle of an array call. */
  method Gather(c: Call, tmp: Fence, rel: Fence, ghost lo: nat, ghost mid: nat, ghost hi: nat) returns (tmp': Fence)
    requires lo <= mid <= hi && Pending(c, tmp, lo, mid)
    requires c.sync == 0 ==> FenceOk(c, rel, mid, hi)
    ensures Pending(c, tmp', lo, hi)
  {
    tmp' := tmp;
    if c.sync == 0 && c.hasFence {
      FenceForSplit(c, lo, mid, hi);
      tmp' := Accumulate(tmp, rel);
    }
  }

  /** The fills were issued in order up to the first refusal, whose status is reported. */
  predicate Issued(c: Call, n: nat, fills: seq<Rect>, status: int, issued: seq<Rect>) {
    && issued <= fills && AllTaken(c, issued, n)
    && if status == SUCCESS then issued == fills
       else |issued| < |fills| && status == FillStatus(c, fills[|issued|], n + |issued|)
  }

  lemma IssuedChain(c: Call, n: nat, done: seq<Rect>, more: seq<Rect>, status: int, part: seq<Rect>)
    requires Issued(c, n, done, SUCCESS, done) && Issued(c, n + |done|, more, status, part)
    ensures Issued(c, n, done + more, status, done + part)
  {
    forall k | 0 <= k < |done + part| ensures FillStatus(c, (done + part)[k], n + k) == SUCCESS {
      if k >= |done| {
        assert FillStatus(c, part[k - |done|], n + |done| + (k - |done|)) == SUCCESS;
      }
    }
  }

  lemma IssuedPrefix(c: Call, n: nat, some: seq<Rect>, all: seq<Rect>, status: int, issued: seq<Rect>)
    requires some <= all && status != SUCCESS && Issued(c, n, some, status, issued)
    ensures Issued(c, n, all, status, issued)
  {
  }

  /** The next rectangle's fills either all follow, or one of them is the first refusal of the call. */
  lemma IssuedNext(c: Call, rects: seq<Rect>, thickness: int, i: nat, done: seq<Rect>, status: int, part: seq<Rect>)
    requires i < |rects| && Issued(c, 0, Fills(rects[..i], thickness), SUCCESS, done)
    requires Issued(c, |done|, FillsOf(rects[i], thickness), status, part)
    ensures Issued(c, 0, if status == SUCCESS then Fills(rects[..i + 1], thickness) else Fills(rects, thickness),
                   status, done + part)
  {
    assert rects[..i + 1][..i] == rects[..i];
    IssuedChain(c, 0, done, FillsOf(rects[i], thickness), status, part);
    if status != SUCCESS {
      FillsPrefix(rects, thickness, i + 1);
      IssuedPrefix(c, 0, Fills(rects[..i + 1], thickness), Fills(rects, thickness), status, done + part);
    }
  }

  /** So a direct call succeeds exactly when every fill is admitted and taken. */
  lemma IssuedIff(c: Call, n: nat, fills: seq<Rect>, status: int, issued: seq<Rect>)
    requires Issued(c, n, fills, status, issued)
    ensures status == SUCCESS <==> AllTaken(c, fills, n)
  {
  }

  /** imfillArray */
  method FillArray(c: Call, rects: seq<Rect>, n: nat, rel0: Fence) returns (status: int, rel: Fence, issued: seq<Rect>)
    ensures Issued(c, n, rects, status, issued)
    ensures status == SUCCESS ==> FenceOk(c, rel, n, n + |rects|)
    ensures status == SUCCESS && c.hasFence ==> rel == if c.sync == 0 then FenceFor(c, n, n + |rects|) else None
  {
    rel, issued := rel0, [];
    var tmp: Fence := None;
    var i := 0;
    while i < |rects|
      invariant 0 <= i <= |rects| && issued == rects[..i]
      invariant AllTaken(c, issued, n)
      invariant Pending(c, tmp, n, n + i)
    {
      status := FillStatus(c, rects[i], n + i);
      if status != SUCCESS {
        return;
      }
      issued := issued + [rects[i]];
      rel := FillFence(c, n + i, rel);
      tmp := Gather(c, tmp, rel, n, n + i, n + i + 1);
      i := i + 1;
    }
    if c.hasFence {
      rel := tmp;
    }
    status := SUCCESS;
  }

  /** imrectangle */
  method Rectangle(c: Call, r: Rect, thickness: int, n: nat, rel0: Fence)
    returns (status: int, rel: Fence, issued: seq<Rect>)
    ensures Issued(c, n, FillsOf(r, thickness), status, issued)
    ensures thickness < 0 ==> status == FillStatus(c, r, n) && issued == if status == SUCCESS then [r] else []
    ensures status == SUCCESS && thickness < 0 ==>
              forall x, y :: Painted(c.dst, issued, x, y) <==> Inside(Region(c.dst, r), x, y)
    ensures status == SUCCESS && thickness >= 0 ==>
              && |issued| == 4 && issued[0] == Rect(r.x, r.y, r.width, thickness)
              && issued[1] == Rect(r.x, r.y + r.height - thickness, r.width, thickness)
              && issued[2] == Rect(r.x, r.y + thickness, thickness, r.height - 2 * thickness)
              && issued[3] == Rect(r.x + r.width - thickness, r.y + thickness, thickness, r.height - 2 * thickness)
    ensures status == SUCCESS && c.sync == 0 ==> FenceOk(c, rel, n, n + |issued|)
    ensures status == SUCCESS && c.sync == 0 && c.hasFence ==> rel == FenceFor(c, n, n + |issued|)
  {
    if thickness < 0 {
      status := FillStatus(c, r, n);
      rel := if status == SUCCESS then FillFence(c, n, rel0) else rel0;
      issued := if status == SUCCESS then [r] else [];
      assert status == SUCCESS ==> issued[0] == r;
    } else {
      status, rel, issued := FillArray(c, FrameRects(r, thickness), n, rel0);
    }
  }

  /** One rectangle of an array call, after those that gave the fills `done`. */
  method NextRectangle(c: Call, rects: seq<Rect>, thickness: int, i: nat, done: seq<Rect>, rel0: Fence)
    returns (status: int, rel: Fence, issued: seq<Rect>)
    requires i < |rects| && Issued(c, 0, Fills(rects[..i], thickness), SUCCESS, done)
    ensures Issued(c, 0, if status == SUCCESS then Fills(rects[..i + 1], thickness) else Fills(rects, thickness),
                   status, issued)
    ensures status == SUCCESS ==> |done| <= |issued| && (c.sync == 0 ==> FenceOk(c, rel, |done|, |issued|))
  {
    var part: seq<Rect>;
    status, rel, part := Rectangle(c, rects[i], thickness, |done|, rel0);
    issued := done + part;
    assert |issued| == |done| + |part|;
    assert status == SUCCESS && c.sync == 0 ==> FenceOk(c, rel, |done|, |issued|);
    IssuedNext(c, rects, thickness, i, done, status, part);
  }

  /** imrectangleArray: the fence it leaves covers exactly the fenced fills issued through
      both nested loops. */
  method RectangleArray(c: Call, rects: seq<Rect>, thickness: int, rel0: Fence)
    returns (status: int, rel: Fence, issued: seq<Rect>)
    ensures Issued(c, 0, Fills(rects, thickness), status, issued)
    ensures status == SUCCESS && thickness < 0 ==> issued == rects
    ensures status == SUCCESS ==> FenceOk(c, rel, 0, |issued|)
    ensures status == SUCCESS && c.hasFence ==> rel == if c.sync == 0 then FenceFor(c, 0, |issued|) else None
  {
    rel, issued := rel0, [];
    var tmp: Fence := None;
    var i := 0;
    while i < |rects|
      invariant 0 <= i <= |rects|
      invariant Issued(c, 0, Fills(rects[..i], thickness), SUCCESS, issued)
      invariant Pending(c, tmp, 0, |issued|)
    {
      ghost var n := |issued|;
      status, rel, issued := NextRectangle(c, rects, thickness, i, issued, rel);
      if status != SUCCESS {
        return;
      }
      tmp := Gather(c, tmp, rel, 0, n, |issued|);
      i := i + 1;
    }
    assert rects[..|rects|] == rects;
    if thickness < 0 {
      SolidFills(rects, thickness);
    }
    if c.hasFence {
      rel := tmp;
    }
    status := SUCCESS;
  }

  lemma {:induction false} FillsPrefix(rects: seq<Rect>, thickness: int, i: nat)
    requires i <= |rects|
    ensures Fills(rects[..i], thickness) <= Fills(rects, thickness)
  {
    if i == |rects| {
      assert rects[..i] == rects;
    } else {
      FillsPrefix(rects[..|rects| - 1], thickness, i);
      assert rects[..|rects| - 1][..i] == rects[..i];
    }
  }

  /** A call that queues fills in a job: its target, and the answers by position in the job: to the
      checks, and whether the handle still names the job. */
  datatype Batch = Batch(dst: Buffer, limit: Resolution, checks: nat -> Answer, known: nat -> bool)

  /** imfillTask for rectangle r when the job holds n tasks. */
  function TaskStatus(b: Batch, r: Rect, n: nat): int {
    Then(b.checks(n).early, Then(InfoStatus(b.dst, r, b.limit), Then(b.checks(n).late,
      if !b.known(n) || n >= Jobs.TASK_NUM_MAX then ILLEGAL_PARAM else SUCCESS)))
  }

  /** A queued fill succeeds exactly when it is admitted and answered and fewer than 256 are there. */
  lemma TaskTakenIff(b: Batch, r: Rect, n: nat)
    ensures TaskStatus(b, r, n) == SUCCESS <==>
              && b.checks(n).early == SUCCESS && Accepts(b.dst, r, b.limit) && b.checks(n).late == SUCCESS
              && b.known(n) && n < 256
  {
  }

  lemma TaskRefusal(b: Batch, r: Rect, n: nat)
    ensures var status, w := TaskStatus(b, r, n), b.checks(n);
            && (w.early != SUCCESS ==> status == w.early)
            && (w.early == SUCCESS && !Accepts(b.dst, r, b.limit) ==>
                  status == CheckInfo(ApplyRect(b.dst, r), r, b.limit) != SUCCESS)
            && (w.early == SUCCESS && Accepts(b.dst, r, b.limit) && w.late != SUCCESS ==> status == w.late)
            && (w.early == SUCCESS && Accepts(b.dst, r, b.limit) && w.late == SUCCESS && (!b.known(n) || n >= 256) ==>
                  status == ILLEGAL_PARAM)
  {
  }

  /** Everything but the size of the job lets the fill at position n pass. */
  predicate Answered(b: Batch, n: nat) { b.checks(n).early == SUCCESS && b.checks(n).late == SUCCESS && b.known(n) }

  /** The fills are admitted and answered, from position n of the job on. */
  predicate AllQueued(b: Batch, fills: seq<Rect>, n: nat) {
    forall k | 0 <= k < |fills| :: Accepts(b.dst, fills[k], b.limit) && Answered(b, n + k)
  }

  /** The job grew by as many of the fills as it could take, which were all exactly on success. */
  predicate Queued(b: Batch, queue: seq<Rect>, fills: seq<Rect>, status: int, queue': seq<Rect>) {
    && queue <= queue' <= queue + fills && |queue'| <= Jobs.TASK_NUM_MAX
    && AllQueued(b, queue'[|queue|..], |queue|)
    && if status == SUCCESS then queue' == queue + fills
       else |queue'| < |queue + fills| && status == TaskStatus(b, (queue + fills)[|queue'|], |queue'|)
  }

  /** imfillTaskArray: one fill per rectangle, up to the first refusal. */
  method FillTaskArray(b: Batch, rects: seq<Rect>, queue: seq<Rect>) returns (status: int, queue': seq<Rect>)
    requires |queue| <= Jobs.TASK_NUM_MAX
    ensures Queued(b, queue, rects, status, queue')
  {
    queue' := queue;
    var i := 0;
    while i < |rects|
      invariant 0 <= i <= |rects| && queue' == queue + rects[..i] && |queue'| <= Jobs.TASK_NUM_MAX
      invariant AllQueued(b, rects[..i], |queue|)
    {
      status := TaskStatus(b, rects[i], |queue'|);
      if status != SUCCESS {
        assert queue'[|queue|..] == rects[..i];
        return;
      }
      queue' := queue' + [rects[i]];
      i := i + 1;
    }
    assert queue'[|queue|..] == rects[..i];
    status := SUCCESS;
  }

  /** imrectangleTaskArray: the fills the direct call issues are queued in the same order. */
  method RectangleTaskArray(b: Batch, rects: seq<Rect>, thickness: int, queue: seq<Rect>)
    returns (status: int, queue': seq<Rect>)
    requires |queue| <= Jobs.TASK_NUM_MAX
    ensures Queued(b, queue, Fills(rects, thickness), status, queue')
    ensures status == SUCCESS && thickness < 0 ==> queue' == queue + rects
  {
    queue' := queue;
    var i := 0;
    while i < |rects|
      invariant 0 <= i <= |rects|
      invariant Queued(b, queue, Fills(rects[..i], thickness), SUCCESS, queue')
    {
      ghost var done := Fills(rects[..i], thickness);
      ghost var before := queue';
      assert rects[..i + 1][..i] == rects[..i];
      status, queue' := FillTaskArray(b, FillsOf(rects[i], thickness), queue');
      QueuedChain(b, queue, done, before, FillsOf(rects[i], thickness), status, queue');
      if status != SUCCESS {
        FillsPrefix(rects, thickness, i + 1);
        QueuedPrefix(b, queue, Fills(rects[..i + 1], thickness), Fills(rects, thickness), status, queue');
        return;
      }
      i := i + 1;
    }
    assert rects[..|rects|] == rects;
    if thickness < 0 {
      SolidFills(rects, thickness);
    }
    status := SUCCESS;
  }

  lemma QueuedChain(b: Batch, queue: seq<Rect>, done: seq<Rect>, mid: seq<Rect>, more: seq<Rect>,
                    status: int, queue': seq<Rect>)
    requires Queued(b, queue, done, SUCCESS, mid) && Queued(b, mid, more, status, queue')
    ensures Queued(b, queue, done + more, status, queue')
  {
    assert queue + (done + more) == mid + more;
    var first, second := mid[|queue|..], queue'[|mid|..];
    assert queue'[|queue|..] == first + second;
    forall k | 0 <= k < |first + second|
      ensures Accepts(b.dst, (first + second)[k], b.limit) && Answered(b, |queue| + k)
    {
      if k >= |first| {
        assert Accepts(b.dst, second[k - |first|], b.limit) && Answered(b, |mid| + (k - |first|));
      }
    }
  }

  lemma QueuedPrefix(b: Batch, queue: seq<Rect>, some: seq<Rect>, all: seq<Rect>, status: int, queue': seq<Rect>)
    requires some <= all && status != SUCCESS && Queued(b, queue, some, status, queue')
    ensures Queued(b, queue, all, status, queue')
  {
  }

  /** So a queued call succeeds exactly when the job has room and every fill is admitted and
      answered. */
  lemma QueuedIff(b: Batch, queue: seq<Rect>, fills: seq<Rect>, status: int, queue': seq<Rect>)
    requires |queue| <= Jobs.TASK_NUM_MAX && Queued(b, queue, fills, status, queue')
    ensures status == SUCCESS <==> |queue| + |fills| <= Jobs.TASK_NUM_MAX && AllQueued(b, fills, |queue|)
  {
    if status == SUCCESS {
      assert queue'[|queue|..] == fills;
    } else {
      var k := |queue'| - |queue|;
      assert (queue + fills)[|queue'|] == fills[k];
    }
  }

  /** The fills of one colour, each on the window it asks for. */
  function FillTasks(b: Buffer, rects: seq<Rect>, color: Pixel): Job {
    seq(|rects|, k requires 0 <= k < |rects| => Fill(Region(b, rects[k]), color))
  }

  /** One job, or unfenced jobs racing each other: however the fills of one colour interleave,
      the colour is on exactly the painted pixels. */
  lemma FillsPaint(b: Buffer, rects: seq<Rect>, color: Pixel, evs: seq<Event>, src: Image, dst: Image, x: int, y: int)
    requires ScheduleOf(FillTasks(b, rects, color), evs)
    ensures Perform(FillTasks(b, rects, color), evs, src, dst)(x, y)
            == if Painted(b, rects, x, y) then color else dst(x, y)
  {
    var job := FillTasks(b, rects, color);
    AnyScheduleSameImage(job, evs, src, dst, x, y);
    if Painted(b, rects, x, y) {
      var k :| 0 <= k < |rects| && Inside(Region(b, rects[k]), x, y);
      assert Covers(job[k], x, y);
    }
  }

  /** Issued directly or queued, the fills leave the same image, in whatever orders the engine does
      them. */
  ghost predicate SameImages(b: Buffer, issued: seq<Rect>, queue: seq<Rect>, color: Pixel) {
    forall direct, queued, src: Image, dst: Image
      {:trigger Perform(FillTasks(b, issued, color), direct, src, dst),
                Perform(FillTasks(b, queue, color), queued, src, dst)}
      | ScheduleOf(FillTasks(b, issued, color), direct) && ScheduleOf(FillTasks(b, queue, color), queued) ::
      Same(Perform(FillTasks(b, issued, color), direct, src, dst),
           Perform(FillTasks(b, queue, color), queued, src, dst))
  }

  /** So calls whose fills cover the same pixels leave the same image. */
  lemma DirectEqualsQueued(b: Buffer, issued: seq<Rect>, queue: seq<Rect>, color: Pixel)
    requires forall x, y :: Painted(b, issued, x, y) <==> Painted(b, queue, x, y)
    ensures SameImages(b, issued, queue, color)
  {
    var p, q := FillTasks(b, issued, color), FillTasks(b, queue, color);
    forall direct, queued, src: Image, dst: Image | ScheduleOf(p, direct) && ScheduleOf(q, queued)
      ensures Same(Perform(p, direct, src, dst), Perform(q, queued, src, dst))
    {
      forall x, y ensures Perform(p, direct, src, dst)(x, y) == Perform(q, queued, src, dst)(x, y) {
        FillsPaint(b, issued, color, direct, src, dst, x, y);
        FillsPaint(b, queue, color, queued, src, dst, x, y);
      }
    }
  }

  /** imrectangleArray and imrectangleTaskArray on the same rectangles and an empty job. When both
      succeed they leave the same image. If only the job's size can stop the queued call, it
      succeeds where the direct one does exactly when the fills are no more than a job takes, and
      else stops at the first that does not fit. */
  method DirectAndQueued(c: Call, b: Batch, rects: seq<Rect>, thickness: int, color: Pixel, rel0: Fence)
    returns (direct: int, issued: seq<Rect>, queued: int, queue: seq<Rect>)
    requires b.dst == c.dst && b.limit == c.limit
    ensures Issued(c, 0, Fills(rects, thickness), direct, issued)
    ensures direct == SUCCESS && queued == SUCCESS ==> SameImages(c.dst, issued, queue, color)
    ensures direct == SUCCESS && (forall n :: Answered(b, n)) ==>
              && (queued == SUCCESS <==> |Fills(rects, thickness)| <= Jobs.TASK_NUM_MAX)
              && (queued != SUCCESS ==>
                    queued == ILLEGAL_PARAM && queue == Fills(rects, thickness)[..Jobs.TASK_NUM_MAX])
  {
    var rel;
    direct, rel, issued := RectangleArray(c, rects, thickness, rel0);
    queued, queue := RectangleTaskArray(b, rects, thickness, []);
    ghost var fills := Fills(rects, thickness);
    assert [] + fills == fills;
    if direct == SUCCESS && queued == SUCCESS {
      DirectEqualsQueued(c.dst, issued, queue, color);
    }
    if direct == SUCCESS && forall n :: Answered(b, n) {
      TakenFitsJob(c, b, fills, queued, queue);
    }
  }

  /** What the direct call admitted, the queued one refuses only for want of room. */
  lemma TakenFitsJob(c: Call, b: Batch, fills: seq<Rect>, queued: int, queue: seq<Rect>)
    requires b.dst == c.dst && b.limit == c.limit && (forall n :: Answered(b, n))
    requires AllTaken(c, fills, 0) && Queued(b, [], fills, queued, queue)
    ensures queued == SUCCESS <==> |fills| <= Jobs.TASK_NUM_MAX
    ensures queued != SUCCESS ==> queued == ILLEGAL_PARAM && queue == fills[..Jobs.TASK_NUM_MAX]
  {
    assert [] + fills == fills;
    assert Answered(b, |queue|);
    QueuedIff(b, [], fills, queued, queue);
    forall k | 0 <= k < |fills| ensures Accepts(b.dst, fills[k], b.limit) {
      assert FillStatus(c, fills[k], 0 + k) == SUCCESS;
    }
  }

  /** Sixty-five frames: the direct call paints all 260 bars, the queued one is refused at 257. */
  method SixtyFiveFrames() returns (direct: int, issued: seq<Rect>, queued: int, queue: seq<Rect>)
    ensures direct == SUCCESS && |issued| == 260 && queued == ILLEGAL_PARAM && |queue| == 256
  {
    var yes := (n: nat) => true;
    var pass := (n: nat) => Answer(SUCCESS, SUCCESS, SUCCESS);
    var c := Call(Square, Large, 1, false, pass, (n: nat) => SUCCESS, yes);
    var b := Batch(Square, Large, pass, yes);
    var r := Rect(10, 10, 20, 20);
    var rects := seq(65, _ => r);
    FrameAcceptedIff(Square, r, 2, Large);
    RepeatedFrame(rects, r, 2);
    direct, issued, queued, queue := DirectAndQueued(c, b, rects, 2, 0, None);
    ghost var fills := Fills(rects, 2);
    forall k | 0 <= k < |fills| ensures FillStatus(c, fills[k], 0 + k) == SUCCESS {
      assert Accepts(Square, fills[k], Large);
    }
    IssuedIff(c, 0, fills, direct, issued);
  }

  lemma {:induction false} RepeatedFrame(rects: seq<Rect>, r: Rect, t: nat)
    requires forall k | 0 <= k < |rects| :: rects[k] == r
    ensures |Fills(rects, t)| == 4 * |rects|
    ensures forall k | 0 <= k < |Fills(rects, t)| :: Fills(rects, t)[k] in FrameRects(r, t)
  {
    if rects != [] {
      RepeatedFrame(rects[..|rects| - 1], r, t);
    }
  }
}
