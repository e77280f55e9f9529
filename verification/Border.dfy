/** immakeBorder (im2d_api/src/im2d.cpp): the jobs it issues and the image they make. */
module Border {
  import opened Common
  import opened Windows
  import opened Raster

  const CONSTANT := 0
  const REFLECT := 2
  const WRAP := 3

  /** The arguments that decide which pixels go where. */
  datatype Args = Args(
    src: Buffer, dst: Buffer, top: int, bottom: int, left: int, right: int, kind: int, value: Pixel)

  // ---------------------------------------------------------------------------------
  // What the border types are declared to mean.

  /** fedcba|abcdefgh|hgfedcb */
  function Mirror(i: int, n: int): int { if i < 0 then -1 - i else if i >= n then 2 * n - 1 - i else i }

  /** cdefgh|abcdefgh|abcdefg */
  function Cycle(i: int, n: int): int { if i < 0 then i + n else if i >= n then i - n else i }

  /** The source image continued beyond its edges, at source coordinates (i, j). */
  function Extended(a: Args, src: Image, i: int, j: int): Pixel {
    var w, h := a.src.width, a.src.height;
    if a.kind == REFLECT then src(Mirror(i, w), Mirror(j, h))
    else if a.kind == WRAP then src(Cycle(i, w), Cycle(j, h))
    else if 0 <= i < w && 0 <= j < h then src(i, j)
    else a.value
  }

  // ---------------------------------------------------------------------------------
  // The rectangles and the jobs.

  function TopRect(a: Args): Rect { Rect(a.left, 0, a.src.width, a.top) }
  function BottomRect(a: Args): Rect { Rect(a.left, a.src.height + a.top, a.src.width, a.bottom) }
  function LeftRect(a: Args): Rect { Rect(0, 0, a.left, a.src.height + a.top + a.bottom) }
  function RightRect(a: Args): Rect { Rect(a.src.width + a.left, 0, a.right, a.src.height + a.top + a.bottom) }

  function TopSource(a: Args): Rect {
    if a.kind == REFLECT then Rect(0, 0, a.src.width, a.top)
    else Rect(0, a.src.height - a.top, a.src.width, a.top)
  }
  function BottomSource(a: Args): Rect {
    if a.kind == REFLECT then Rect(0, a.src.height - a.bottom, a.src.width, a.bottom)
    else Rect(0, 0, a.src.width, a.bottom)
  }
  function LeftSource(a: Args): Rect {
    if a.kind == REFLECT then Rect(a.left, 0, a.left, LeftRect(a).height)
    else Rect(RightRect(a).x - a.left, 0, a.left, RightRect(a).height)
  }
  function RightSource(a: Args): Rect {
    if a.kind == REFLECT then Rect(RightRect(a).x - a.right, 0, a.right, RightRect(a).height)
    else Rect(a.left, 0, a.right, LeftRect(a).height)
  }

  function CopyTask(a: Args): Task {
    Blit(Src, Rect(0, 0, a.src.width, a.src.height), Rect(a.left, a.top, a.src.width, a.src.height), false, false)
  }
  function TopTask(a: Args): Task { Blit(Src, TopSource(a), TopRect(a), false, a.kind == REFLECT) }
  function BottomTask(a: Args): Task { Blit(Src, BottomSource(a), BottomRect(a), false, a.kind == REFLECT) }
  function LeftTask(a: Args): Task { Blit(Dst, LeftSource(a), LeftRect(a), a.kind == REFLECT, false) }
  function RightTask(a: Args): Task { Blit(Dst, RightSource(a), RightRect(a), a.kind == REFLECT, false) }

  function When(c: bool, t: Task): Job { if c then [t] else [] }

  function FillJob(a: Args): Job {
    When(a.top != 0, Fill(TopRect(a), a.value)) + When(a.bottom != 0, Fill(BottomRect(a), a.value)) +
    When(a.left != 0, Fill(LeftRect(a), a.value)) + When(a.right != 0, Fill(RightRect(a), a.value))
  }
  function EdgeJob(a: Args): Job { When(a.top != 0, TopTask(a)) + When(a.bottom != 0, BottomTask(a)) }
  function SideJob(a: Args): Job { if a.left != 0 || a.right != 0 then [LeftTask(a), RightTask(a)] else [] }

  /** No border on any side: the copy alone is the whole picture. */
  predicate Plain(a: Args) { a.top == 0 && a.bottom == 0 && a.left == 0 && a.right == 0 }

  predicate HasEdges(a: Args) { a.kind != CONSTANT && (a.top != 0 || a.bottom != 0) }

  /** The jobs of a complete border, each waiting for the one before. */
  function Plan(a: Args): seq<Submission> {
    [Submission([CopyTask(a)], None)] +
    if a.kind == CONSTANT then [Submission(FillJob(a), Some(0))]
    else if HasEdges(a) then [Submission(EdgeJob(a), Some(0)), Submission(SideJob(a), Some(1))]
    else [Submission(SideJob(a), Some(0))]
  }

  // ---------------------------------------------------------------------------------
  // The image of a complete border.

  /** These jobs draw the border. */
  predicate Bordered(a: Args, subs: seq<Submission>) {
    subs == Plan(a) || (Plain(a) && subs == Plan(a)[..1])
  }

  /** What the checks made on the way to SUCCESS guarantee, and what the patterns cover. */
  predicate Drawable(a: Args) {
    && (a.kind in {CONSTANT, REFLECT, WRAP} || Plain(a)) && a.src.width > 0 && a.src.height > 0
    && 0 <= a.top && 0 <= a.bottom && 0 <= a.left && 0 <= a.right
    && (a.kind != CONSTANT ==>
          && a.top <= a.src.height && a.bottom <= a.src.height && a.left <= a.src.width && a.right <= a.src.width)
  }

  function Canvas(a: Args): Rect {
    Rect(0, 0, a.src.width + a.left + a.right, a.src.height + a.top + a.bottom)
  }

  lemma WhenAtOnce(c: bool, t: Task, src: Image, dst: Image, x: int, y: int)
    ensures Coverer(When(c, t), x, y).Some? <==> c && Covers(t, x, y)
    ensures AtOnce(When(c, t), src, dst, x, y) == if c && Covers(t, x, y) then Value(t, src, dst, x, y) else dst(x, y)
  {
    AtOnceSingle(t, src, dst, x, y);
  }

  predicate InMiddle(a: Args, x: int, y: int) {
    a.left <= x < a.left + a.src.width && 0 <= y < Canvas(a).height
  }

  /** The pixel a blit from the source leaves, if it covers (x, y), else q. */
  function Over(t: Task, src: Image, x: int, y: int, q: Pixel): Pixel
    requires t.Blit? && t.from == Src
  {
    if Covers(t, x, y) then src(FromX(t, x), FromY(t, y)) else q
  }

  /** Copy and edges together continue the source up and down. */
  lemma EdgePixel(a: Args, src: Image, x: int, y: int, q: Pixel)
    requires Drawable(a) && a.kind != CONSTANT
    ensures var p := Over(CopyTask(a), src, x, y, q);
            var p' := if a.bottom != 0 then Over(BottomTask(a), src, x, y, p) else p;
            (if a.top != 0 then Over(TopTask(a), src, x, y, p') else p') ==
              if InMiddle(a, x, y) then Extended(a, src, x - a.left, y - a.top) else q
  {
  }

  /** The destination once copy and edges are done: right in the middle columns. */
  lemma AfterEdges(a: Args, src: Image, dst: Image, mid: Image, x: int, y: int)
    requires Drawable(a) && a.kind != CONSTANT
    requires mid(x, y) == AtOnce([CopyTask(a)], src, dst, x, y)
    ensures AtOnce(EdgeJob(a), src, mid, x, y) ==
              if InMiddle(a, x, y) then Extended(a, src, x - a.left, y - a.top) else dst(x, y)
  {
    EdgePixel(a, src, x, y, dst(x, y));
    AtOnceSingle(CopyTask(a), src, dst, x, y);
    var t, b := When(a.top != 0, TopTask(a)), When(a.bottom != 0, BottomTask(a));
    AtOnceConcat(t, b, src, mid, x, y);
    WhenAtOnce(a.top != 0, TopTask(a), src, mid, x, y);
    WhenAtOnce(a.bottom != 0, BottomTask(a), src, mid, x, y);
    assert EdgeJob(a) == t + b;
  }

  /** The in-place side passes read only the middle columns and complete the picture. */
  lemma AfterSides(a: Args, src: Image, dst: Image, mid: Image, x: int, y: int)
    requires Drawable(a) && a.kind != CONSTANT
    requires forall u, v ::
               mid(u, v) == if InMiddle(a, u, v) then Extended(a, src, u - a.left, v - a.top) else dst(u, v)
    ensures AtOnce(SideJob(a), src, mid, x, y) ==
              if Inside(Canvas(a), x, y) then Extended(a, src, x - a.left, y - a.top) else dst(x, y)
  {
    if a.left != 0 || a.right != 0 {
      assert SideJob(a) == [LeftTask(a)] + [RightTask(a)];
      AtOnceConcat([LeftTask(a)], [RightTask(a)], src, mid, x, y);
      AtOnceSingle(LeftTask(a), src, mid, x, y);
      AtOnceSingle(RightTask(a), src, mid, x, y);
    }
  }

  lemma AfterFills(a: Args, src: Image, dst: Image, mid: Image, x: int, y: int)
    requires Drawable(a) && a.kind == CONSTANT
    requires mid(x, y) == AtOnce([CopyTask(a)], src, dst, x, y)
    ensures AtOnce(FillJob(a), src, mid, x, y) ==
              if Inside(Canvas(a), x, y) then Extended(a, src, x - a.left, y - a.top) else dst(x, y)
  {
    var t, b := When(a.top != 0, Fill(TopRect(a), a.value)), When(a.bottom != 0, Fill(BottomRect(a), a.value));
    var l, r := When(a.left != 0, Fill(LeftRect(a), a.value)), When(a.right != 0, Fill(RightRect(a), a.value));
    AtOnceSingle(CopyTask(a), src, dst, x, y);
    AtOnceConcat(t + b + l, r, src, mid, x, y);
    AtOnceConcat(t + b, l, src, mid, x, y);
    AtOnceConcat(t, b, src, mid, x, y);
    WhenAtOnce(a.top != 0, Fill(TopRect(a), a.value), src, mid, x, y);
    WhenAtOnce(a.bottom != 0, Fill(BottomRect(a), a.value), src, mid, x, y);
    WhenAtOnce(a.left != 0, Fill(LeftRect(a), a.value), src, mid, x, y);
    WhenAtOnce(a.right != 0, Fill(RightRect(a), a.value), src, mid, x, y);
  }

  /** No job of the plan disturbs itself: the tasks of each are disjoint or fill alike, and
      neither side pass reads a column that the other, or itself, writes. */
  lemma PlanIsIndependent(a: Args, src: Image, d: Image)
    requires Drawable(a)
    ensures Independent([CopyTask(a)], src, d)
    ensures a.kind == CONSTANT ==> Independent(FillJob(a), src, d)
    ensures a.kind != CONSTANT ==> Independent(EdgeJob(a), src, d) && Independent(SideJob(a), src, d)
  {
    if a.kind == CONSTANT {
      FillsIndependent(a, src, d);
    } else {
      EdgesIndependent(a, src, d);
      SidesIndependent(a, src, d);
    }
  }

  lemma FillsIndependent(a: Args, src: Image, d: Image)
    ensures Independent(FillJob(a), src, d)
  {
    assert forall k | 0 <= k < |FillJob(a)| :: FillJob(a)[k].Fill? && FillJob(a)[k].color == a.value;
  }

  lemma EdgesIndependent(a: Args, src: Image, d: Image)
    requires Drawable(a) && a.kind != CONSTANT
    ensures Independent(EdgeJob(a), src, d)
  {
    var job := EdgeJob(a);
    assert forall k | 0 <= k < |job| :: job[k] == TopTask(a) || job[k] == BottomTask(a);
  }

  lemma SidesIndependent(a: Args, src: Image, d: Image)
    requires Drawable(a) && a.kind != CONSTANT
    ensures Independent(SideJob(a), src, d)
  {
    var job := SideJob(a);
    assert forall k | 0 <= k < |job| :: job[k] == LeftTask(a) || job[k] == RightTask(a);
  }

  /** Pixel p at (x, y) is that of a complete border: the continuation of the source on the canvas,
      the old destination elsewhere. */
  predicate IsBorderPixel(a: Args, src: Image, dst: Image, x: int, y: int, p: Pixel) {
    p == if Inside(Canvas(a), x, y) then Extended(a, src, x - a.left, y - a.top) else dst(x, y)
  }

  /** The canvas with its middle columns done. */
  lemma MiddleDone(a: Args, src: Image, dst: Image, copied: Image, u: int, v: int)
    requires Drawable(a) && a.kind != CONSTANT
    requires copied(u, v) == AtOnce([CopyTask(a)], src, dst, u, v)
    ensures (if HasEdges(a) then AtOnce(EdgeJob(a), src, copied, u, v) else copied(u, v)) ==
              if InMiddle(a, u, v) then Extended(a, src, u - a.left, v - a.top) else dst(u, v)
  {
    if HasEdges(a) {
      AfterEdges(a, src, dst, copied, u, v);
    } else {
      AtOnceSingle(CopyTask(a), src, dst, u, v);
    }
  }

  /** The image the jobs of a complete border make when done in turn. */
  lemma PlanInTurn(a: Args, src: Image, dst: Image, x: int, y: int)
    requires Drawable(a)
    ensures IsBorderPixel(a, src, dst, x, y, InTurn(Plan(a), |Plan(a)|, src, dst)(x, y))
  {
    var copied := InTurn(Plan(a), 1, src, dst);
    assert InTurn(Plan(a), 0, src, dst) == dst;
    if a.kind == CONSTANT {
      AfterFills(a, src, dst, copied, x, y);
    } else {
      var mid := InTurn(Plan(a), |Plan(a)| - 1, src, dst);
      forall u, v
        ensures mid(u, v) == if InMiddle(a, u, v) then Extended(a, src, u - a.left, v - a.top) else dst(u, v)
      {
        MiddleDone(a, src, dst, copied, u, v);
      }
      AfterSides(a, src, dst, mid, x, y);
    }
  }

  lemma BorderIndependent(a: Args, subs: seq<Submission>, src: Image, dst: Image)
    requires Drawable(a) && Bordered(a, subs)
    ensures subs != [] && Chained(subs) && IndependentInTurn(subs, src, dst)
  {
    forall n: nat | n < |subs| ensures Independent(subs[n].job, src, InTurn(subs, n, src, dst)) {
      PlanIsIndependent(a, src, InTurn(subs, n, src, dst));
    }
  }

  /** With no border to draw the copy is the whole picture. */
  lemma PlainInTurn(a: Args, src: Image, dst: Image, x: int, y: int)
    requires Drawable(a) && Plain(a)
    ensures IsBorderPixel(a, src, dst, x, y, InTurn(Plan(a)[..1], 1, src, dst)(x, y))
  {
    assert InTurn(Plan(a)[..1], 0, src, dst) == dst;
    AtOnceSingle(CopyTask(a), src, dst, x, y);
  }

  /** Whatever order the engine works in, within what the fences allow, every pixel of the
      destination, corners included, is the declared continuation of the source, and nothing
      outside the canvas changes. */
  lemma BorderIsExtension(a: Args, subs: seq<Submission>, sched: seq<Tagged>, src: Image, dst: Image, x: int, y: int)
    requires Drawable(a) && Bordered(a, subs) && Allowed(subs, sched)
    ensures IsBorderPixel(a, src, dst, x, y, PerformAll(subs, sched, src, dst)(x, y))
  {
    BorderIndependent(a, subs, src, dst);
    FencedRun(subs, sched, src, dst, x, y);
    if subs == Plan(a) {
      PlanInTurn(a, src, dst, x, y);
    } else {
      PlainInTurn(a, src, dst, x, y);
    }
  }

  /** The copy alone leaves every border pixel as it was. */
  lemma CopyAloneHasNoBorder(a: Args, sched: seq<Tagged>, src: Image, dst: Image, x: int, y: int)
    requires Drawable(a) && Allowed(Plan(a)[..1], sched) && !Covers(CopyTask(a), x, y)
    ensures PerformAll(Plan(a)[..1], sched, src, dst)(x, y) == dst(x, y)
  {
    var subs := Plan(a)[..1];
    assert subs == [Submission([CopyTask(a)], None)];
    PlanIsIndependent(a, src, dst);
    assert InTurn(subs, 0, src, dst) == dst;
    FencedRun(subs, sched, src, dst, x, y);
    AtOnceSingle(CopyTask(a), src, dst, x, y);
  }

  // ---------------------------------------------------------------------------------
  // The call itself.

  /** What the hardware admits and what the library and the driver answer to the steps of one call:
      whether each step succeeds, and whether the release fence of the two asynchronous ones is a
      positive fd. */
  datatype Env = Env(
    input: Resolution, output: Resolution, copy: Answer, copyFenced: bool, firstWait: int, begin: bool,
    top: Answer, bottom: Answer, left: Answer, right: Answer,
    edges: int, edgesFenced: bool, begin2: bool, wait: int, last: int, cancel: int)

  /** The status of queueing one task: the first refusal of the checks in their order. */
  function FillStatus(a: Args, r: Rect, e: Env, w: Answer): int {
    Then(w.early, Then(InfoStatus(a.dst, r, e.output), w.late))
  }

  function BlitStatus(a: Args, from: Buffer, source: Rect, target: Rect, e: Env, w: Answer): int {
    Then(w.early, Then(InfoStatus(from, source, e.input), Then(w.source,
      Then(InfoStatus(a.dst, target, e.output), w.late))))
  }

  function CopyStatus(a: Args, e: Env): int {
    BlitStatus(a, a.src, Rect(0, 0, 0, 0), Rect(a.left, a.top, a.src.width, a.src.height), e, e.copy)
  }

  predicate FillPasses(w: Answer) { w.early == SUCCESS && w.late == SUCCESS }
  predicate BlitPasses(w: Answer) { w.early == SUCCESS && w.source == SUCCESS && w.late == SUCCESS }

  function Unless(skip: bool, status: int): int { if skip then SUCCESS else status }

  /** The status of queueing all tasks of a job of the border. */
  function FillsStatus(a: Args, e: Env): int {
    Then(Unless(a.top == 0, FillStatus(a, TopRect(a), e, e.top)),
    Then(Unless(a.bottom == 0, FillStatus(a, BottomRect(a), e, e.bottom)),
    Then(Unless(a.left == 0, FillStatus(a, LeftRect(a), e, e.left)),
         Unless(a.right == 0, FillStatus(a, RightRect(a), e, e.right)))))
  }
  function EdgesStatus(a: Args, e: Env): int {
    Then(Unless(a.top == 0, BlitStatus(a, a.src, TopSource(a), TopRect(a), e, e.top)),
         Unless(a.bottom == 0, BlitStatus(a, a.src, BottomSource(a), BottomRect(a), e, e.bottom)))
  }
  function SidesStatus(a: Args, e: Env): int {
    Unless(a.left == 0 && a.right == 0,
      Then(BlitStatus(a, a.dst, LeftSource(a), LeftRect(a), e, e.left),
           BlitStatus(a, a.dst, RightSource(a), RightRect(a), e, e.right)))
  }

  // ---- Which borders are admitted ----

  /** The copy is admitted: the source as a whole, and its place in the destination. */
  predicate CopyFits(a: Args, e: Env) {
    && a.src.format >= 0 && a.dst.format >= 0 && 0 <= a.left && 0 <= a.top
    && 2 <= a.src.width <= e.input.width && a.src.width <= a.src.wstride && a.src.width <= e.output.width
    && 2 <= a.src.height <= e.input.height && a.src.height <= a.src.hstride && a.src.height <= e.output.height
    && a.left + a.src.width <= a.dst.wstride && a.top + a.src.height <= a.dst.hstride
  }

  lemma CopyTakenIff(a: Args, e: Env)
    ensures CopyStatus(a, e) == SUCCESS <==> CopyFits(a, e) && BlitPasses(e.copy)
  {
    AcceptsIff(a.src, Rect(0, 0, 0, 0), e.input);
    AcceptsIff(a.dst, Rect(a.left, a.top, a.src.width, a.src.height), e.output);
  }

  /** A side is absent, or at least two pixels wide and within the limit. */
  predicate Side(n: int, limit: int) { n == 0 || 2 <= n <= limit }

  predicate TallFits(a: Args, limit: Resolution) { a.dst.height <= limit.height && a.dst.height <= a.dst.hstride }

  predicate FillsFit(a: Args, e: Env) {
    && Side(a.top, e.output.height) && Side(a.bottom, e.output.height)
    && Side(a.left, e.output.width) && Side(a.right, e.output.width)
    && (a.bottom != 0 ==> a.dst.height <= a.dst.hstride)
    && (a.left != 0 || a.right != 0 ==> TallFits(a, e.output))
    && (a.right != 0 ==> a.dst.width <= a.dst.wstride)
  }

  lemma FillsTakenIff(a: Args, e: Env)
    requires SizesMatch(a) && CopyFits(a, e)
    ensures FillsStatus(a, e) == SUCCESS <==>
              && FillsFit(a, e) && (a.top != 0 ==> FillPasses(e.top)) && (a.bottom != 0 ==> FillPasses(e.bottom))
              && (a.left != 0 ==> FillPasses(e.left)) && (a.right != 0 ==> FillPasses(e.right))
  {
    AcceptsIff(a.dst, TopRect(a), e.output);
    AcceptsIff(a.dst, BottomRect(a), e.output);
    AcceptsIff(a.dst, LeftRect(a), e.output);
    AcceptsIff(a.dst, RightRect(a), e.output);
  }

  /** Edges are read from the source: a reflected one may reach into the rows its stride leaves, a
      wrapped one not, at the top, and the other way round at the bottom. */
  predicate EdgesFit(a: Args, e: Env) {
    && Side(a.top, e.output.height) && Side(a.bottom, e.output.height)
    && a.top <= e.input.height && a.bottom <= e.input.height
    && a.top <= (if a.kind == REFLECT then a.src.hstride else a.src.height)
    && a.bottom <= (if a.kind == REFLECT then a.src.height else a.src.hstride)
    && (a.bottom != 0 ==> a.dst.height <= a.dst.hstride)
  }

  lemma EdgesTakenIff(a: Args, e: Env)
    requires SizesMatch(a) && CopyFits(a, e)
    ensures EdgesStatus(a, e) == SUCCESS <==>
              EdgesFit(a, e) && (a.top != 0 ==> BlitPasses(e.top)) && (a.bottom != 0 ==> BlitPasses(e.bottom))
  {
    AcceptsIff(a.src, TopSource(a), e.input);
    AcceptsIff(a.src, BottomSource(a), e.input);
    AcceptsIff(a.dst, TopRect(a), e.output);
    AcceptsIff(a.dst, BottomRect(a), e.output);
  }

  /** The side passes come in pairs, and read the destination as an input. */
  predicate SidesFit(a: Args, e: Env) {
    || (a.left == 0 && a.right == 0)
    || (&& 2 <= a.left <= e.output.width && a.left <= e.input.width
        && 2 <= a.right <= e.output.width && a.right <= e.input.width
        && TallFits(a, e.output) && TallFits(a, e.input) && a.dst.width <= a.dst.wstride
        && (if a.kind == REFLECT then 2 * a.left <= a.dst.wstride && a.right <= a.left + a.src.width
            else a.left + a.right <= a.dst.wstride))
  }

  lemma SidesTakenIff(a: Args, e: Env)
    requires SizesMatch(a) && CopyFits(a, e) && a.dst.height >= 2
    ensures SidesStatus(a, e) == SUCCESS <==>
              SidesFit(a, e) && (a.left != 0 || a.right != 0 ==> BlitPasses(e.left) && BlitPasses(e.right))
  {
    AcceptsIff(a.dst, LeftSource(a), e.input);
    AcceptsIff(a.dst, RightSource(a), e.input);
    AcceptsIff(a.dst, LeftRect(a), e.output);
    AcceptsIff(a.dst, RightRect(a), e.output);
  }

  predicate SizesMatch(a: Args) {
    a.src.width + a.left + a.right == a.dst.width && a.src.height + a.top + a.bottom == a.dst.height
  }

  /** What a complete border needs besides SUCCESS. The call tests its fences but reports
      SUCCESS without them, and for an unknown border type reports the cancel's own status. */
  predicate Completes(a: Args, e: Env) {
    Plain(a) || (a.kind in {CONSTANT, REFLECT, WRAP} && e.copyFenced && (HasEdges(a) ==> e.edgesFenced))
  }

  /** What SUCCESS needs. */
  predicate Succeeds(a: Args, sync: int, hasFence: bool, e: Env) {
    && (sync == 1 || hasFence) && SizesMatch(a) && CopyStatus(a, e) == SUCCESS
    && (e.copyFenced && (Plain(a) ==> sync == 1) ==> (Plain(a) ==> e.firstWait == SUCCESS) && Drawn(a, sync, e))
  }

  /** ... and what it needs once the copy is under way. */
  predicate Drawn(a: Args, sync: int, e: Env) {
    && e.begin
    && if a.kind !in {CONSTANT, REFLECT, WRAP} then e.cancel == SUCCESS
       else
         && (HasEdges(a) ==> EdgesStatus(a, e) == SUCCESS && e.edges == SUCCESS)
         && ((HasEdges(a) && !e.edgesFenced) || LastTaken(a, sync, e))
  }

  predicate LastTaken(a: Args, sync: int, e: Env) {
    && (HasEdges(a) ==> e.begin2)
    && (if a.kind == CONSTANT then FillsStatus(a, e) else SidesStatus(a, e)) == SUCCESS
    && (sync == 1 ==> e.wait == SUCCESS) && e.last == SUCCESS
  }

  /** A fill is refused by the first of three: the checks before rga_check_info, that, and the rest. */
  lemma FillRefusal(a: Args, r: Rect, e: Env, w: Answer)
    ensures w.early != SUCCESS ==> FillStatus(a, r, e, w) == w.early
    ensures w.early == SUCCESS && !Accepts(a.dst, r, e.output) ==>
              FillStatus(a, r, e, w) == CheckInfo(ApplyRect(a.dst, r), r, e.output) != SUCCESS
    ensures w.early == SUCCESS && Accepts(a.dst, r, e.output) ==> FillStatus(a, r, e, w) == w.late
  {
  }

  /** A blit by the first of five: the source is checked before the target. */
  lemma BlitRefusal(a: Args, from: Buffer, source: Rect, target: Rect, e: Env, w: Answer)
    ensures var status := BlitStatus(a, from, source, target, e, w);
            && (w.early != SUCCESS ==> status == w.early)
            && (w.early == SUCCESS && !Accepts(from, source, e.input) ==>
                  status == CheckInfo(ApplyRect(from, source), source, e.input) != SUCCESS)
            && (w.early == SUCCESS && Accepts(from, source, e.input) && w.source != SUCCESS ==> status == w.source)
            && (w.early == SUCCESS && Accepts(from, source, e.input) && w.source == SUCCESS ==>
                  status == if !Accepts(a.dst, target, e.output)
                            then CheckInfo(ApplyRect(a.dst, target), target, e.output) else w.late)
  {
  }

  /** The sides of a constant border are tried in the order top, bottom, left, right. */
  lemma FillsRefusal(a: Args, e: Env)
    ensures var top, bottom := FillStatus(a, TopRect(a), e, e.top), FillStatus(a, BottomRect(a), e, e.bottom);
            var left, right := FillStatus(a, LeftRect(a), e, e.left), FillStatus(a, RightRect(a), e, e.right);
            var topOk, bottomOk, leftOk := a.top == 0 || top == SUCCESS, a.bottom == 0 || bottom == SUCCESS,
                                           a.left == 0 || left == SUCCESS;
            && (!topOk ==> FillsStatus(a, e) == top)
            && (topOk && !bottomOk ==> FillsStatus(a, e) == bottom)
            && (topOk && bottomOk && !leftOk ==> FillsStatus(a, e) == left)
            && (topOk && bottomOk && leftOk ==> FillsStatus(a, e) == if a.right == 0 then SUCCESS else right)
  {
  }

  /** Edges are tried top first, sides left first and, unless both are absent, both. */
  lemma PassesRefusal(a: Args, e: Env)
    ensures var top := BlitStatus(a, a.src, TopSource(a), TopRect(a), e, e.top);
            var bottom := BlitStatus(a, a.src, BottomSource(a), BottomRect(a), e, e.bottom);
            EdgesStatus(a, e) == if a.top != 0 && top != SUCCESS then top else if a.bottom != 0 then bottom else SUCCESS
    ensures var left := BlitStatus(a, a.dst, LeftSource(a), LeftRect(a), e, e.left);
            var right := BlitStatus(a, a.dst, RightSource(a), RightRect(a), e, e.right);
            SidesStatus(a, e) ==
              if a.left == 0 && a.right == 0 then SUCCESS else if left != SUCCESS then left else right
  {
  }

  /** A border that is drawn and reported as a success had every answer it depends on. */
  lemma SuccessNeedsEveryAnswer(a: Args, sync: int, hasFence: bool, e: Env)
    requires Succeeds(a, sync, hasFence, e) && Completes(a, e)
    requires a.top != 0 || a.bottom != 0 || a.left != 0 || a.right != 0
    ensures sync == 1 || hasFence
    ensures e.copy.early == SUCCESS && e.copy.source == SUCCESS && e.copy.late == SUCCESS && e.copyFenced && e.begin
    ensures a.top != 0 ==> e.top.early == SUCCESS && e.top.late == SUCCESS
    ensures a.bottom != 0 ==> e.bottom.early == SUCCESS && e.bottom.late == SUCCESS
    ensures a.left != 0 ==> e.left.early == SUCCESS && e.left.late == SUCCESS
    ensures a.right != 0 ==> e.right.early == SUCCESS && e.right.late == SUCCESS
    ensures a.kind != CONSTANT ==>
              && (a.top != 0 ==> e.top.source == SUCCESS) && (a.bottom != 0 ==> e.bottom.source == SUCCESS)
              && (a.left != 0 ==> e.left.source == SUCCESS) && (a.right != 0 ==> e.right.source == SUCCESS)
              && (a.top != 0 || a.bottom != 0 ==> e.edges == SUCCESS && e.edgesFenced && e.begin2)
    ensures (sync == 1 ==> e.wait == SUCCESS) && e.last == SUCCESS
  {
    SuccessMeans(a, sync, hasFence, e);
    CopyTakenIff(a, e);
    FillsTakenIff(a, e);
    EdgesTakenIff(a, e);
    SidesTakenIff(a, e);
  }

  /** And every such answer, with arguments that fit, makes a success. */
  lemma EveryAnswerSuffices(a: Args, sync: int, hasFence: bool, e: Env)
    requires a.kind in {CONSTANT, REFLECT, WRAP} && (sync == 1 || hasFence) && SizesMatch(a) && CopyFits(a, e)
    requires if a.kind == CONSTANT then FillsFit(a, e) else EdgesFit(a, e) && SidesFit(a, e)
    requires forall w | w in {e.copy, e.top, e.bottom, e.left, e.right} ::
               w.early == SUCCESS && w.source == SUCCESS && w.late == SUCCESS
    requires e.copyFenced && e.begin && e.edgesFenced && e.begin2
    requires e.firstWait == SUCCESS && e.edges == SUCCESS && e.wait == SUCCESS && e.last == SUCCESS
    ensures Succeeds(a, sync, hasFence, e) && Completes(a, e)
  {
    assert BlitPasses(e.copy) && BlitPasses(e.top) && BlitPasses(e.bottom) && BlitPasses(e.left) && BlitPasses(e.right);
    CopyTakenIff(a, e);
    FillsTakenIff(a, e);
    EdgesTakenIff(a, e);
    SidesTakenIff(a, e);
  }

  /** A border to be drawn is refused if some side of it is one pixel wide or negative, or if it is
      reflected or wrapped on one of left and right alone. */
  lemma NarrowBorderRefused(a: Args, sync: int, hasFence: bool, e: Env)
    requires Completes(a, e) && !Plain(a)
    requires || a.top == 1 || a.bottom == 1 || a.left == 1 || a.right == 1
             || a.top < 0 || a.bottom < 0 || a.left < 0 || a.right < 0
             || (a.kind != CONSTANT && (a.left == 0) != (a.right == 0))
    ensures !Succeeds(a, sync, hasFence, e)
  {
    CopyTakenIff(a, e);
    if SizesMatch(a) && CopyFits(a, e) {
      FillsTakenIff(a, e);
      EdgesTakenIff(a, e);
      if a.dst.height >= 2 {
        SidesTakenIff(a, e);
      }
    }
  }

  /** The four fills of a constant border, queued one by one; the first refusal ends it. */
  method QueueFills(a: Args, e: Env) returns (status: int, job: Job)
    ensures status == FillsStatus(a, e)
    ensures status == SUCCESS ==> job == FillJob(a)
    ensures status == SUCCESS ==> 0 <= a.top && 0 <= a.bottom && 0 <= a.left && 0 <= a.right
  {
    status, job := SUCCESS, [];
    if a.top != 0 {
      status := FillStatus(a, TopRect(a), e, e.top);
      if status != SUCCESS { return; }
      job := job + [Fill(TopRect(a), a.value)];
    }
    if a.bottom != 0 {
      status := FillStatus(a, BottomRect(a), e, e.bottom);
      if status != SUCCESS { return; }
      job := job + [Fill(BottomRect(a), a.value)];
    }
    if a.left != 0 {
      status := FillStatus(a, LeftRect(a), e, e.left);
      if status != SUCCESS { return; }
      job := job + [Fill(LeftRect(a), a.value)];
    }
    if a.right != 0 {
      status := FillStatus(a, RightRect(a), e, e.right);
      if status != SUCCESS { return; }
      job := job + [Fill(RightRect(a), a.value)];
    }
  }

  /** The in-place side passes are queued together or not at all, so a border on one side
      only is refused for the empty rectangle of the other. */
  method QueueSides(a: Args, e: Env) returns (status: int, job: Job)
    ensures status == SidesStatus(a, e)
    ensures status == SUCCESS ==> job == SideJob(a)
    ensures status == SUCCESS && LeftRect(a).height > 0 ==>
              (0 < a.left && 0 < a.right) || (a.left == 0 && a.right == 0)
  {
    status, job := SUCCESS, [];
    if a.left != 0 || a.right != 0 {
      status := BlitStatus(a, a.dst, LeftSource(a), LeftRect(a), e, e.left);
      if status != SUCCESS { return; }
      status := BlitStatus(a, a.dst, RightSource(a), RightRect(a), e, e.right);
      if status != SUCCESS { return; }
      job := [LeftTask(a), RightTask(a)];
    }
  }

  method QueueEdges(a: Args, e: Env) returns (status: int, job: Job)
    ensures status == EdgesStatus(a, e)
    ensures status == SUCCESS ==> job == EdgeJob(a) && 0 <= a.top && 0 <= a.bottom
  {
    status, job := SUCCESS, [];
    if a.top != 0 {
      status := BlitStatus(a, a.src, TopSource(a), TopRect(a), e, e.top);
      if status != SUCCESS { return; }
      job := job + [TopTask(a)];
    }
    if a.bottom != 0 {
      status := BlitStatus(a, a.src, BottomSource(a), BottomRect(a), e, e.bottom);
      if status != SUCCESS { return; }
      job := job + [BottomTask(a)];
    }
  }

  /** A border that is drawn has sensible arguments. */
  lemma SuccessMeans(a: Args, sync: int, hasFence: bool, e: Env)
    requires Succeeds(a, sync, hasFence, e) && Completes(a, e)
    ensures SizesMatch(a) && a.src.width > 0 && a.src.height > 0
    ensures 0 <= a.top && 0 <= a.bottom && 0 <= a.left && 0 <= a.right
  {
    CopyTakenIff(a, e);
    if !Plain(a) && (a.top < 0 || a.bottom < 0 || a.left < 0 || a.right < 0) {
      NarrowBorderRefused(a, sync, hasFence, e);
    }
  }

  /** immakeBorder; `subs` are the jobs it got the driver to take. When it reports SUCCESS the
      border is drawn exactly when `Completes` holds, and then the arguments make sense. Whatever
      it reports, no job other than the border's was issued, and none out of turn. */
  method MakeBorder(a: Args, sync: int, hasFence: bool, e: Env) returns (status: int, subs: seq<Submission>)
    ensures status == SUCCESS <==> Succeeds(a, sync, hasFence, e)
    ensures status == SUCCESS ==> (Bordered(a, subs) <==> Completes(a, e))
    ensures status == SUCCESS && Completes(a, e) ==>
              && SizesMatch(a) && a.src.width > 0 && a.src.height > 0
              && 0 <= a.top && 0 <= a.bottom && 0 <= a.left && 0 <= a.right
    ensures (sync == 1 || hasFence) && SizesMatch(a) && CopyStatus(a, e) == SUCCESS && !e.copyFenced ==>
              status == SUCCESS && subs == Plan(a)[..1]
    ensures subs <= Plan(a)
    // A job is among those issued only if its own imendJob took it.
    ensures |subs| > 1 ==> (if a.kind != CONSTANT && (a.top != 0 || a.bottom != 0) then e.edges else e.last) == SUCCESS
    ensures |subs| > 2 ==> e.last == SUCCESS
    // A border drawn with SUCCESS had every answer it depends on.
    ensures status == SUCCESS && Completes(a, e) && (a.top != 0 || a.bottom != 0 || a.left != 0 || a.right != 0) ==>
              && e.begin && e.last == SUCCESS && (sync == 1 ==> e.wait == SUCCESS)
              && (a.kind != CONSTANT && (a.top != 0 || a.bottom != 0) ==> e.edges == SUCCESS && e.begin2)
    ensures sync != 1 && !hasFence ==> status == INVALID_PARAM && subs == []
    ensures (sync == 1 || hasFence) && !SizesMatch(a) ==> status == ILLEGAL_PARAM && subs == []
    ensures (sync == 1 || hasFence) && SizesMatch(a) && CopyStatus(a, e) != SUCCESS ==>
              status == CopyStatus(a, e) && subs == []
    ensures && (sync == 1 || hasFence) && SizesMatch(a) && CopyStatus(a, e) == SUCCESS && e.copyFenced
            && a.top == 0 && a.bottom == 0 && a.left == 0 && a.right == 0 && (sync != 1 || e.firstWait != SUCCESS) ==>
              status == (if sync == 1 then e.firstWait else SUCCESS) && subs == Plan(a)[..1]
    // Past the copy, the first answer that is not a success is the status.
    ensures var plain := a.top == 0 && a.bottom == 0 && a.left == 0 && a.right == 0;
            var copied := (sync == 1 || hasFence) && SizesMatch(a) && CopyStatus(a, e) == SUCCESS && e.copyFenced;
            var known := a.kind in {CONSTANT, REFLECT, WRAP};
            var edges := a.kind != CONSTANT && (a.top != 0 || a.bottom != 0);
            var edged := EdgesStatus(a, e) == SUCCESS && e.edges == SUCCESS && e.edgesFenced;
            var last := if a.kind == CONSTANT then FillsStatus(a, e) else SidesStatus(a, e);
            copied && (plain ==> sync == 1 && e.firstWait == SUCCESS) ==>
              && (!e.begin ==> status == FAILED)
              && (e.begin && !known ==> status == e.cancel)
              && (e.begin && known && edges && !edged ==>
                    status == if EdgesStatus(a, e) != SUCCESS then EdgesStatus(a, e) else e.edges)
              && (e.begin && known && edges && edged && !e.begin2 ==> status == FAILED)
              && (e.begin && known && (edges ==> edged && e.begin2) ==>
                    status == if last != SUCCESS then last
                              else if sync == 1 && e.wait != SUCCESS then e.wait else e.last)
  {
    subs := [];
    if sync != 1 && !hasFence {
      return INVALID_PARAM, subs;
    }
    if !SizesMatch(a) {
      return ILLEGAL_PARAM, subs;
    }
    status := CopyStatus(a, e);
    if status != SUCCESS {
      return;
    }
    subs := [Submission([CopyTask(a)], None)];
    assert subs == Plan(a)[..1];
    if !e.copyFenced {
      return;
    }
    if a.top == 0 && a.bottom == 0 && a.left == 0 && a.right == 0 {
      if sync == 1 {
        if e.firstWait != SUCCESS { return e.firstWait, subs; }
      } else {
        return SUCCESS, subs;
      }
    }
    status, subs := DrawBorder(a, sync, e, subs);
    if status == SUCCESS && Completes(a, e) {
      SuccessMeans(a, sync, hasFence, e);
    }
  }

  /** The rest of immakeBorder, from imbeginJob on. */
  method DrawBorder(a: Args, sync: int, e: Env, copied: seq<Submission>) returns (status: int, subs: seq<Submission>)
    requires copied == Plan(a)[..1] && e.copyFenced
    ensures status == SUCCESS <==> Drawn(a, sync, e)
    ensures copied <= subs <= Plan(a)
    // A job is among those issued only if its own imendJob took it.
    ensures |subs| > 1 ==> (if a.kind != CONSTANT && (a.top != 0 || a.bottom != 0) then e.edges else e.last) == SUCCESS
    ensures |subs| > 2 ==> e.last == SUCCESS
    // The first answer that is not a success is the status.
    ensures !e.begin ==> status == FAILED
    ensures e.begin && a.kind !in {CONSTANT, REFLECT, WRAP} ==> status == e.cancel
    ensures var known := e.begin && a.kind in {CONSTANT, REFLECT, WRAP};
            var edges := a.kind != CONSTANT && (a.top != 0 || a.bottom != 0);
            var queued := EdgesStatus(a, e) == SUCCESS;
            && (known && edges && !queued ==> status == EdgesStatus(a, e))
            && (known && edges && queued && e.edges != SUCCESS ==> status == e.edges)
            && (known && edges && queued && e.edges == SUCCESS && e.edgesFenced && !e.begin2 ==> status == FAILED)
    ensures var edges := a.kind != CONSTANT && (a.top != 0 || a.bottom != 0);
            var last := if a.kind == CONSTANT then FillsStatus(a, e) else SidesStatus(a, e);
            (&& e.begin && a.kind in {CONSTANT, REFLECT, WRAP}
             && (edges ==> EdgesStatus(a, e) == SUCCESS && e.edges == SUCCESS && e.edgesFenced && e.begin2)) ==>
              status == if last != SUCCESS then last else if sync == 1 && e.wait != SUCCESS then e.wait else e.last
    ensures status == SUCCESS && a.kind !in {CONSTANT, REFLECT, WRAP} ==> subs == copied
    ensures status == SUCCESS && a.kind in {CONSTANT, REFLECT, WRAP} ==>
              subs == if HasEdges(a) && !e.edgesFenced then Plan(a)[..2] else Plan(a)
  {
    subs := copied;
    if !e.begin {
      return FAILED, subs;
    }
    if a.kind !in {CONSTANT, REFLECT, WRAP} {
      return e.cancel, subs;
    }
    var job: Job;
    var fence := 0;
    if HasEdges(a) {
      status, job := QueueEdges(a, e);
      if status != SUCCESS { return; }
      if e.edges != SUCCESS { return e.edges, subs; }
      subs := subs + [Submission(job, Some(fence))];
      if !e.edgesFenced {
        return;
      }
      fence := 1;
      if !e.begin2 { return FAILED, subs; }
    }
    if a.kind == CONSTANT {
      status, job := QueueFills(a, e);
    } else {
      status, job := QueueSides(a, e);
    }
    if status != SUCCESS { return; }
    if sync == 1 && e.wait != SUCCESS { return e.wait, subs; }
    if e.last != SUCCESS { return e.last, subs; }
    subs := subs + [Submission(job, Some(fence))];
  }

  /** A hardware and a driver that agree to everything. */
  const Willing :=
    var pass, limit := Answer(SUCCESS, SUCCESS, SUCCESS), Resolution(4096, 4096);
    Env(limit, limit, pass, true, SUCCESS, true, pass, pass, pass, pass,
        SUCCESS, true, true, SUCCESS, SUCCESS, SUCCESS)

  /** SUCCESS without a border: a driver that returns no fence for the copy. */
  method UnfencedExample() returns (a: Args, status: int, subs: seq<Submission>)
    ensures Drawable(a) && a.top > 0 && status == SUCCESS && !Bordered(a, subs) && subs == Plan(a)[..1]
  {
    a := Args(Buffer(8, 8, 8, 8, 0), Buffer(8, 10, 8, 10, 0), 2, 0, 0, 0, REFLECT, 0);
    var e := Willing.(copyFenced := false);
    assert CopyStatus(a, e) == SUCCESS;
    status, subs := MakeBorder(a, 1, false, e);
  }

  /** SUCCESS without a border: a border type there is none of, whose job is cancelled. */
  method UnknownTypeExample() returns (a: Args, status: int, subs: seq<Submission>)
    ensures a.kind !in {CONSTANT, REFLECT, WRAP} && a.top > 0
    ensures status == SUCCESS && !Bordered(a, subs) && subs <= Plan(a)
  {
    a := Args(Buffer(8, 8, 8, 8, 0), Buffer(8, 10, 8, 10, 0), 2, 0, 0, 0, 1, 0);
    assert CopyStatus(a, Willing) == SUCCESS;
    status, subs := MakeBorder(a, 1, false, Willing);
  }
}
