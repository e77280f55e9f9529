/**
 * Rectangle admission and the destination windows of a blit (im2d_api/src/im2d_impl.cpp,
 * core/NormalRgaApi.cpp).
 */
module Windows {
  import opened Common

  datatype Rect = Rect(x: int, y: int, width: int, height: int)

  datatype Buffer = Buffer(width: int, height: int, wstride: int, hstride: int, format: int)

  datatype Resolution = Resolution(width: int, height: int)

  predicate Inside(r: Rect, x: int, y: int) {
    r.x <= x < r.x + r.width && r.y <= y < r.y + r.height
  }

  /** rga_apply_rect: a non-empty rectangle replaces the image size. */
  function ApplyRect(b: Buffer, r: Rect): Buffer {
    if r.width > 0 && r.height > 0 then b.(width := r.width, height := r.height) else b
  }

  /** The window rga_task_submit requests for a rectangle: an empty one stands for the image size,
      moved by its offset. */
  function Region(b: Buffer, r: Rect): Rect {
    var image := ApplyRect(b, r);
    Rect(r.x, r.y, image.width, image.height)
  }

  /** rga_check_info */
  function CheckInfo(b: Buffer, r: Rect, limit: Resolution): int {
    if b.width <= 0 || b.height <= 0 || b.format < 0 then ILLEGAL_PARAM
    else if b.width < 2 || b.height < 2 then ILLEGAL_PARAM
    else if b.wstride < b.width || b.hstride < b.height then INVALID_PARAM
    else if (r.width == 0 && r.height > 0) || (r.width > 0 && r.height == 0) then ILLEGAL_PARAM
    else if r.width < 0 || r.height < 0 || r.x < 0 || r.y < 0 then ILLEGAL_PARAM
    else if r.width + r.x > b.wstride || r.height + r.y > b.hstride then INVALID_PARAM
    else if b.width > limit.width || b.height > limit.height then NOT_SUPPORTED
    else if (r.width > 0 && r.width > limit.width) || (r.height > 0 && r.height > limit.height) then NOT_SUPPORTED
    else NOERROR
  }

  /** The rectangle passes rga_check_info the way rga_task_submit calls it. */
  predicate Accepts(b: Buffer, r: Rect, limit: Resolution) {
    CheckInfo(ApplyRect(b, r), r, limit) == NOERROR
  }

  /** Only a rectangle with both sides positive stands for itself. */
  lemma RegionIs(b: Buffer, r: Rect)
    ensures r.width > 0 && r.height > 0 ==> Region(b, r) == r
    ensures r.width <= 0 || r.height <= 0 ==> Region(b, r) == Rect(r.x, r.y, b.width, b.height)
  {
  }

  /** Which code a refused image and rectangle get: sizes and signs first, then strides, then limits. */
  lemma CheckInfoCodes(b: Buffer, r: Rect, limit: Resolution)
    ensures var code := CheckInfo(b, r, limit);
            var sized := b.width >= 2 && b.height >= 2 && b.format >= 0;
            var strides := b.width <= b.wstride && b.height <= b.hstride;
            var formed := r.x >= 0 && r.y >= 0 && r.width >= 0 && r.height >= 0 && (r.width == 0 <==> r.height == 0);
            var placed := r.x + r.width <= b.wstride && r.y + r.height <= b.hstride;
            var limited := b.width <= limit.width && b.height <= limit.height
                           && (r.width > 0 ==> r.width <= limit.width) && (r.height > 0 ==> r.height <= limit.height);
            && (code == -4 <==> !sized || (strides && !formed))
            && (code == -3 <==> sized && (!strides || (formed && !placed)))
            && (code == -1 <==> sized && strides && formed && placed && !limited)
            && (code == 2 <==> sized && strides && formed && placed && limited)
  {
  }

  /** What the checks around rga_check_info answer to one request, SUCCESS or the code of a refusal:
      those before it (session, addresses, formats, features), those on the source between the two
      calls (format, alignment), and all that follow (format, alignment, building the request, the
      driver). */
  datatype Answer = Answer(early: int, source: int, late: int)

  /** The status of rga_check_info, for what comes after it. */
  function InfoStatus(b: Buffer, r: Rect, limit: Resolution): int {
    if Accepts(b, r, limit) then SUCCESS else CheckInfo(ApplyRect(b, r), r, limit)
  }

  predicate Empty(r: Rect) { r.width == 0 && r.height == 0 }

  /** A rectangle is admitted exactly when its offset and end lie inside the strides and the size
      it asks for, its own or that of the image if it is empty, is at least two pixels each way and
      within the strides and the hardware limit. */
  lemma AcceptsIff(b: Buffer, r: Rect, limit: Resolution)
    ensures Accepts(b, r, limit) <==>
              && b.format >= 0
              && 0 <= r.x && r.x + r.width <= b.wstride && 0 <= r.y && r.y + r.height <= b.hstride
              && (Empty(r) || (r.width > 0 && r.height > 0))
              && 2 <= Region(b, r).width <= limit.width && Region(b, r).width <= b.wstride
              && 2 <= Region(b, r).height <= limit.height && Region(b, r).height <= b.hstride
  {
  }

  /** The window lies inside the virtual image. */
  predicate Contained(b: Buffer, w: Rect) {
    0 <= w.x && w.x + w.width <= b.wstride && 0 <= w.y && w.y + w.height <= b.hstride
  }

  /** An admitted fill stays inside the virtual image exactly when it is not empty, or is moved by no
      more than the strides leave. */
  lemma FillContainedIff(b: Buffer, r: Rect, limit: Resolution)
    requires Accepts(b, r, limit)
    ensures Contained(b, Region(b, r)) <==>
              !Empty(r) || (r.x + b.width <= b.wstride && r.y + b.height <= b.hstride)
  {
    AcceptsIff(b, r, limit);
  }

  /** An admitted fill that reaches past the image: an empty rectangle with an offset. */
  lemma FillEscapesExample() returns (b: Buffer, r: Rect, limit: Resolution)
    ensures Accepts(b, r, limit) && !Contained(b, Region(b, r))
  {
    b, r, limit := Buffer(100, 100, 100, 100, 0), Rect(10, 5, 0, 0), Resolution(4096, 4096);
  }

  // ---------------------------------------------------------------------------------
  // Rotation and the windows of a blit request.

  /** rga_rect_t */
  datatype Area = Area(xoffset: int, yoffset: int, width: int, height: int, wstride: int, hstride: int, yuv: bool)

  /** checkRectForRga */
  predicate AreaOk(a: Area) {
    && !(a.xoffset < 0 || a.yoffset < 0)
    && !(a.width < 2 || a.height < 2)
    && !(a.xoffset + a.width > a.wstride)
    && !(a.yoffset + a.height > a.hstride)
    && !(a.yuv && (a.wstride % 4 != 0 || a.xoffset % 2 != 0 || a.width % 2 != 0 ||
                   a.yoffset % 2 != 0 || a.height % 2 != 0 || a.hstride % 2 != 0))
  }

  /** An area is good exactly when it starts inside, is at least 2 x 2, ends within its strides, and,
      in a YUV format, is even throughout with a width stride of whole words. */
  lemma AreaOkIff(a: Area)
    ensures AreaOk(a) <==>
              && a.xoffset >= 0 && a.yoffset >= 0 && a.width >= 2 && a.height >= 2
              && a.xoffset + a.width <= a.wstride && a.yoffset + a.height <= a.hstride
              && (a.yuv ==> && a.xoffset % 2 == 0 && a.width % 2 == 0 && a.yoffset % 2 == 0 && a.height % 2 == 0
                            && a.wstride % 4 == 0 && a.hstride % 2 == 0)
  {
  }

  datatype Img = Img(actW: int, actH: int, xOffset: int, yOffset: int, virW: int, virH: int)

  /** The fields of a blit request that place pixels; sina and cosa are 16.16 fixed point. */
  datatype BlitReq = BlitReq(src: Img, dst: Img, pat: Img, sina: int, cosa: int, rotateMode: int)

  const FLIP_H := 1
  const FLIP_V := 2
  const ROT_180 := 3
  const ROT_90 := 4
  const ROT_270 := 7
  const FLIP_H_V := 8

  function SinTable(angle: int): int { if angle == 90 then 65536 else if angle == 270 then -65536 else 0 }
  function CosTable(angle: int): int { if angle == 0 then 65536 else if angle == 180 then -65536 else 0 }

  function U16(v: int): int { v % 0x1_0000 }

  function Stored(a: Area, actW: int, actH: int): Img {
    Img(U16(actW), U16(actH), U16(a.xoffset), U16(a.yoffset), U16(a.wstride), U16(a.hstride))
  }

  /** A height stride of zero means the height. */
  function Normal(a: Area): Area { if a.hstride == 0 then a.(hstride := a.height) else a }

  function NormalThird(src1: Option<Area>): Option<Area> {
    if src1.Some? && src1.value.width > 0 && src1.value.height > 0 then Some(Normal(src1.value)) else src1
  }

  // ---- Scaling ----

  /** What decides about scaling: the driver generation, the first core's version and the widest
      image the vertical bicubic filter takes. */
  datatype Engine = Engine(rga1: bool, major: int, minor: int, bicubicLimit: int)

  const DEFAULT := 0
  const LINEAR := 1
  const BICUBIC := 2
  const AVERAGE := 3

  /** The requested filters, each 0..15. */
  datatype Interp = Interp(horiz: int, verti: int)

  /** How much smaller the image gets each way. Only a plain quarter turn swaps the axes, not one
      packed together with a flip. */
  function Scale(src: Area, to: Area, rotation: int): (real, real)
    requires to.width > 0 && to.height > 0
  {
    var (w, h) := if rotation == ROT_90 || rotation == ROT_270 then (to.height, to.width) else (to.width, to.height);
    (src.width as real / w as real, src.height as real / h as real)
  }

  /** The scale limits, written as in the code: the lower ones are integer quotients. */
  predicate ScaleRefused(e: Engine, h: real, v: real) {
    || (e.rga1 && e.minor <= 0 && (h < (1 / 2) as real || v < (1 / 2) as real))
    || (e.rga1 && e.major <= 2 && (h < (1 / 8) as real || h > 8.0 || v < (1 / 8) as real || v > 8.0))
    || h < (1 / 16) as real || h > 16.0 || v < (1 / 16) as real || v > 16.0
  }

  /** So only reduction is limited: to 16 times, and to 8 on the oldest engines. */
  lemma ScaleAcceptedIff(e: Engine, h: real, v: real)
    requires h >= 0.0 && v >= 0.0
    ensures !ScaleRefused(e, h, v) <==> h <= 16.0 && v <= 16.0 && (e.rga1 && e.major <= 2 ==> h <= 8.0 && v <= 8.0)
  {
  }

  predicate TooWideForBicubic(e: Engine, src: Area, dst: Area, h: real) {
    src.width > e.bicubicLimit || (dst.width > e.bicubicLimit && h > 1.0)
  }

  /** The filters used: defaults are replaced according to the scale. */
  function Chosen(e: Engine, i: Interp, src: Area, dst: Area, h: real, v: real): Interp {
    Interp(
      if i.horiz != DEFAULT then i.horiz else if h > 1.0 then AVERAGE else if h < 1.0 then BICUBIC else DEFAULT,
      if i.verti != DEFAULT then i.verti else if v > 1.0 then AVERAGE
      else if v < 1.0 then (if TooWideForBicubic(e, src, dst, h) then LINEAR else BICUBIC) else DEFAULT)
  }

  predicate InterpRefused(e: Engine, i: Interp, src: Area, dst: Area, h: real, v: real) {
    || (i.verti == BICUBIC && v < 1.0 && TooWideForBicubic(e, src, dst, h))
    || (((v > 1.0 && i.verti == LINEAR) || (h > 1.0 && i.horiz == LINEAR)) && (h < 1.0 || v < 1.0))
    || (v > 1.0 && i.verti == LINEAR && dst.width > 4096)
  }

  predicate ScalingRefused(e: Engine, i: Interp, src: Area, dst: Area, src1: Option<Area>, rotation: int)
    requires AreaOk(dst) && (src1.Some? ==> AreaOk(src1.value))
  {
    var (h, v) := Scale(src, if src1.Some? then src1.value else dst, rotation);
    ScaleRefused(e, h, v) || InterpRefused(e, Chosen(e, i, src, dst, h, v), src, dst, h, v)
  }

  /** With the default filters nothing but the scale itself is refused. */
  lemma DefaultFiltersNeverRefused(e: Engine, src: Area, dst: Area, h: real, v: real)
    ensures !InterpRefused(e, Chosen(e, Interp(DEFAULT, DEFAULT), src, dst, h, v), src, dst, h, v)
  {
  }

  /** rga_check_limit, which rga_task_submit calls before it builds the request. */
  predicate WithinLimit(src: Area, dst: Area, limit: nat, turned: bool)
    requires src.width > 0 && src.height > 0 && dst.width > 0 && dst.height > 0
  {
    var (w, h) := if turned then (dst.height as real, dst.width as real) else (dst.width as real, dst.height as real);
    !(src.width as real / w > limit as real || src.height as real / h > limit as real ||
      w / src.width as real > limit as real || h / src.height as real > limit as real)
  }

  /** rga_check_limit admits exactly the scalings by at most the limit either way. */
  lemma WithinLimitIff(src: Area, dst: Area, limit: nat, turned: bool)
    requires src.width > 0 && src.height > 0 && dst.width > 0 && dst.height > 0
    ensures var (w, h) := if turned then (dst.height, dst.width) else (dst.width, dst.height);
            WithinLimit(src, dst, limit, turned) <==>
              && src.width <= limit * w && src.height <= limit * h
              && w <= limit * src.width && h <= limit * src.height
  {
    var (w, h) := if turned then (dst.height, dst.width) else (dst.width, dst.height);
    QuotientAbove(src.width, w, limit);
    QuotientAbove(src.height, h, limit);
    QuotientAbove(w, src.width, limit);
    QuotientAbove(h, src.height, limit);
  }

  /** A filter that is asked for is used. The default averages what is reduced and otherwise uses
      the bicubic filter, but the vertical one falls back to linear for images too wide for it. */
  lemma ChosenFilters(e: Engine, i: Interp, src: Area, dst: Area, h: real, v: real)
    ensures var c := Chosen(e, i, src, dst, h, v);
            var wide := src.width > e.bicubicLimit || (dst.width > e.bicubicLimit && h > 1.0);
            && (i.horiz != 0 ==> c.horiz == i.horiz) && (i.verti != 0 ==> c.verti == i.verti)
            && (i.horiz == 0 && h > 1.0 ==> c.horiz == 3) && (i.verti == 0 && v > 1.0 ==> c.verti == 3)
            && (i.horiz == 0 && h < 1.0 ==> c.horiz == 2)
            && (i.verti == 0 && v < 1.0 ==> c.verti == if wide then 1 else 2)
            && (i.horiz == 0 && h == 1.0 ==> c.horiz == 0) && (i.verti == 0 && v == 1.0 ==> c.verti == 0)
  {
  }

  /** What is refused of the filters used: a bicubic enlargement of too wide an image; a linear
      reduction while the other side grows; a linear vertical reduction into more than 4096 columns. */
  lemma FiltersRefused(e: Engine, i: Interp, src: Area, dst: Area, h: real, v: real)
    ensures var refused := InterpRefused(e, i, src, dst, h, v);
            var wide := src.width > e.bicubicLimit || (dst.width > e.bicubicLimit && h > 1.0);
            && (v > 1.0 && i.verti == 1 ==> (refused <==> h < 1.0 || dst.width > 4096))
            && (v > 1.0 && i.verti != 1 ==> (refused <==> false))
            && (v < 1.0 ==> (refused <==> (i.verti == 2 && wide) || (h > 1.0 && i.horiz == 1)))
            && (v == 1.0 ==> !refused)
  {
  }

  predicate QuarterTurn(rotation: int) { rotation % 16 == ROT_90 || rotation % 16 == ROT_270 }

  /** The most an engine reduces. */
  function Reduction(e: Engine): nat { if e.rga1 && e.major <= 2 then 8 else 16 }

  /** The scale check refuses exactly what is reduced too much, along the axes it takes for the
      source's. */
  lemma ScaleRefusedIff(e: Engine, src: Area, dst: Area, rotation: nat)
    requires AreaOk(src) && AreaOk(dst)
    ensures var (h, v) := Scale(src, dst, rotation);
            var (w, t) := if rotation == ROT_90 || rotation == ROT_270 then (dst.height, dst.width)
                          else (dst.width, dst.height);
            ScaleRefused(e, h, v) <==> src.width > Reduction(e) * w || src.height > Reduction(e) * t
  {
    var (h, v) := Scale(src, dst, rotation);
    var turned := rotation == ROT_90 || rotation == ROT_270;
    var (w, t) := if turned then (dst.height, dst.width) else (dst.width, dst.height);
    QuotientAbove(src.width, w, Reduction(e));
    QuotientAbove(src.height, t, Reduction(e));
    ScaleAcceptedIff(e, h, v);
  }

  /** After rga_check_limit with a limit of at most that, the request builder's own scale check
      refuses exactly the quarter turns packed with a flip that look too much reduced unturned. */
  lemma LimitImpliesScale(e: Engine, src: Area, dst: Area, limit: nat, rotation: nat)
    requires AreaOk(src) && AreaOk(dst) && limit <= Reduction(e)
    requires WithinLimit(src, dst, limit, QuarterTurn(rotation))
    ensures var (h, v) := Scale(src, dst, rotation);
            ScaleRefused(e, h, v) <==>
              && QuarterTurn(rotation) && rotation >= 16
              && (src.width > Reduction(e) * dst.width || src.height > Reduction(e) * dst.height)
  {
    ScaleRefusedIff(e, src, dst, rotation);
    var (w, t) := if QuarterTurn(rotation) then (dst.height, dst.width) else (dst.width, dst.height);
    QuotientAbove(src.width, w, Reduction(e));
    QuotientAbove(src.height, t, Reduction(e));
    assert src.width as real / w as real <= limit as real <= Reduction(e) as real;
  }

  lemma QuotientAbove(x: nat, y: nat, k: nat)
    requires y > 0
    ensures x as real / y as real >= 0.0 && (x as real / y as real > k as real <==> x > k * y)
  {
    var q := x as real / y as real;
    assert q * y as real == x as real;
    assert (k * y) as real == k as real * y as real;
    if q > k as real {
      OrderedProducts(k as real, q, y as real);
    } else if q < k as real {
      OrderedProducts(q, k as real, y as real);
    }
  }

  lemma OrderedProducts(a: real, b: real, y: real)
    requires a < b && y > 0.0
    ensures a * y < b * y
  {
    assert (b - a) * y > 0.0;
  }

  /** A quarter turn with a flip, without any scaling, that it refuses. */
  lemma PackedTurnExample() returns (src: Area, dst: Area, e: Engine, rotation: nat)
    ensures AreaOk(src) && AreaOk(dst) && QuarterTurn(rotation) && src.width == dst.height && src.height == dst.width
    ensures WithinLimit(src, dst, 1, true) && !ScaleRefused(e, 1.0, 1.0)
    ensures var (h, v) := Scale(src, dst, rotation); ScaleRefused(e, h, v)
  {
    src, dst := Area(0, 0, 40, 2, 40, 2, false), Area(0, 0, 2, 40, 2, 40, false);
    e, rotation := Engine(false, 3, 2, 4096), ROT_90 + 16 * FLIP_V;
    assert Scale(src, dst, rotation) == (20.0, 2.0 / 40.0);
  }

  /** On its own it lets a 2 x 2 image grow four thousand times. */
  lemma EnlargingIsUnlimited() returns (src: Area, dst: Area, e: Engine)
    ensures src.width == 2 && dst.width == 8000
    ensures GenerateBlit(e, Interp(DEFAULT, DEFAULT), src, dst, None, 0).Some?
  {
    src, dst := Area(0, 0, 2, 2, 2, 2, false), Area(0, 0, 8000, 8000, 8000, 8000, false);
    e := Engine(false, 3, 2, 4096);
    assert Scale(src, dst, 0) == (2.0 / 8000.0, 2.0 / 8000.0);
  }

  // ---- The request ----

  function RotateMode(rotation: int, stretch: bool): int {
    var low, high := rotation % 16, rotation / 16 % 16;
    (if low == FLIP_H then 2 else if low == FLIP_V then 3 else if low == FLIP_H_V then 4
     else if low == ROT_90 || low == ROT_180 || low == ROT_270 then 1 else if stretch then 1 else 0) +
    16 * (if high == FLIP_H then 2 else if high == FLIP_V then 3 else if high == FLIP_H_V then 4 else 0)
  }

  /** The mode word: the low code's own, 1 for any turn, or whether the blit stretches; a flip packed
      above it adds its own sixteenfold. */
  lemma RotateModes(rotation: nat, stretch: bool)
    ensures var mode := RotateMode(rotation, stretch);
            && (rotation % 16 == 1 ==> mode % 16 == 2) && (rotation % 16 == 2 ==> mode % 16 == 3)
            && (rotation % 16 == 8 ==> mode % 16 == 4) && (rotation % 16 in {3, 4, 7} ==> mode % 16 == 1)
            && (rotation % 16 !in {1, 2, 3, 4, 7, 8} ==> mode % 16 == if stretch then 1 else 0)
            && (rotation / 16 % 16 == 1 ==> mode / 16 == 2) && (rotation / 16 % 16 == 2 ==> mode / 16 == 3)
            && (rotation / 16 % 16 == 8 ==> mode / 16 == 4) && (rotation / 16 % 16 !in {1, 2, 8} ==> mode / 16 == 0)
  {
  }

  /** The windows of an accepted blit: source, destination and third image. */
  function WindowsOf(s: Area, d: Area, p: Option<Area>, rotation: nat, stretch: bool): BlitReq {
    var angle := AngleOf(rotation % 16);
    var swapped := angle == 90 || angle == 270;
    var actW, actH := if swapped then d.height else d.width, if swapped then d.width else d.height;
    var pat := if p.None? then Img(0, 0, 0, 0, 0, 0)
               else if swapped then Stored(p.value, p.value.height, p.value.width)
               else Stored(p.value, p.value.width, p.value.height);
    BlitReq(Stored(s, s.width, s.height), Stored(d, actW, actH), pat, SinTable(angle), CosTable(angle),
            RotateMode(rotation, stretch))
  }

  /** generate_blit_req as far as windows go; `rotation` packs a rotation or flip and, above it, a
      flip. */
  function GenerateBlit(e: Engine, i: Interp, src: Area, dst: Area, src1: Option<Area>, rotation: nat): Option<BlitReq>
  {
    var s, d := Normal(src), Normal(dst);
    var p := NormalThird(src1);
    if !AreaOk(s) || (p.Some? && !AreaOk(p.value)) || !AreaOk(d) || ScalingRefused(e, i, s, d, p, rotation) then None
    else Some(WindowsOf(s, d, p, rotation, Scale(s, if p.Some? then p.value else d, rotation) != (1.0, 1.0)))
  }

  /** The offset adjustment at the end of NormalRgaCompatModeConvertRga2. */
  function CompatConvert(req: BlitReq): BlitReq {
    var d := req.dst;
    if req.sina == 65536 && req.cosa == 0 then
      req.(dst := d.(xOffset := U16(d.xOffset + d.actH - 1)))
    else if req.sina == 0 && req.cosa == -65536 then
      req.(dst := d.(xOffset := U16(d.xOffset + d.actW - 1), yOffset := U16(d.yOffset + d.actH - 1)))
    else if req.sina == -65536 && req.cosa == 0 then
      req.(dst := d.(yOffset := U16(d.yOffset + d.actW - 1)))
    else req
  }

  /** Where the engine puts pixel (i, j) of the active window: a rotation about the offset. */
  function Place(req: BlitReq, i: int, j: int): (int, int) {
    (req.dst.xOffset + (i * req.cosa - j * req.sina) / 65536,
     req.dst.yOffset + (i * req.sina + j * req.cosa) / 65536)
  }

  /** The inverse rotation. */
  function Unplace(req: BlitReq, x: int, y: int): (int, int) {
    var u, v := x - req.dst.xOffset, y - req.dst.yOffset;
    ((u * req.cosa + v * req.sina) / 65536, (v * req.cosa - u * req.sina) / 65536)
  }

  predicate FitsFields(a: Area) {
    0 <= a.wstride < 0x1_0000 && 0 <= a.hstride < 0x1_0000
  }

  /** The vector (u, v) turned by a quarter, half or three quarter turn. */
  function Turned(angle: int, u: int, v: int): (int, int) {
    if angle == 90 then (-v, u) else if angle == 180 then (-u, -v) else if angle == 270 then (v, -u) else (u, v)
  }

  predicate Turns(req: BlitReq, angle: int) {
    angle in {0, 90, 180, 270} && req.sina == SinTable(angle) && req.cosa == CosTable(angle)
  }

  /** The 16.16 arithmetic is exact at the four angles. */
  lemma PlaceExact(req: BlitReq, angle: int, i: int, j: int)
    requires Turns(req, angle)
    ensures var t := Turned(angle, i, j);
            Place(req, i, j) == (req.dst.xOffset + t.0, req.dst.yOffset + t.1)
  {
    var t := Turned(angle, i, j);
    assert i * req.cosa - j * req.sina == t.0 * 65536 by { TurnedProducts(req, angle, i, j); }
    assert i * req.sina + j * req.cosa == t.1 * 65536 by { TurnedProducts(req, angle, i, j); }
  }

  lemma UnplaceExact(req: BlitReq, angle: int, x: int, y: int)
    requires Turns(req, angle)
    ensures Unplace(req, x, y) == Turned((360 - angle) % 360, x - req.dst.xOffset, y - req.dst.yOffset)
  {
    var u, v := x - req.dst.xOffset, y - req.dst.yOffset;
    var t := Turned((360 - angle) % 360, u, v);
    assert u * req.cosa + v * req.sina == t.0 * 65536 by { TurnedProducts(req, angle, u, v); }
    assert v * req.cosa - u * req.sina == t.1 * 65536 by { TurnedProducts(req, angle, u, v); }
  }

  lemma TurnedProducts(req: BlitReq, angle: int, u: int, v: int)
    requires Turns(req, angle)
    ensures u * req.cosa == (if angle == 0 then 65536 * u else if angle == 180 then -65536 * u else 0)
    ensures v * req.cosa == (if angle == 0 then 65536 * v else if angle == 180 then -65536 * v else 0)
    ensures u * req.sina == (if angle == 90 then 65536 * u else if angle == 270 then -65536 * u else 0)
    ensures v * req.sina == (if angle == 90 then 65536 * v else if angle == 270 then -65536 * v else 0)
  {
  }

  function AngleOf(rotation: int): int {
    if rotation == ROT_90 then 90 else if rotation == ROT_180 then 180 else if rotation == ROT_270 then 270 else 0
  }

  /** Everything one blit is asked to do. */
  datatype BlitCall = BlitCall(e: Engine, i: Interp, src: Area, dst: Area, src1: Option<Area>, rotation: nat)

  /** The blit is accepted, and its strides fit the request's fields. */
  predicate Accepted(b: BlitCall) {
    && GenerateBlit(b.e, b.i, b.src, b.dst, b.src1, b.rotation).Some?
    && FitsFields(Normal(b.src)) && FitsFields(Normal(b.dst))
  }

  function Angle(b: BlitCall): int { AngleOf(b.rotation % 16) }

  /** The request that reaches a legacy driver. */
  function LegacyBlit(b: BlitCall): BlitReq
    requires Accepted(b)
  {
    CompatConvert(GenerateBlit(b.e, b.i, b.src, b.dst, b.src1, b.rotation).value)
  }

  function TargetOf(dst: Area): Rect { Rect(dst.xoffset, dst.yoffset, dst.width, dst.height) }

  lemma U16Fits(v: int)
    requires 0 <= v < 0x1_0000
    ensures U16(v) == v
  {
  }

  /** An accepted area is stored in the 16-bit fields unchanged. */
  lemma StoredFits(a: Area, actW: int, actH: int)
    requires AreaOk(a) && FitsFields(a) && 0 <= actW < 0x1_0000 && 0 <= actH < 0x1_0000
    ensures Stored(a, actW, actH) == Img(actW, actH, a.xoffset, a.yoffset, a.wstride, a.hstride)
  {
    U16Fits(actW); U16Fits(actH); U16Fits(a.xoffset); U16Fits(a.yoffset); U16Fits(a.wstride); U16Fits(a.hstride);
  }

  /** The third image's window, whose sides a quarter turn swaps, is its rectangle, inside its strides. */
  predicate ThirdInside(pat: Img, src1: Area, angle: int) {
    var (w, h) := if angle in {90, 270} then (pat.actH, pat.actW) else (pat.actW, pat.actH);
    && w == src1.width && h == src1.height && pat.xOffset == src1.xoffset && pat.yOffset == src1.yoffset
    && pat.virW == src1.wstride && pat.virH == Normal(src1).hstride
    && 0 <= pat.xOffset && pat.xOffset + w <= pat.virW && 0 <= pat.yOffset && pat.yOffset + h <= pat.virH
  }

  lemma ThirdStaysInside(b: BlitCall)
    requires Accepted(b) && b.src1.Some? && FitsFields(Normal(b.src1.value))
    ensures ThirdInside(LegacyBlit(b).pat, b.src1.value, Angle(b))
  {
    var p := Normal(b.src1.value);
    StoredFits(p, p.width, p.height);
    StoredFits(p, p.height, p.width);
  }

  /** The source and destination windows of a converted request are the given areas, inside their
      strides, the destination turned and its offset moved to where the rotation starts. */
  predicate BothInside(req: BlitReq, src: Area, dst: Area, angle: int) {
    && req.src == Img(src.width, src.height, src.xoffset, src.yoffset, src.wstride, src.hstride)
    && req.src.xOffset + req.src.actW <= req.src.virW && req.src.yOffset + req.src.actH <= req.src.virH
    && req.dst.virW == dst.wstride && req.dst.virH == dst.hstride
    && dst.xoffset + dst.width <= req.dst.virW && dst.yoffset + dst.height <= req.dst.virH
    && req.dst.actW == (if angle in {90, 270} then dst.height else dst.width)
    && req.dst.actH == (if angle in {90, 270} then dst.width else dst.height)
    && Turns(req, angle)
    && req.dst.xOffset == dst.xoffset + (if angle in {90, 180} then dst.width - 1 else 0)
    && req.dst.yOffset == dst.yoffset + (if angle in {180, 270} then dst.height - 1 else 0)
  }

  lemma WindowsInside(s: Area, d: Area, p: Option<Area>, rotation: nat, stretch: bool)
    requires AreaOk(s) && AreaOk(d) && FitsFields(s) && FitsFields(d)
    ensures BothInside(CompatConvert(WindowsOf(s, d, p, rotation, stretch)), s, d, AngleOf(rotation % 16))
  {
    StoredFits(s, s.width, s.height);
    StoredFits(d, d.width, d.height);
    StoredFits(d, d.height, d.width);
    U16Fits(d.xoffset + d.width - 1);
    U16Fits(d.yoffset + d.height - 1);
  }

  /** Every accepted blit reads and writes inside the virtual images. */
  lemma AcceptedBlitStaysInside(b: BlitCall)
    requires Accepted(b)
    ensures BothInside(LegacyBlit(b), Normal(b.src), Normal(b.dst), Angle(b))
    ensures var req := LegacyBlit(b);
            && 0 <= req.src.xOffset && req.src.xOffset + req.src.actW <= req.src.virW
            && 0 <= req.src.yOffset && req.src.yOffset + req.src.actH <= req.src.virH
            && 0 <= b.dst.xoffset && b.dst.xoffset + b.dst.width <= req.dst.virW
            && 0 <= b.dst.yoffset && b.dst.yoffset + b.dst.height <= req.dst.virH
    ensures b.src1.Some? && FitsFields(Normal(b.src1.value)) ==> ThirdInside(LegacyBlit(b).pat, b.src1.value, Angle(b))
  {
    var s, d := Normal(b.src), Normal(b.dst);
    var p := NormalThird(b.src1);
    WindowsInside(s, d, p, b.rotation, Scale(s, if p.Some? then p.value else d, b.rotation) != (1.0, 1.0));
    if b.src1.Some? && FitsFields(Normal(b.src1.value)) {
      ThirdStaysInside(b);
    }
  }

  /** After the legacy conversion the rotation maps the active window into the user's
      rectangle, and the inverse rotation takes each pixel back to where it came from. */
  lemma RotationLandsInTarget(b: BlitCall, i: int, j: int)
    requires Accepted(b) && 0 <= i < LegacyBlit(b).dst.actW && 0 <= j < LegacyBlit(b).dst.actH
    ensures var p := Place(LegacyBlit(b), i, j);
            Inside(TargetOf(b.dst), p.0, p.1) && Unplace(LegacyBlit(b), p.0, p.1) == (i, j)
  {
    AcceptedBlitStaysInside(b);
    var req, angle := LegacyBlit(b), Angle(b);
    PlaceExact(req, angle, i, j);
    var p := Place(req, i, j);
    UnplaceExact(req, angle, p.0, p.1);
  }

  /** Conversely every pixel of the user's rectangle is written, from exactly one place. */
  lemma RotationCoversTarget(b: BlitCall, x: int, y: int)
    requires Accepted(b) && Inside(TargetOf(b.dst), x, y)
    ensures var req := LegacyBlit(b);
            var q := Unplace(req, x, y);
            0 <= q.0 < req.dst.actW && 0 <= q.1 < req.dst.actH && Place(req, q.0, q.1) == (x, y)
  {
    AcceptedBlitStaysInside(b);
    var req, angle := LegacyBlit(b), Angle(b);
    UnplaceExact(req, angle, x, y);
    var q := Unplace(req, x, y);
    PlaceExact(req, angle, q.0, q.1);
  }

  /** Where each active pixel lands, by rotation code: 4 turns by 90 degrees, 3 by 180, 7 by 270, and
      every other code keeps the picture upright. */
  lemma PixelLands(b: BlitCall, i: int, j: int)
    requires Accepted(b)
    ensures var p, d := Place(LegacyBlit(b), i, j), b.dst;
            p == if b.rotation % 16 == 4 then (d.xoffset + d.width - 1 - j, d.yoffset + i)
                 else if b.rotation % 16 == 3 then (d.xoffset + d.width - 1 - i, d.yoffset + d.height - 1 - j)
                 else if b.rotation % 16 == 7 then (d.xoffset + j, d.yoffset + d.height - 1 - i)
                 else (d.xoffset + i, d.yoffset + j)
  {
    AcceptedBlitStaysInside(b);
    PlaceExact(LegacyBlit(b), Angle(b), i, j);
  }

  /** The request's own angle, before any conversion, in 16.16 fixed point. */
  lemma RequestedAngle(b: BlitCall)
    requires Accepted(b)
    ensures var req := GenerateBlit(b.e, b.i, b.src, b.dst, b.src1, b.rotation).value;
            && req.sina == (if b.rotation % 16 == 4 then 65536 else if b.rotation % 16 == 7 then -65536 else 0)
            && req.cosa == (if b.rotation % 16 == 3 then -65536 else if b.rotation % 16 in {4, 7} then 0 else 65536)
            && req.dst.xOffset == b.dst.xoffset && req.dst.yOffset == b.dst.yoffset
            && (req.dst.actW, req.dst.actH) ==
               (if b.rotation % 16 in {4, 7} then (b.dst.height, b.dst.width) else (b.dst.width, b.dst.height))
  {
    var d := Normal(b.dst);
    StoredFits(d, d.width, d.height);
    StoredFits(d, d.height, d.width);
  }

  /** A blit is accepted exactly when its areas are good, after a missing height stride is replaced by
      the height, and its scale and filters are. */
  lemma AcceptedIff(b: BlitCall)
    ensures var s := if b.src.hstride == 0 then b.src.(hstride := b.src.height) else b.src;
            var d := if b.dst.hstride == 0 then b.dst.(hstride := b.dst.height) else b.dst;
            var p := if b.src1.Some? && b.src1.value.width > 0 && b.src1.value.height > 0 && b.src1.value.hstride == 0
                     then Some(b.src1.value.(hstride := b.src1.value.height)) else b.src1;
            GenerateBlit(b.e, b.i, b.src, b.dst, b.src1, b.rotation).Some? <==>
              && AreaOk(s) && AreaOk(d) && (p.Some? ==> AreaOk(p.value))
              && var (h, v) := Scale(s, if p.Some? then p.value else d, b.rotation);
                 !ScaleRefused(b.e, h, v) && !InterpRefused(b.e, Chosen(b.e, b.i, s, d, h, v), s, d, h, v)
  {
  }

  /** The window fields of struct rga_req, filled in and converted in place. */
  class Request {
    var src: Img
    var dst: Img
    var pat: Img
    var sina: int
    var cosa: int
    var rotateMode: int

    ghost function View(): BlitReq
      reads this
    {
      BlitReq(src, dst, pat, sina, cosa, rotateMode)
    }

    /** generate_blit_req works on a local request, so a refusal leaves the caller's alone. */
    method Generate(b: BlitCall) returns (ok: bool)
      modifies this
      ensures ok == GenerateBlit(b.e, b.i, b.src, b.dst, b.src1, b.rotation).Some?
      ensures View() == if ok then GenerateBlit(b.e, b.i, b.src, b.dst, b.src1, b.rotation).value else old(View())
    {
      var s, d, p := b.src, b.dst, b.src1;
      if s.hstride == 0 {
        s := s.(hstride := s.height);
      }
      if p.Some? && p.value.width > 0 && p.value.height > 0 && p.value.hstride == 0 {
        p := Some(p.value.(hstride := p.value.height));
      }
      if d.hstride == 0 {
        d := d.(hstride := d.height);
      }
      if !AreaOk(s) {
        return false;
      }
      if p.Some? && !AreaOk(p.value) {
        return false;
      }
      if !AreaOk(d) {
        return false;
      }
      var to := if p.Some? then p.value else d;
      var (h, v) := Scale(s, to, b.rotation);
      if ScaleRefused(b.e, h, v) {
        return false;
      }
      if InterpRefused(b.e, Chosen(b.e, b.i, s, d, h, v), s, d, h, v) {
        return false;
      }
      SetWindows(s, d, p, b.rotation, h != 1.0 || v != 1.0);
      ok := true;
    }

    /** The switch over the rotation, and the setters after it. */
    method SetWindows(s: Area, d: Area, p: Option<Area>, rotation: nat, stretch: bool)
      modifies this
      ensures View() == WindowsOf(s, d, p, rotation, stretch)
    {
      var angle, actW, actH := 0, d.width, d.height;
      var patW, patH := if p.Some? then p.value.width else 0, if p.Some? then p.value.height else 0;
      if rotation % 16 == ROT_90 {
        angle := 90;
        actW, actH, patW, patH := d.height, d.width, patH, patW;
      } else if rotation % 16 == ROT_180 {
        angle := 180;
      } else if rotation % 16 == ROT_270 {
        angle := 270;
        actW, actH, patW, patH := d.height, d.width, patH, patW;
      }
      src, dst := Stored(s, s.width, s.height), Stored(d, actW, actH);
      pat := if p.Some? then Stored(p.value, patW, patH) else Img(0, 0, 0, 0, 0, 0);
      sina, cosa, rotateMode := SinTable(angle), CosTable(angle), RotateMode(rotation, stretch);
    }

    /** The offset adjustment, updating dst.x_offset and dst.y_offset one after the other. */
    method Convert()
      modifies this`dst
      ensures View() == CompatConvert(old(View()))
    {
      if sina == 65536 && cosa == 0 {
        dst := dst.(xOffset := U16(dst.xOffset + dst.actH - 1));
      } else if sina == 0 && cosa == -65536 {
        dst := dst.(xOffset := U16(dst.xOffset + dst.actW - 1));
        dst := dst.(yOffset := U16(dst.yOffset + dst.actH - 1));
      } else if sina == -65536 && cosa == 0 {
        dst := dst.(yOffset := U16(dst.yOffset + dst.actW - 1));
      }
    }
  }
}
