/** The fixed-point colour matrices of the full colour space converter (core/NormalRgaApi.cpp),
    against the colour encodings of ITU-R BT.601-7 (section 2.5) and BT.709-6 (section 3). */
module ColorSpace {
  import opened Common

  newtype int16 = x: int | -0x8000 <= x < 0x8000
  newtype int32 = x: int | -0x8000_0000 <= x < 0x8000_0000

  /** One output channel: rv * (R or V) + gy * (G or Y) + bu * (B or U) + off. */
  datatype Row = Row(rv: real, gy: real, bu: real, off: real)
  datatype Matrix = Matrix(y: Row, u: Row, v: Row)

  datatype FixedRow = FixedRow(rv: int16, gy: int16, bu: int16, off: int32)
  datatype FixedMatrix = FixedMatrix(y: FixedRow, u: FixedRow, v: FixedRow)

  datatype Range = Range(max: nat, min: nat)
  datatype Clip = Clip(y: Range, uv: Range)

  const FACTOR := 1023.0

  const Rgb601Full :=
    Matrix(Row(0.299, 0.587, 0.114, 0.0), Row(-0.169, -0.331, 0.5, 128.0), Row(0.5, -0.419, -0.081, 128.0))
  const Rgb709Limited :=
    Matrix(Row(0.183, 0.614, 0.062, 16.0), Row(-0.101, -0.339, 0.439, 128.0), Row(0.439, -0.399, -0.040, 128.0))
  const Rgb709Full :=
    Matrix(Row(0.213, 0.715, 0.072, 0.0), Row(-0.115, -0.385, 0.5, 128.0), Row(0.5, -0.454, -0.046, 128.0))
  const Yuv601FullTo709Limited :=
    Matrix(Row(-0.1826, 0.8588, -0.1014, 52.3554), Row(0.1007, -0.0004, 0.8948, 0.5781),
           Row(0.9005, 0.0, 0.0653, 4.3855))
  const Yuv709LimitedTo601Limited :=
    Matrix(Row(0.1916, 1.0, 0.0993, -37.2476), Row(-0.1106, 0.0, 0.9895, 15.4669),
           Row(0.9827, 0.0002, -0.0723, 11.4231))
  const Yuv709FullTo601Limited :=
    Matrix(Row(0.1685, 0.8588, 0.0872, -16.7232), Row(-0.0971, 0.0, 0.8695, 29.1335),
           Row(0.8638, 0.0, -0.0637, 25.5824))
  const Yuv709FullTo601Full :=
    Matrix(Row(0.1955, 1.0, 0.1019, -38.0729), Row(-0.1104, 0.0, 0.9899, 15.4218), Row(0.9836, 0.0, -0.0716, 11.2587))

  const Tables: seq<Matrix> := [
    Rgb601Full, Rgb709Limited, Rgb709Full, Yuv601FullTo709Limited,
    Yuv709LimitedTo601Limited, Yuv709FullTo601Limited, Yuv709FullTo601Full]

  const Clips: seq<Clip> := [
    Clip(Range(255, 0), Range(255, 0)), Clip(Range(235, 16), Range(240, 16)), Clip(Range(235, 16), Range(235, 16))]

  const RGB2YUV_601_FULL := 0x100
  const RGB2YUV_709_FULL := 0x200
  const YUV2YUV_709_LIMIT_2_601_LIMIT := 0x500
  const YUV2YUV_601_FULL_2_709_LIMIT := 0x700
  const YUV2YUV_709_FULL_2_601_LIMIT := 0x900
  const YUV2YUV_709_FULL_2_601_FULL := 0xa00
  const RGB2YUV_709_LIMIT := 0xb00

  /** The table and clip rows chosen for a mode word. */
  datatype Choice = Choice(table: nat, clip: nat)

  function Select(mode: int): (c: Option<Choice>)
    ensures c.Some? ==> c.value.table < |Tables| && c.value.clip < |Clips|
  {
    if mode == RGB2YUV_601_FULL then Some(Choice(0, 0))
    else if mode == RGB2YUV_709_LIMIT then Some(Choice(1, 1))
    else if mode == RGB2YUV_709_FULL then Some(Choice(2, 0))
    else if mode == YUV2YUV_709_LIMIT_2_601_LIMIT then Some(Choice(4, 1))
    else if mode == YUV2YUV_601_FULL_2_709_LIMIT then Some(Choice(3, 1))
    else if mode == YUV2YUV_709_FULL_2_601_LIMIT then Some(Choice(5, 1))
    else if mode == YUV2YUV_709_FULL_2_601_FULL then Some(Choice(6, 0))
    else None
  }

  /** The modes accepted, by code, and the clipping of each: the full range for 0x100, 0x200 and 0xa00,
      the limited one for the others. */
  lemma SelectIs(mode: int)
    ensures Select(mode).Some? <==> mode in {0x100, 0x200, 0x500, 0x700, 0x900, 0xa00, 0xb00}
    ensures Select(mode).Some? ==> Select(mode).value.clip == if mode in {0x100, 0x200, 0xa00} then 0 else 1
    ensures Clips[0] == Clip(Range(255, 0), Range(255, 0)) && Clips[1] == Clip(Range(235, 16), Range(240, 16))
  {
  }

  // ---- Quantisation ----

  /** C's conversion of a real to int: toward zero. */
  function Truncate(x: real): int { if x >= 0.0 then x.Floor else -(-x).Floor }

  function Quantize(c: real): int { Truncate(c * FACTOR + 0.5) }

  /** The error lies in (-1/2, 3/2), and is a proper rounding exactly when the shifted value is
      not truncated upwards. */
  lemma QuantizeError(c: real)
    ensures var e := Quantize(c) as real - c * FACTOR;
            && -0.5 < e < 1.5
            && (e <= 0.5 <==> c * FACTOR + 0.5 >= 0.0 || (c * FACTOR + 0.5).Floor as real == c * FACTOR + 0.5)
  {
    var x := c * FACTOR + 0.5;
    if x < 0.0 {
      var q := (-x).Floor;
      assert q as real <= -x < q as real + 1.0;
      if q as real == -x {
        assert x == (-q) as real;
        assert x.Floor == -q;
      }
      if x.Floor as real == x {
        assert -x == (-x.Floor) as real;
        assert (-x).Floor == -x.Floor;
      }
    }
  }

  /** A coefficient of the shipped tables that is not rounded to the nearest: -0.169 becomes -172,
      not -173. */
  lemma MisroundedExample()
    ensures Rgb601Full.u.rv == -0.169 && Quantize(-0.169) == -172
    ensures Quantize(-0.169) as real - -0.169 * FACTOR == 0.887
  {
  }

  predicate RowFits(r: Row) {
    -1.0 <= r.rv <= 1.0 && -1.0 <= r.gy <= 1.0 && -1.0 <= r.bu <= 1.0 && -128.0 <= r.off <= 128.0
  }

  lemma TablesFit(i: nat)
    requires i < |Tables|
    ensures RowFits(Tables[i].y) && RowFits(Tables[i].u) && RowFits(Tables[i].v)
  {
  }

  function QuantizeRow(r: Row): FixedRow
    requires RowFits(r)
  {
    QuantizeError(r.rv); QuantizeError(r.gy); QuantizeError(r.bu); QuantizeError(r.off);
    FixedRow(Quantize(r.rv) as int16, Quantize(r.gy) as int16, Quantize(r.bu) as int16, Quantize(r.off) as int32)
  }

  function QuantizeMatrix(m: Matrix): FixedMatrix
    requires RowFits(m.y) && RowFits(m.u) && RowFits(m.v)
  {
    FixedMatrix(QuantizeRow(m.y), QuantizeRow(m.u), QuantizeRow(m.v))
  }

  function Fixed(i: nat): FixedMatrix
    requires i < |Tables|
  {
    TablesFit(i);
    QuantizeMatrix(Tables[i])
  }

  // ---- Applying a row ----

  predicate Code(x: real) { 0.0 <= x <= 255.0 }

  function Exact(r: Row, a: real, b: real, c: real): real { r.rv * a + r.gy * b + r.bu * c + r.off }

  function Scaled(r: Row, a: real, b: real, c: real): real { Exact(r, a, b, c) / FACTOR }

  predicate Near(x: real, y: real) { -0.75 < x - y < 0.75 }

  lemma NearIs(x: real, y: real)
    ensures Near(x, y) <==> (if x < y then y - x else x - y) < 0.75
  {
  }

  // ---- The quantised tables ----

  /** The numerators, over 1023, that the tables become. */
  const Rgb601FullN :=
    Matrix(Row(306.0, 601.0, 117.0, 0.0), Row(-172.0, -338.0, 512.0, 130944.0), Row(512.0, -428.0, -82.0, 130944.0))
  const Rgb709LimitedN :=
    Matrix(Row(187.0, 628.0, 63.0, 16368.0), Row(-102.0, -346.0, 449.0, 130944.0), Row(449.0, -407.0, -40.0, 130944.0))
  const Rgb709FullN :=
    Matrix(Row(218.0, 731.0, 74.0, 0.0), Row(-117.0, -393.0, 512.0, 130944.0), Row(512.0, -463.0, -46.0, 130944.0))
  const Yuv601FullTo709LimitedN :=
    Matrix(Row(-186.0, 879.0, -103.0, 53560.0), Row(103.0, 0.0, 915.0, 591.0), Row(921.0, 0.0, 67.0, 4486.0))
  const Yuv709LimitedTo601LimitedN :=
    Matrix(Row(196.0, 1023.0, 102.0, -38103.0), Row(-112.0, 0.0, 1012.0, 15823.0), Row(1005.0, 0.0, -73.0, 11686.0))
  const Yuv709FullTo601LimitedN :=
    Matrix(Row(172.0, 879.0, 89.0, -17107.0), Row(-98.0, 0.0, 889.0, 29804.0), Row(884.0, 0.0, -64.0, 26171.0))
  const Yuv709FullTo601FullN :=
    Matrix(Row(200.0, 1023.0, 104.0, -38948.0), Row(-112.0, 0.0, 1013.0, 15777.0), Row(1006.0, 0.0, -72.0, 11518.0))

  function AsReal(f: FixedRow): Row { Row(f.rv as real, f.gy as real, f.bu as real, f.off as real) }

  function AsReals(m: FixedMatrix): Matrix { Matrix(AsReal(m.y), AsReal(m.u), AsReal(m.v)) }

  /** Whether the integer n is what c quantises to. */
  predicate Rounds(c: real, n: real) {
    var x := c * FACTOR + 0.5;
    n.Floor as real == n && if x >= 0.0 then n <= x < n + 1.0 else n - 1.0 < x <= n
  }

  predicate RowRounds(r: Row, n: Row) {
    Rounds(r.rv, n.rv) && Rounds(r.gy, n.gy) && Rounds(r.bu, n.bu) && Rounds(r.off, n.off)
  }

  lemma RoundsIs(c: real, n: int)
    requires Rounds(c, n as real)
    ensures Quantize(c) == n
  {
  }

  lemma RowRoundsIs(r: Row, n: Row)
    requires RowFits(r) && RowRounds(r, n)
    ensures AsReal(QuantizeRow(r)) == n
  {
    RoundsIs(r.rv, n.rv.Floor);
    RoundsIs(r.gy, n.gy.Floor);
    RoundsIs(r.bu, n.bu.Floor);
    RoundsIs(r.off, n.off.Floor);
  }

  predicate MatrixRounds(m: Matrix, n: Matrix) { RowRounds(m.y, n.y) && RowRounds(m.u, n.u) && RowRounds(m.v, n.v) }

  // ---- The standards ----

  datatype Standard = Bt601 | Bt709
  datatype Color = Color(r: real, g: real, b: real)
  predicate InRange(c: Color) { Code(c.r) && Code(c.g) && Code(c.b) }
  datatype Pixel = Pixel(y: real, u: real, v: real)

  datatype Encoding = Encoding(standard: Standard, limited: bool)

  /** Luminance and the two colour differences, before they are placed in a code range. */
  function Luma(s: Standard, c: Color): real {
    match s
    case Bt601 => 0.299 * c.r + 0.587 * c.g + 0.114 * c.b
    case Bt709 => 0.2126 * c.r + 0.7152 * c.g + 0.0722 * c.b
  }
  function BlueDifference(s: Standard, c: Color): real {
    match s case Bt601 => (c.b - Luma(s, c)) / 1.772 case Bt709 => (c.b - Luma(s, c)) / 1.8556
  }
  function RedDifference(s: Standard, c: Color): real {
    match s case Bt601 => (c.r - Luma(s, c)) / 1.402 case Bt709 => (c.r - Luma(s, c)) / 1.5748
  }

  /** The 8-bit code values of a colour, over the full range or 16..235 and 16..240. */
  function Encode(e: Encoding, c: Color): Pixel {
    var y, u, v := Luma(e.standard, c), BlueDifference(e.standard, c), RedDifference(e.standard, c);
    if e.limited then Pixel(16.0 + y * 219.0 / 255.0, 128.0 + u * 224.0 / 255.0, 128.0 + v * 224.0 / 255.0)
    else Pixel(y, 128.0 + u, 128.0 + v)
  }

  const FULL_601 := Encoding(Bt601, false)
  const LIMITED_601 := Encoding(Bt601, true)
  const FULL_709 := Encoding(Bt709, false)
  const LIMITED_709 := Encoding(Bt709, true)

  /** What a mode's name promises: the encoding it reads (None: RGB) and the one it produces. */
  function Promised(mode: int): Option<(Option<Encoding>, Encoding)> {
    if mode == RGB2YUV_601_FULL then Some((None, FULL_601))
    else if mode == RGB2YUV_709_FULL then Some((None, FULL_709))
    else if mode == RGB2YUV_709_LIMIT then Some((None, LIMITED_709))
    else if mode == YUV2YUV_709_LIMIT_2_601_LIMIT then Some((Some(LIMITED_709), LIMITED_601))
    else if mode == YUV2YUV_601_FULL_2_709_LIMIT then Some((Some(FULL_601), LIMITED_709))
    else if mode == YUV2YUV_709_FULL_2_601_LIMIT then Some((Some(FULL_709), LIMITED_601))
    else if mode == YUV2YUV_709_FULL_2_601_FULL then Some((Some(FULL_709), FULL_601))
    else None
  }

  /** ... by code: 0x100, 0x200 and 0xb00 read RGB. */
  lemma PromisedIs(mode: int)
    requires Select(mode).Some?
    ensures Promised(mode) ==
              if mode == 0x100 then Some((None, Encoding(Bt601, false)))
              else if mode == 0x200 then Some((None, Encoding(Bt709, false)))
              else if mode == 0xb00 then Some((None, Encoding(Bt709, true)))
              else if mode == 0x500 then Some((Some(Encoding(Bt709, true)), Encoding(Bt601, true)))
              else if mode == 0x700 then Some((Some(Encoding(Bt601, false)), Encoding(Bt709, true)))
              else if mode == 0x900 then Some((Some(Encoding(Bt709, false)), Encoding(Bt601, true)))
              else Some((Some(Encoding(Bt709, false)), Encoding(Bt601, false)))
  {
  }

  /** A row applied to a colour as the source encoding presents it. */
  function Convert(source: Option<Encoding>, r: Row, c: Color): real {
    match source
    case None => Scaled(r, c.r, c.g, c.b)
    case Some(e) => var p := Encode(e, c); Scaled(r, p.v, p.y, p.u)
  }

  /** The fixed-point matrix n is close to the real matrix m on all inputs. */
  predicate CloseTo(n: Matrix, m: Matrix, c: Color) {
    && Near(Scaled(n.y, c.r, c.g, c.b), Exact(m.y, c.r, c.g, c.b))
    && Near(Scaled(n.u, c.r, c.g, c.b), Exact(m.u, c.r, c.g, c.b))
    && Near(Scaled(n.v, c.r, c.g, c.b), Exact(m.v, c.r, c.g, c.b))
  }

  predicate LumaConforms(n: Matrix, source: Option<Encoding>, target: Encoding, c: Color) {
    Near(Convert(source, n.y, c), Encode(target, c).y)
  }
  predicate BlueConforms(n: Matrix, source: Option<Encoding>, target: Encoding, c: Color) {
    Near(Convert(source, n.u, c), Encode(target, c).u)
  }
  predicate RedConforms(n: Matrix, source: Option<Encoding>, target: Encoding, c: Color) {
    Near(Convert(source, n.v, c), Encode(target, c).v)
  }

  /** The fixed-point matrix n takes a colour from one encoding to another. */
  predicate Conforms(n: Matrix, source: Option<Encoding>, target: Encoding, c: Color) {
    LumaConforms(n, source, target, c) && BlueConforms(n, source, target, c) && RedConforms(n, source, target, c)
  }

  lemma CheckRgb601Full(c: Color)
    requires InRange(c)
    ensures MatrixRounds(Rgb601Full, Rgb601FullN) && CloseTo(Rgb601FullN, Rgb601Full, c)
  {
  }

  lemma ConformsRgb601Full(c: Color)
    requires InRange(c)
    ensures Conforms(Rgb601FullN, None, FULL_601, c)
  {
  }

  lemma CheckRgb709Limited(c: Color)
    requires InRange(c)
    ensures MatrixRounds(Rgb709Limited, Rgb709LimitedN) && CloseTo(Rgb709LimitedN, Rgb709Limited, c)
  {
  }

  lemma ConformsRgb709Limited(c: Color)
    requires InRange(c)
    ensures Conforms(Rgb709LimitedN, None, LIMITED_709, c)
  {
  }

  lemma CheckRgb709Full(c: Color)
    requires InRange(c)
    ensures MatrixRounds(Rgb709Full, Rgb709FullN) && CloseTo(Rgb709FullN, Rgb709Full, c)
  {
  }

  lemma ConformsRgb709Full(c: Color)
    requires InRange(c)
    ensures Conforms(Rgb709FullN, None, FULL_709, c)
  {
  }

  lemma CheckYuv601FullTo709Limited(c: Color)
    requires InRange(c)
    ensures MatrixRounds(Yuv601FullTo709Limited, Yuv601FullTo709LimitedN)
    ensures CloseTo(Yuv601FullTo709LimitedN, Yuv601FullTo709Limited, c)
  {
  }

  lemma LumaYuv601FullTo709Limited(c: Color)
    requires InRange(c)
    ensures LumaConforms(Yuv601FullTo709LimitedN, Some(FULL_601), LIMITED_709, c)
  {
  }

  lemma BlueYuv601FullTo709Limited(c: Color)
    requires InRange(c)
    ensures BlueConforms(Yuv601FullTo709LimitedN, Some(FULL_601), LIMITED_709, c)
  {
  }

  lemma RedYuv601FullTo709Limited(c: Color)
    requires InRange(c)
    ensures RedConforms(Yuv601FullTo709LimitedN, Some(FULL_601), LIMITED_709, c)
  {
  }

  lemma CheckYuv709LimitedTo601Limited(c: Color)
    requires InRange(c)
    ensures MatrixRounds(Yuv709LimitedTo601Limited, Yuv709LimitedTo601LimitedN)
    ensures CloseTo(Yuv709LimitedTo601LimitedN, Yuv709LimitedTo601Limited, c)
  {
  }

  lemma LumaYuv709LimitedTo601Limited(c: Color)
    requires InRange(c)
    ensures LumaConforms(Yuv709LimitedTo601LimitedN, Some(LIMITED_709), LIMITED_601, c)
  {
  }

  lemma BlueYuv709LimitedTo601Limited(c: Color)
    requires InRange(c)
    ensures BlueConforms(Yuv709LimitedTo601LimitedN, Some(LIMITED_709), LIMITED_601, c)
  {
  }

  lemma RedYuv709LimitedTo601Limited(c: Color)
    requires InRange(c)
    ensures RedConforms(Yuv709LimitedTo601LimitedN, Some(LIMITED_709), LIMITED_601, c)
  {
  }

  lemma CheckYuv709FullTo601Limited(c: Color)
    requires InRange(c)
    ensures MatrixRounds(Yuv709FullTo601Limited, Yuv709FullTo601LimitedN)
    ensures CloseTo(Yuv709FullTo601LimitedN, Yuv709FullTo601Limited, c)
  {
  }

  lemma LumaYuv709FullTo601Limited(c: Color)
    requires InRange(c)
    ensures LumaConforms(Yuv709FullTo601LimitedN, Some(FULL_709), LIMITED_601, c)
  {
  }

  lemma BlueYuv709FullTo601Limited(c: Color)
    requires InRange(c)
    ensures BlueConforms(Yuv709FullTo601LimitedN, Some(FULL_709), LIMITED_601, c)
  {
  }

  lemma RedYuv709FullTo601Limited(c: Color)
    requires InRange(c)
    ensures RedConforms(Yuv709FullTo601LimitedN, Some(FULL_709), LIMITED_601, c)
  {
  }

  lemma CheckYuv709FullTo601Full(c: Color)
    requires InRange(c)
    ensures MatrixRounds(Yuv709FullTo601Full, Yuv709FullTo601FullN)
    ensures CloseTo(Yuv709FullTo601FullN, Yuv709FullTo601Full, c)
  {
  }

  lemma LumaYuv709FullTo601Full(c: Color)
    requires InRange(c)
    ensures LumaConforms(Yuv709FullTo601FullN, Some(FULL_709), FULL_601, c)
  {
  }

  lemma BlueYuv709FullTo601Full(c: Color)
    requires InRange(c)
    ensures BlueConforms(Yuv709FullTo601FullN, Some(FULL_709), FULL_601, c)
  {
  }

  lemma RedYuv709FullTo601Full(c: Color)
    requires InRange(c)
    ensures RedConforms(Yuv709FullTo601FullN, Some(FULL_709), FULL_601, c)
  {
  }

  lemma Rounded(m: Matrix, n: Matrix)
    requires RowFits(m.y) && RowFits(m.u) && RowFits(m.v) && MatrixRounds(m, n)
    ensures AsReals(QuantizeMatrix(m)) == n
  {
    RowRoundsIs(m.y, n.y);
    RowRoundsIs(m.u, n.u);
    RowRoundsIs(m.v, n.v);
  }

  /** On all inputs the fixed-point form of every table is within three quarters of a code value of
      the real one. */
  lemma FixedCloseToTable(i: nat, c: Color)
    requires i < |Tables|
    requires 0.0 <= c.r <= 255.0 && 0.0 <= c.g <= 255.0 && 0.0 <= c.b <= 255.0
    ensures CloseTo(AsReals(Fixed(i)), Tables[i], c)
  {
    TablesFit(i);
    match i
    case 0 => CheckRgb601Full(c); Rounded(Rgb601Full, Rgb601FullN);
    case 1 => CheckRgb709Limited(c); Rounded(Rgb709Limited, Rgb709LimitedN);
    case 2 => CheckRgb709Full(c); Rounded(Rgb709Full, Rgb709FullN);
    case 3 => CheckYuv601FullTo709Limited(c); Rounded(Yuv601FullTo709Limited, Yuv601FullTo709LimitedN);
    case 4 => CheckYuv709LimitedTo601Limited(c); Rounded(Yuv709LimitedTo601Limited, Yuv709LimitedTo601LimitedN);
    case 5 => CheckYuv709FullTo601Limited(c); Rounded(Yuv709FullTo601Limited, Yuv709FullTo601LimitedN);
    case 6 => CheckYuv709FullTo601Full(c); Rounded(Yuv709FullTo601Full, Yuv709FullTo601FullN);
  }

  /** An accepted mode takes every colour from the encoding its name reads to within three quarters
      of the code values that the standard it names defines for that colour. */
  lemma ModeConforms(mode: int, c: Color)
    requires Select(mode).Some?
    requires 0.0 <= c.r <= 255.0 && 0.0 <= c.g <= 255.0 && 0.0 <= c.b <= 255.0
    ensures Promised(mode).Some?
    ensures var (source, target) := Promised(mode).value;
            Conforms(AsReals(Fixed(Select(mode).value.table)), source, target, c)
  {
    TablesFit(Select(mode).value.table);
    if
    case mode == RGB2YUV_601_FULL =>
      CheckRgb601Full(c);
      ConformsRgb601Full(c);
      Rounded(Rgb601Full, Rgb601FullN);
    case mode == RGB2YUV_709_LIMIT =>
      CheckRgb709Limited(c);
      ConformsRgb709Limited(c);
      Rounded(Rgb709Limited, Rgb709LimitedN);
    case mode == RGB2YUV_709_FULL =>
      CheckRgb709Full(c);
      ConformsRgb709Full(c);
      Rounded(Rgb709Full, Rgb709FullN);
    case mode == YUV2YUV_601_FULL_2_709_LIMIT =>
      LumaYuv601FullTo709Limited(c);
      BlueYuv601FullTo709Limited(c);
      RedYuv601FullTo709Limited(c);
      CheckYuv601FullTo709Limited(c);
      Rounded(Yuv601FullTo709Limited, Yuv601FullTo709LimitedN);
    case mode == YUV2YUV_709_LIMIT_2_601_LIMIT =>
      LumaYuv709LimitedTo601Limited(c);
      BlueYuv709LimitedTo601Limited(c);
      RedYuv709LimitedTo601Limited(c);
      CheckYuv709LimitedTo601Limited(c);
      Rounded(Yuv709LimitedTo601Limited, Yuv709LimitedTo601LimitedN);
    case mode == YUV2YUV_709_FULL_2_601_LIMIT =>
      LumaYuv709FullTo601Limited(c);
      BlueYuv709FullTo601Limited(c);
      RedYuv709FullTo601Limited(c);
      CheckYuv709FullTo601Limited(c);
      Rounded(Yuv709FullTo601Limited, Yuv709FullTo601LimitedN);
    case mode == YUV2YUV_709_FULL_2_601_FULL =>
      LumaYuv709FullTo601Full(c);
      BlueYuv709FullTo601Full(c);
      RedYuv709FullTo601Full(c);
      CheckYuv709FullTo601Full(c);
      Rounded(Yuv709FullTo601Full, Yuv709FullTo601FullN);
  }

  function Clamp(x: real, r: Range): real {
    if x > r.max as real then r.max as real else if x < r.min as real then r.min as real else x
  }

  predicate Inside(p: real, r: Range) { r.min as real - 0.5 <= p <= r.max as real + 0.5 }

  lemma ClampKeepsNear(x: real, p: real, r: Range)
    requires Near(x, p) && Inside(p, r) && r.min <= r.max
    ensures Near(Clamp(x, r), p)
  {
  }

  /** A standard's code values fit the clip range of its kind (full-range chroma up to a half). */
  lemma EncodedFits(e: Encoding, c: Color)
    requires InRange(c)
    ensures var clip, p := Clips[if e.limited then 1 else 0], Encode(e, c);
            Inside(p.y, clip.y) && Inside(p.u, clip.uv) && Inside(p.v, clip.uv)
  {
    match e
    case Encoding(Bt601, true) =>
    case Encoding(Bt601, false) =>
    case Encoding(Bt709, true) =>
    case Encoding(Bt709, false) =>
  }

  /** The same holds of what is delivered, after the clipping chosen with the mode. */
  lemma ClippedConforms(mode: int, c: Color)
    requires Select(mode).Some?
    requires 0.0 <= c.r <= 255.0 && 0.0 <= c.g <= 255.0 && 0.0 <= c.b <= 255.0
    ensures Promised(mode).Some?
    ensures var (source, target) := Promised(mode).value;
            var Choice(i, k) := Select(mode).value;
            var n, clip, p := AsReals(Fixed(i)), Clips[k], Encode(target, c);
            && Near(Clamp(Convert(source, n.y, c), clip.y), p.y)
            && Near(Clamp(Convert(source, n.u, c), clip.uv), p.u)
            && Near(Clamp(Convert(source, n.v, c), clip.uv), p.v)
  {
    ModeConforms(mode, c);
    var (source, target) := Promised(mode).value;
    var Choice(i, k) := Select(mode).value;
    var n, clip, p := AsReals(Fixed(i)), Clips[k], Encode(target, c);
    EncodedFits(target, c);
    assert k == if target.limited then 1 else 0;
    ClampKeepsNear(Convert(source, n.y, c), p.y, clip.y);
    ClampKeepsNear(Convert(source, n.u, c), p.u, clip.uv);
    ClampKeepsNear(Convert(source, n.v, c), p.v, clip.uv);
  }

  // ---- The code itself ----

  /** The fields of a request that the converter writes. */
  class Request {
    var enabled: bool
    var fullCsc: FixedMatrix
    var clip: Clip
    var clipEnabled: bool

    /** NormalRgaFullColorSpaceConvert */
    method FullColorSpaceConvert(mode: int) returns (ret: int)
      modifies this
      ensures ret == (if Select(mode).Some? then 0 else -1)
      ensures ret == 0 ==> enabled && clipEnabled && fullCsc == Fixed(Select(mode).value.table)
                           && clip == Clips[Select(mode).value.clip]
      ensures ret == -1 ==> unchanged(this)
    {
      var choice := Select(mode);
      if choice.None? {
        return -1;
      }
      var m := Tables[choice.value.table];
      TablesFit(choice.value.table);
      var csc := FixedMatrix(QuantizeRow(m.y), QuantizeRow(m.u), QuantizeRow(m.v));
      if mode / 256 != 0 {
        enabled, fullCsc := true, csc;
        clip := Clips[choice.value.clip];
        clipEnabled := true;
      }
      ret := 0;
    }
  }
}
