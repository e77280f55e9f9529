/** Row alignment of an image (im2d_api/src/im2d_impl.cpp): a width stride is good when its rows
    fill whole memory words, and the refusal reports the alignment that would have been. */
module Stride {
  import opened Common
  import opened Arithmetic

  predicate Divides(d: nat, n: int) { d > 0 && n % d == 0 }

  ghost predicate IsGcd(g: nat, m: nat, n: nat) {
    Divides(g, m) && Divides(g, n) && forall d: nat | Divides(d, m) && Divides(d, n) :: d <= g
  }

  /** The GET_GCD loop; `gcd` holds anything before it. */
  method Gcd(m: nat, n: nat, gcd0: int) returns (gcd: int)
    requires m > 0 && n > 0
    ensures gcd > 0 && IsGcd(gcd, m, n)
  {
    gcd := gcd0;
    var i := 1;
    while i <= m && i <= n
      invariant 1 <= i && (i <= m + 1 && i <= n + 1)
      invariant i > 1 ==> 0 < gcd < i && Divides(gcd, m) && Divides(gcd, n)
      invariant forall d: nat | d < i && Divides(d, m) && Divides(d, n) :: d <= gcd
    {
      if m % i == 0 && n % i == 0 {
        gcd := i;
      }
      i := i + 1;
    }
    forall d: nat | Divides(d, m) && Divides(d, n) ensures d <= gcd {
      DivisorAtMost(d, m);
      DivisorAtMost(d, n);
    }
  }

  /** The bits of `stride` pixels fill whole words of `word` bits. */
  predicate Fills(pixel: nat, word: nat, stride: int)
    requires word > 0
  {
    (pixel * stride) % word == 0
  }

  /** The alignment the refusal reports: the least common multiple over the pixel size. */
  function Align(pixel: nat, word: nat, gcd: nat): int
    requires pixel > 0 && gcd > 0
  {
    (pixel * word) / gcd / pixel
  }

  // ---- Divisibility ----

  lemma DivisorAtMost(d: nat, n: nat)
    requires Divides(d, n) && n > 0
    ensures d <= n
  {
    if d > n {
      Unique(n, d, 0, n);
    }
  }

  lemma Quotient(d: nat, n: int) returns (k: int)
    requires Divides(d, n)
    ensures n == d * k
  {
    k := n / d;
  }

  lemma MultipleDivides(d: nat, k: int)
    requires d > 0
    ensures Divides(d, d * k)
  {
    Unique(d * k, d, k, 0);
  }

  lemma FillsDifference(pixel: nat, word: nat, a: int, b: int, k: int)
    requires word > 0 && Fills(pixel, word, a) && Fills(pixel, word, b)
    ensures Fills(pixel, word, a - k * b)
  {
    var x := Quotient(word, pixel * a);
    var y := Quotient(word, pixel * b);
    assert pixel * (a - k * b) == pixel * a - k * (pixel * b) == word * x - k * (word * y) == word * (x - k * y);
    MultipleDivides(word, x - k * y);
  }

  /** Is `a` the least positive stride that fills whole words? */
  predicate Least(pixel: nat, word: nat, a: nat)
    requires word > 0
  {
    a > 0 && Fills(pixel, word, a) && forall s: nat | 0 < s < a :: !Fills(pixel, word, s)
  }

  lemma {:induction false} LeastExists(pixel: nat, word: nat, bound: nat) returns (a: nat)
    requires word > 0 && bound > 0 && Fills(pixel, word, bound)
    ensures Least(pixel, word, a) && a <= bound
  {
    if s: nat :| 0 < s < bound && Fills(pixel, word, s) {
      a := LeastExists(pixel, word, s);
    } else {
      a := bound;
    }
  }

  /** The good strides are exactly the multiples of the least one. */
  lemma FillsIffMultiple(pixel: nat, word: nat, a: nat, stride: int)
    requires word > 0 && Least(pixel, word, a)
    ensures Fills(pixel, word, stride) <==> Divides(a, stride)
  {
    var q, r := stride / a, stride % a;
    assert stride == a * q + r;
    if Fills(pixel, word, stride) {
      FillsDifference(pixel, word, stride, a, q);
      assert stride - q * a == r;
    }
    if r == 0 {
      assert pixel * 0 == 0 && Fills(pixel, word, 0);
      FillsDifference(pixel, word, 0, a, -q);
      assert 0 - -q * a == stride;
    }
  }

  lemma AlignIsCofactor(pixel: nat, word: nat, gcd: nat, c: nat)
    requires pixel > 0 && gcd > 0 && word == gcd * c
    ensures Align(pixel, word, gcd) == c
  {
    assert pixel * word == gcd * (pixel * c);
    Unique(pixel * word, gcd, pixel * c, 0);
    Unique(pixel * c, pixel, c, 0);
  }

  lemma CofactorFills(pixel: nat, word: nat, gcd: nat, c: nat)
    requires word == gcd * c > 0 && Divides(gcd, pixel)
    ensures Fills(pixel, word, c)
  {
    var p := Quotient(gcd, pixel);
    assert pixel * c == gcd * p * c == word * p;
    MultipleDivides(word, p);
  }

  lemma LeastIsCofactor(pixel: nat, word: nat, a: nat) returns (d: nat)
    requires pixel > 0 && word > 0 && Least(pixel, word, a)
    ensures word == d * a && Divides(d, pixel) && Divides(d, word)
  {
    assert pixel * word == word * pixel;
    MultipleDivides(word, pixel);
    FillsIffMultiple(pixel, word, a, word);
    d := word / a;
    assert word == d * a;
    assert d > 0;
    var k := Quotient(word, pixel * a);
    assert pixel * a == d * a * k == (d * k) * a;
    assert (pixel - d * k) * a == 0;
    assert pixel == d * k;
    MultipleDivides(d, k);
    MultipleDivides(d, a);
  }

  /** The reported alignment is the least good stride. */
  lemma AlignIsLeast(pixel: nat, word: nat, gcd: nat)
    requires pixel > 0 && word > 0 && IsGcd(gcd, pixel, word)
    ensures Align(pixel, word, gcd) > 0 && Least(pixel, word, Align(pixel, word, gcd))
  {
    var c := Quotient(gcd, word);
    assert c > 0;
    AlignIsCofactor(pixel, word, gcd, c);
    CofactorFills(pixel, word, gcd, c);
    var a := LeastExists(pixel, word, c);
    var d := LeastIsCofactor(pixel, word, a);
    assert d <= gcd;
    SameProduct(gcd, c, d, a);
  }

  lemma SameProduct(g: nat, c: nat, d: nat, a: nat)
    requires g * c == d * a && d <= g && a <= c && g > 0
    ensures a == c
  {
    assert g * c == g * a + g * (c - a);
    assert g * a == d * a + (g - d) * a;
    if a < c {
      AtLeastOnce(g, c - a);
    }
  }

  // ---- rga_check_align ----

  datatype Mode = Raster | Fbc | Tile

  datatype Layout = Layout(mode: Mode, width: int, height: int, wstride: int, hstride: int)

  predicate ModeAligned(l: Layout, reading: bool) {
    match l.mode
    case Raster => true
    case Fbc => Divides(16, l.wstride) && Divides(16, l.hstride)
    case Tile =>
      && Divides(8, l.width) && Divides(8, l.height)
      && (reading ==> Divides(16, l.wstride) && Divides(16, l.hstride))
  }

  /** Compressed images need strides in sixteens, tiled ones sizes in eights and, as a source, strides
      in sixteens; raster images need nothing. */
  lemma ModeAlignedIff(l: Layout, reading: bool)
    ensures l.mode == Raster ==> ModeAligned(l, reading)
    ensures l.mode == Fbc ==> (ModeAligned(l, reading) <==> l.wstride % 16 == 0 && l.hstride % 16 == 0)
    ensures l.mode == Tile ==>
              (ModeAligned(l, reading) <==>
                 && l.width % 8 == 0 && l.height % 8 == 0
                 && (reading ==> l.wstride % 16 == 0 && l.hstride % 16 == 0))
  {
  }

  /** A layout is accepted exactly when its mode's sizes are aligned and its stride is a multiple of
      the alignment a refusal would report, which is the least positive stride that works. A format
      of unknown pixel size (0 bits) passes. */
  method CheckAlign(l: Layout, pixel: nat, byteStride: nat, reading: bool, garbage: int)
    returns (status: int, reported: Option<int>)
    requires byteStride > 0
    ensures status == NOERROR || status == NOT_SUPPORTED
    ensures pixel == 0 ==> (status == NOERROR <==> ModeAligned(l, reading))
    ensures forall align: nat | pixel > 0 && Least(pixel, 8 * byteStride, align) ::
              status == NOERROR <==> ModeAligned(l, reading) && Divides(align, l.wstride)
    ensures status == NOERROR <==> ModeAligned(l, reading) && (pixel * l.wstride) % (8 * byteStride) == 0
    ensures reported.Some? <==> status != NOERROR && ModeAligned(l, reading)
    ensures reported.Some? ==> reported.value > 0 && Least(pixel, 8 * byteStride, reported.value)
  {
    reported := None;
    match l.mode {
    case Fbc =>
      if l.wstride % 16 != 0 { return NOT_SUPPORTED, None; }
      if l.hstride % 16 != 0 { return NOT_SUPPORTED, None; }
    case Tile =>
      if l.width % 8 != 0 { return NOT_SUPPORTED, None; }
      if l.height % 8 != 0 { return NOT_SUPPORTED, None; }
      if reading {
        if l.wstride % 16 != 0 { return NOT_SUPPORTED, None; }
        if l.hstride % 16 != 0 { return NOT_SUPPORTED, None; }
      }
    case Raster =>
    }
    var word := byteStride * 8;
    forall align: nat | pixel > 0 && Least(pixel, word, align)
      ensures Fills(pixel, word, l.wstride) <==> Divides(align, l.wstride)
    {
      FillsIffMultiple(pixel, word, align, l.wstride);
    }
    var bits := pixel * l.wstride;
    if bits % word == 0 {
      status := NOERROR;
    } else {
      var gcd := Gcd(pixel, word, garbage);
      AlignIsLeast(pixel, word, gcd);
      var align := ((pixel * word) / gcd) / pixel;
      reported := Some(align);
      status := NOT_SUPPORTED;
    }
  }
}
