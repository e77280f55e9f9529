/** Gaussian blur coefficients (im2d_api/src/im2d_impl.cpp): the normalised kernel, the points of it
    handed to the hardware, and the default sigmas. Reals stand for doubles; `exp` and `pi` are
    parameters of which only positivity is used. */
module Gaussian {
  import opened Common
  import opened Arithmetic

  ghost predicate Positive(exp: real -> real) { forall x :: exp(x) > 0.0 }

  /** The weight at offset (i, j) from the centre. */
  function Weight(exp: real -> real, pi: real, sigmaX: real, sigmaY: real, i: int, j: int): (w: real)
    requires Positive(exp) && pi > 0.0 && sigmaX > 0.0 && sigmaY > 0.0
    ensures w > 0.0
  {
    ProductPositive(2.0 * sigmaX, sigmaX);
    ProductPositive(2.0 * sigmaY, sigmaY);
    ProductPositive(pi, sigmaX);
    ProductPositive(pi * sigmaX, sigmaY);
    var sX, sY := 2.0 * sigmaX * sigmaX, 2.0 * sigmaY * sigmaY;
    var weightX, weightY := exp(-(j * j) as real / sX), exp(-(i * i) as real / sY);
    ProductPositive(weightX, weightY);
    ProductPositive(weightX * weightY, pi * sigmaX * sigmaY);
    weightX * weightY / (pi * sigmaX * sigmaY)
  }

  predicate Multiplies(exp: real -> real, x: real, y: real) { exp(x + y) == exp(x) * exp(y) }

  /** The weights are the two-dimensional Gaussian of the two sigmas, scaled by 1 / (pi sx sy), for any
      function that turns sums into products. */
  lemma WeightIsGaussian(exp: real -> real, pi: real, sx: real, sy: real, i: int, j: int)
    requires Positive(exp) && (forall x, y :: Multiplies(exp, x, y)) && pi > 0.0 && sx > 0.0 && sy > 0.0
    ensures 2.0 * sx * sx > 0.0 && 2.0 * sy * sy > 0.0 && pi * sx * sy > 0.0
    ensures Weight(exp, pi, sx, sy, i, j) * (pi * sx * sy) ==
              exp(-((j * j) as real / (2.0 * sx * sx)) + -((i * i) as real / (2.0 * sy * sy)))
  {
    ProductPositive(2.0 * sx, sx);
    ProductPositive(2.0 * sy, sy);
    ProductPositive(pi, sx);
    ProductPositive(pi * sx, sy);
    var x, y := -((j * j) as real / (2.0 * sx * sx)), -((i * i) as real / (2.0 * sy * sy));
    NegatedQuotient((j * j) as real, 2.0 * sx * sx);
    NegatedQuotient((i * i) as real, 2.0 * sy * sy);
    assert Multiplies(exp, x, y);
    QuotientTimes(exp(x) * exp(y), pi * sx * sy);
  }

  lemma NegatedQuotient(x: real, y: real)
    requires y > 0.0
    ensures -x / y == -(x / y)
  {
  }

  lemma QuotientTimes(x: real, y: real)
    requires y > 0.0
    ensures x / y * y == x
  {
  }

  function Weights(exp: real -> real, pi: real, sigmaX: real, sigmaY: real): (int, int) -> real
    requires Positive(exp) && pi > 0.0 && sigmaX > 0.0 && sigmaY > 0.0
  {
    (i, j) => Weight(exp, pi, sigmaX, sigmaY, i, j)
  }

  // ---- The kernel ----

  predicate Odd(n: int) { n > 0 && n % 2 == 1 }

  /** The buffer index the loops compute for offset (i, j). */
  function Index(width: nat, height: nat, i: int, j: int): int { (i + height / 2) * width + (j + width / 2) }

  predicate Visited(width: nat, height: nat, i: int, j: int) {
    -(height / 2) <= i <= height / 2 && -(width / 2) <= j <= width / 2
  }

  /** The loops stay inside a buffer of width * height cells exactly when both sizes are odd. */
  lemma InBoundsIffOdd(width: nat, height: nat)
    requires width > 0 && height > 0
    ensures (forall i, j | Visited(width, height, i, j) :: 0 <= Index(width, height, i, j) < width * height)
            <==> width % 2 == 1 && height % 2 == 1
  {
    if Odd(width) && Odd(height) {
      forall i, j | Visited(width, height, i, j) ensures 0 <= Index(width, height, i, j) < width * height {
        CellIndex(width, height, i + height / 2, j + width / 2);
      }
    } else {
      LastOffset(width, height);
      assert Visited(width, height, height / 2, width / 2);
      assert Index(width, height, height / 2, width / 2) >= width * height;
    }
  }

  /** The loops run over all offsets up to half the size, and lay rows out one after the other. */
  lemma LoopsAre(width: nat, height: nat, i: int, j: int)
    ensures Visited(width, height, i, j) <==> -(height / 2) <= i <= height / 2 && -(width / 2) <= j <= width / 2
    ensures Index(width, height, i, j) == (i + height / 2) * width + j + width / 2
  {
  }

  lemma LastOffset(width: nat, height: nat)
    requires width > 0 && height > 0 && !(Odd(width) && Odd(height))
    ensures (height / 2 + height / 2) * width + (width / 2 + width / 2) >= width * height
  {
    var row, col := height / 2 + height / 2, width / 2 + width / 2;
    if Odd(height) {
      assert row == height - 1 && col == width;
      assert row * width + width == height * width;
    } else {
      assert row == height;
    }
  }

  lemma CellIndex(width: nat, height: nat, row: int, col: int)
    requires 0 <= row < height && 0 <= col < width
    ensures 0 <= row * width + col < width * height
  {
    var below := height - row;
    assert width * height == row * width + width * below;
    AtLeastOnce(width, below);
  }

  function Sum(s: seq<real>): real { if s == [] then 0.0 else Sum(s[..|s| - 1]) + s[|s| - 1] }

  lemma SumAppend(s: seq<real>, x: real)
    ensures Sum(s + [x]) == Sum(s) + x
  {
    assert (s + [x])[..|s|] == s;
  }

  ghost predicate AllPositive(s: seq<real>) { forall k | 0 <= k < |s| :: s[k] > 0.0 }

  function Divided(s: seq<real>, d: real): seq<real>
    requires d != 0.0
  {
    seq(|s|, k requires 0 <= k < |s| => s[k] / d)
  }

  lemma {:induction false} SumDivided(s: seq<real>, d: real)
    requires d != 0.0
    ensures Sum(Divided(s, d)) == Sum(s) / d
  {
    if s != [] {
      var front, last := s[..|s| - 1], s[|s| - 1];
      SumDivided(front, d);
      assert Divided(s, d) == Divided(front, d) + [last / d];
      SumAppend(Divided(front, d), last / d);
      assert Sum(front) / d + last / d == (Sum(front) + last) / d;
    }
  }

  lemma {:induction false} PartAtMostSum(s: seq<real>, k: nat)
    requires AllPositive(s) && k < |s|
    ensures 0.0 < s[k] <= Sum(s)
  {
    var front := s[..|s| - 1];
    if k < |front| {
      PartAtMostSum(front, k);
    } else if front != [] {
      PartAtMostSum(front, 0);
    }
  }

  /** A normalised kernel: the entries are positive, sum to 1 and so are at most 1. */
  lemma NormalisedSumsToOne(raw: seq<real>)
    requires AllPositive(raw) && raw != []
    ensures Sum(raw) > 0.0 && Sum(Divided(raw, Sum(raw))) == 1.0
    ensures forall k | 0 <= k < |raw| :: 0.0 < Divided(raw, Sum(raw))[k] <= 1.0
  {
    PartAtMostSum(raw, 0);
    var d := Sum(raw);
    var kernel := Divided(raw, d);
    SumDivided(raw, d);
    ShareOfItself(d);
    DividedPositive(raw, d);
    forall k | 0 <= k < |kernel| ensures 0.0 < kernel[k] <= 1.0 {
      PartAtMostSum(kernel, k);
    }
  }

  lemma ShareOfItself(d: real)
    requires d > 0.0
    ensures d / d == 1.0
  {
  }

  lemma DividedPositive(s: seq<real>, d: real)
    requires AllPositive(s) && d > 0.0
    ensures AllPositive(Divided(s, d))
  {
    forall k | 0 <= k < |s| ensures Divided(s, d)[k] > 0.0 {
      ProductPositive(s[k], d);
    }
  }

  /** The weights in row-major order, before normalisation. */
  ghost predicate IsRaw(raw: seq<real>, weight: (int, int) -> real, width: nat, height: nat, n: nat)
    requires width > 0
  {
    && |raw| == n
    && forall k {:trigger At(weight, width, height, k)} | 0 <= k < n :: raw[k] == At(weight, width, height, k)
  }

  /** The weight of cell k: that of its row and column, counted from the centre. */
  function At(weight: (int, int) -> real, width: nat, height: nat, k: int): real
    requires width > 0
  {
    weight(k / width - height / 2, k % width - width / 2)
  }

  lemma RowMajor(width: nat, row: nat, col: nat)
    requires col < width
    ensures (row * width + col) / width == row && (row * width + col) % width == col
  {
    Unique(row * width + col, width, row, col);
  }

  lemma RawAppend(raw: seq<real>, weight: (int, int) -> real, width: nat, height: nat, row: nat, col: nat)
    requires col < width && IsRaw(raw, weight, width, height, row * width + col)
    ensures IsRaw(raw + [weight(row - height / 2, col - width / 2)], weight, width, height, row * width + col + 1)
  {
    RowMajor(width, row, col);
  }

  lemma RawPositive(raw: seq<real>, weight: (int, int) -> real, width: nat, height: nat, n: nat)
    requires width > 0 && IsRaw(raw, weight, width, height, n)
    requires forall i, j :: weight(i, j) > 0.0
    ensures AllPositive(raw)
  {
    forall k | 0 <= k < n ensures raw[k] > 0.0 {
      assert raw[k] == At(weight, width, height, k);
    }
  }

  /** The first `n` cells hold their weights, and `sum` adds them up. */
  ghost predicate Filled(kernel: array<real>, weight: (int, int) -> real, width: nat, height: nat, n: nat, sum: real)
    requires width > 0
    reads kernel
  {
    n <= kernel.Length && IsRaw(kernel[..n], weight, width, height, n) && sum == Sum(kernel[..n])
  }

  /** The number of cells in the rows above offset i. */
  function Cells(width: nat, height: nat, i: int): nat
    requires -(height / 2) <= i
  {
    (i + height / 2) * width
  }

  lemma CellsSteps(width: nat, height: nat, i: int)
    requires -(height / 2) <= i
    ensures Cells(width, height, i + 1) == Cells(width, height, i) + width
  {
    assert (i + 1 + height / 2) * width == (i + height / 2) * width + width;
  }

  lemma CellsTotal(width: nat, height: nat)
    requires Odd(height)
    ensures Cells(width, height, -(height / 2)) == 0 && Cells(width, height, height / 2 + 1) == width * height
    ensures forall i | -(height / 2) <= i <= height / 2 + 1 :: Cells(width, height, i) <= width * height
  {
    assert height / 2 + 1 + height / 2 == height;
    assert height * width == width * height;
    forall i | -(height / 2) <= i <= height / 2 + 1 ensures Cells(width, height, i) <= width * height {
      var below: nat := height / 2 + 1 - i;
      assert height * width == (i + height / 2) * width + below * width;
      assert below * width >= 0;
    }
  }

  lemma AppendCell(before: seq<real>, weight: (int, int) -> real, width: nat, height: nat, i: int, j: int)
    requires Odd(width) && -(height / 2) <= i && -(width / 2) <= j <= width / 2
    requires IsRaw(before, weight, width, height, Cells(width, height, i) + (j + width / 2))
    ensures IsRaw(before + [weight(i, j)], weight, width, height, Cells(width, height, i) + (j + width / 2) + 1)
    ensures Sum(before + [weight(i, j)]) == Sum(before) + weight(i, j)
    ensures Index(width, height, i, j) == Cells(width, height, i) + (j + width / 2)
  {
    RawAppend(before, weight, width, height, i + height / 2, j + width / 2);
    SumAppend(before, weight(i, j));
  }

  /** One pass of the inner loop. Its `n`th iteration overall writes cell n, so no cell is written
      twice. */
  method FillRow(weight: (int, int) -> real, width: nat, height: nat, i: int, kernel: array<real>, sum0: real)
    returns (sum: real)
    requires Odd(width) && -(height / 2) <= i && Cells(width, height, i + 1) <= kernel.Length
    requires Filled(kernel, weight, width, height, Cells(width, height, i), sum0)
    modifies kernel
    ensures Filled(kernel, weight, width, height, Cells(width, height, i + 1), sum)
  {
    sum := sum0;
    ghost var n := Cells(width, height, i);
    CellsSteps(width, height, i);
    var j := -(width / 2);
    while j <= width / 2
      invariant -(width / 2) <= j <= width / 2 + 1 && n == Cells(width, height, i) + (j + width / 2)
      invariant Filled(kernel, weight, width, height, n, sum)
    {
      ghost var before := kernel[..n];
      AppendCell(before, weight, width, height, i, j);
      var index := Index(width, height, i, j);
      kernel[index] := weight(i, j);
      sum := sum + kernel[index];
      assert kernel[..n + 1] == before + [weight(i, j)];
      j := j + 1;
      n := n + 1;
    }
  }

  /** Every cell holds its weight's share of the total. */
  ghost predicate IsKernel(kernel: seq<real>, weight: (int, int) -> real, width: nat, height: nat)
    requires width > 0
  {
    exists raw ::
      IsRaw(raw, weight, width, height, width * height) && Sum(raw) > 0.0 && kernel == Divided(raw, Sum(raw))
  }

  /** Read by offset: every weight is at the cell its row and column give, divided by the total. */
  lemma KernelCell(kernel: seq<real>, weight: (int, int) -> real, width: nat, height: nat)
    returns (total: real)
    requires Odd(width) && Odd(height) && IsKernel(kernel, weight, width, height)
    ensures total > 0.0 && |kernel| == width * height
    ensures forall i, j | -(height / 2) <= i <= height / 2 && -(width / 2) <= j <= width / 2 ::
              var n := (i + height / 2) * width + (j + width / 2);
              0 <= n < |kernel| && kernel[n] == weight(i, j) / total
  {
    var raw :| IsRaw(raw, weight, width, height, width * height) && Sum(raw) > 0.0 && kernel == Divided(raw, Sum(raw));
    total := Sum(raw);
    forall i, j | -(height / 2) <= i <= height / 2 && -(width / 2) <= j <= width / 2
      ensures var n := (i + height / 2) * width + (j + width / 2);
              0 <= n < |kernel| && kernel[n] == weight(i, j) / total
    {
      CellWeight(raw, weight, width, height, i, j);
    }
  }

  lemma CellWeight(raw: seq<real>, weight: (int, int) -> real, width: nat, height: nat, i: int, j: int)
    requires Odd(width) && Odd(height) && IsRaw(raw, weight, width, height, width * height)
    requires -(height / 2) <= i <= height / 2 && -(width / 2) <= j <= width / 2
    ensures var n := (i + height / 2) * width + (j + width / 2);
            0 <= n < |raw| && raw[n] == weight(i, j)
  {
    CellIndex(width, height, i + height / 2, j + width / 2);
    RowMajor(width, i + height / 2, j + width / 2);
    assert raw[(i + height / 2) * width + (j + width / 2)]
           == At(weight, width, height, (i + height / 2) * width + (j + width / 2));
  }

  predicate IsNormal(kernel: seq<real>) {
    Sum(kernel) == 1.0 && forall k | 0 <= k < |kernel| :: 0.0 < kernel[k] <= 1.0
  }

  lemma KernelFromRaw(raw: seq<real>, weight: (int, int) -> real, width: nat, height: nat)
    requires width > 0 && height > 0 && IsRaw(raw, weight, width, height, width * height)
    requires forall i, j :: weight(i, j) > 0.0
    ensures Sum(raw) > 0.0
    ensures IsKernel(Divided(raw, Sum(raw)), weight, width, height) && IsNormal(Divided(raw, Sum(raw)))
  {
    CellIndex(width, height, 0, 0);
    RawPositive(raw, weight, width, height, width * height);
    NormalisedSumsToOne(raw);
  }

  /** generate_gaussian_kernel */
  method GenerateKernel(weight: (int, int) -> real, width: nat, height: nat, kernel: array<real>)
    requires Odd(width) && Odd(height) && kernel.Length == width * height
    requires forall i, j :: weight(i, j) > 0.0
    modifies kernel
    ensures IsKernel(kernel[..], weight, width, height) && IsNormal(kernel[..])
    ensures Sum(kernel[..]) == 1.0 && forall k | 0 <= k < kernel.Length :: 0.0 < kernel[k] <= 1.0
  {
    CellsTotal(width, height);
    var sum := 0.0;
    var i := -(height / 2);
    while i <= height / 2
      invariant -(height / 2) <= i <= height / 2 + 1
      invariant Filled(kernel, weight, width, height, Cells(width, height, i), sum)
    {
      sum := FillRow(weight, width, height, i, kernel, sum);
      i := i + 1;
    }
    assert kernel[..] == kernel[..width * height];
    KernelFromRaw(kernel[..], weight, width, height);
    Normalise(kernel, sum);
  }

  /** The normalising loop. */
  method Normalise(kernel: array<real>, sum: real)
    requires sum != 0.0
    modifies kernel
    ensures kernel[..] == Divided(old(kernel[..]), sum)
  {
    var k := 0;
    while k < kernel.Length
      invariant 0 <= k <= kernel.Length
      invariant forall m | 0 <= m < k :: kernel[m] == old(kernel[m]) / sum
      invariant forall m | k <= m < kernel.Length :: kernel[m] == old(kernel[m])
    {
      kernel[k] := kernel[k] / sum;
      k := k + 1;
    }
  }

  // ---- The special points ----

  /** What C makes of converting a value that no uint32_t can hold: anything. */
  type Undefined = real -> nat

  /** C converts to uint32_t by truncation, which is defined for values above -1 and below 2^32. */
  function ToUint32(x: real, undefined: Undefined): nat {
    if 0.0 <= x < 0x1_0000_0000 as real then x.Floor else if -1.0 < x < 0.0 then 0 else undefined(x)
  }

  lemma ToUint32Is(x: real, undefined: Undefined)
    ensures var n := ToUint32(x, undefined);
            && (0.0 <= x < 4294967296.0 ==> n as real <= x < n as real + 1.0)
            && (-1.0 < x < 0.0 ==> n == 0) && (x <= -1.0 || x >= 4294967296.0 ==> n == undefined(x))
  {
  }

  /** A kernel value on the hardware's scale. */
  function Quantized(x: real, factor: nat, undefined: Undefined): nat { ToUint32(x * factor as real + 0.5, undefined) }

  /** A value in [0, 1] lands in 0..factor, within a half of its exact place. */
  lemma QuantizedInRange(x: real, factor: nat, undefined: Undefined)
    requires 0.0 <= x <= 1.0 && factor < 0xffff_ffff
    ensures Quantized(x, factor, undefined) <= factor
    ensures -0.5 <= Quantized(x, factor, undefined) as real - x * factor as real <= 0.5
  {
    var p := Scaled(x, factor as real);
    FloorBelow(p + 0.5, factor);
  }

  lemma FloorBelow(y: real, n: nat)
    requires 0.5 <= y <= n as real + 0.5 && n < 0xffff_ffff
    ensures y.Floor <= n && y < 0x1_0000_0000 as real
  {
    assert y.Floor as real <= y;
  }

  /** A value fits the 0..255 a coefficient may have, whatever an undefined conversion gives, exactly
      when its scaled value lies above -1.5 and below 255.5. */
  lemma CoefficientFitsIff(x: real)
    ensures (forall undefined: Undefined :: Quantized(x, 255, undefined) <= 255) <==> -1.5 < x * 255.0 < 255.5
  {
    if !(-1.5 < x * 255.0 < 255.5) {
      var large: Undefined := _ => 256;
      assert Quantized(x, 255, large) > 255;
    }
  }

  /** It is too large whatever an undefined conversion gives, because it is converted as it stands,
      exactly when the scaled value is at least 255.5 and some uint32_t can hold it. */
  lemma CoefficientOverflowsIff(x: real)
    ensures (forall undefined: Undefined :: Quantized(x, 255, undefined) > 255) <==>
              255.5 <= x * 255.0 < 0x1_0000_0000 as real - 0.5
  {
    if !(255.5 <= x * 255.0 < 0x1_0000_0000 as real - 0.5) {
      var small: Undefined := _ => 0;
      assert Quantized(x, 255, small) <= 255;
    }
  }

  /** An entry of 2 makes a coefficient of 510. */
  lemma LargeEntry(undefined: Undefined)
    ensures Quantized(2.0, 255, undefined) == 510
  {
  }

  lemma Scaled(x: real, f: real) returns (p: real)
    requires 0.0 <= x <= 1.0 && f >= 0.0
    ensures p == x * f && 0.0 <= p <= f
  {
    p := x * f;
    if x > 0.0 && f > 0.0 {
      ProductPositive(x, f);
    }
    if x < 1.0 && f > 0.0 {
      ProductPositive(1.0 - x, f);
      assert (1.0 - x) * f == f - p;
    }
  }

  /** The number of points the two loops write. */
  function PointCount(rows: nat, cols: nat): nat { rows / 2 + 1 + cols / 2 }

  /** They fill the buffer of (rows + cols) / 2 words, no more and no less, exactly for odd sizes. */
  lemma PointsFitIffOdd(rows: nat, cols: nat)
    requires rows > 0 && cols > 0
    ensures PointCount(rows, cols) == (rows + cols) / 2 <==> Odd(rows) && Odd(cols)
  {
  }

  /** A 2 x 2 kernel: its last weight would be written to cell 6 of 4, and 3 points to a buffer of 2. */
  lemma EvenSizeExample()
    ensures Visited(2, 2, 1, 1) && Index(2, 2, 1, 1) == 6 && PointCount(2, 2) == 3
  {
  }

  /** The cell read for point k: along the first row to the middle, then down to the centre. */
  function PointCell(rows: nat, k: nat): nat { if k <= rows / 2 then k else (k - rows / 2) * rows + rows / 2 }

  /** The path by row and column: the first row up to its middle, then down the middle column. */
  lemma PointPath(rows: nat, k: nat)
    ensures k <= rows / 2 ==> PointCell(rows, k) == 0 * rows + k
    ensures k > rows / 2 ==> PointCell(rows, k) == (k - rows / 2) * rows + rows / 2
    ensures PointCell(3, 0) == 0 && PointCell(3, 1) == 1 && PointCell(3, 2) == 4
  {
  }

  lemma PointCellInside(rows: nat, cols: nat, k: nat)
    requires Odd(rows) && Odd(cols) && k < PointCount(rows, cols)
    ensures PointCell(rows, k) < rows * cols
    ensures k == PointCount(rows, cols) - 1 ==> PointCell(rows, k) == rows * cols / 2
  {
    if k <= rows / 2 {
      CellIndex(rows, cols, 0, k);
    } else {
      CellIndex(rows, cols, k - rows / 2, rows / 2);
    }
    if k == PointCount(rows, cols) - 1 {
      var a, b := rows / 2, cols / 2;
      assert rows == 2 * a + 1 && cols == 2 * b + 1;
      assert rows * cols == 2 * (b * rows + a) + 1;
    }
  }

  /** rga_get_gaussian_special_points */
  method SpecialPoints(rows: nat, cols: nat, kernel: seq<real>, points: array<nat>, factor: nat, centerFactor: nat,
                       undefined: Undefined)
    returns (index: nat)
    requires Odd(rows) && Odd(cols) && |kernel| == rows * cols && points.Length == (rows + cols) / 2
    modifies points
    ensures index == points.Length
    ensures forall k | 0 <= k < index ::
              && PointCell(rows, k) < |kernel|
              && points[k] == Quantized(kernel[PointCell(rows, k)],
                                        if k == index - 1 && cols > 1 then centerFactor else factor, undefined)
  {
    index := 0;
    var centerRows, centerCols := rows / 2, cols / 2;
    forall k | 0 <= k < PointCount(rows, cols) ensures PointCell(rows, k) < |kernel| {
      PointCellInside(rows, cols, k);
    }
    var i := 0;
    while i <= centerRows
      invariant 0 <= i <= centerRows + 1 && index == i
      invariant forall k | 0 <= k < index :: points[k] == Quantized(kernel[PointCell(rows, k)], factor, undefined)
    {
      assert PointCell(rows, i) == i;
      points[index] := Quantized(kernel[0 + i], factor, undefined);
      index := index + 1;
      i := i + 1;
    }
    i := 1;
    while i <= centerCols
      invariant 1 <= i <= centerCols + 1 && index == centerRows + i
      invariant forall k | 0 <= k < index ::
                  points[k] == Quantized(kernel[PointCell(rows, k)],
                                         if k == centerRows + centerCols && cols > 1 then centerFactor else factor,
                                         undefined)
    {
      assert PointCell(rows, index) == i * rows + centerRows;
      points[index] := 
        Quantized(kernel[i * rows + centerRows], if i == centerCols then centerFactor else factor, undefined);
      index := index + 1;
      i := i + 1;
    }
  }

  // ---- The whole configuration ----

  /** Corner, edge and centre of a 3 x 3 kernel on the hardware's scale. */
  predicate IsPoints(coe: seq<nat>, kernel: seq<real>, undefined: Undefined) {
    && |coe| == 3 && |kernel| == 9 && coe[0] == Quantized(kernel[0], 255, undefined)
    && coe[1] == Quantized(kernel[1], 255, undefined) && coe[2] == Quantized(kernel[4], 255, undefined)
  }

  /** The coefficients of a kernel with entries in [0, 1] are at most 255. */
  lemma PointsFit(coe: seq<nat>, kernel: seq<real>, undefined: Undefined)
    requires IsPoints(coe, kernel, undefined) && forall k | 0 <= k < 9 :: 0.0 <= kernel[k] <= 1.0
    ensures forall k | 0 <= k < 3 :: coe[k] <= 255
  {
    QuantizedInRange(kernel[0], 255, undefined);
    QuantizedInRange(kernel[1], 255, undefined);
    QuantizedInRange(kernel[4], 255, undefined);
  }

  function DefaultSigma(size: int): real { 0.3 * ((size - 1) as real * 0.5 - 1.0) + 0.8 }

  /** im_gauss_t */
  class Blur {
    var sigmaX: real
    var sigmaY: real
    const width: int
    const height: int
    const matrix: seq<real>   // empty when the caller supplies none

    constructor (width: int, height: int, sigmaX: real, sigmaY: real, matrix: seq<real>)
      ensures this.width == width && this.height == height && this.matrix == matrix
      ensures this.sigmaX == sigmaX && this.sigmaY == sigmaY
    {
      this.width, this.height, this.sigmaX, this.sigmaY, this.matrix := width, height, sigmaX, sigmaY, matrix;
    }

    /** The defaulting rules, for any size: both sigmas end up positive, a given one is kept, a
        missing vertical one copies the horizontal, other missing ones follow the size. */
    method DefaultSigmas()
      requires width > 0 && height > 0
      modifies this
      ensures sigmaX > 0.0 && sigmaY > 0.0
      ensures sigmaX == if old(sigmaX) > 0.0 then old(sigmaX) else 0.3 * ((width as real - 1.0) / 2.0 - 1.0) + 0.8
      ensures sigmaX == if old(sigmaX) > 0.0 then old(sigmaX) else DefaultSigma(width)
      ensures old(sigmaX) <= 0.0 && old(sigmaY) <= 0.0 ==> sigmaY == 0.3 * ((height as real - 1.0) / 2.0 - 1.0) + 0.8
      ensures sigmaY == if old(sigmaY) > 0.0 then old(sigmaY)
                        else if old(sigmaX) > 0.0 then old(sigmaX) else DefaultSigma(height)
    {
      if sigmaX <= 0.0 && sigmaY > 0.0 {
        sigmaX := DefaultSigma(width);
      }
      if sigmaX <= 0.0 && sigmaY <= 0.0 {
        sigmaX := DefaultSigma(width);
        sigmaY := DefaultSigma(height);
      }
      if sigmaY <= 0.0 {
        sigmaY := sigmaX;
      }
    }

    /** rga_generate_gauss_coe. Sizes other than 3 x 3 are refused; otherwise three words are
        configured: corner, edge and centre, each at most 255 unless the caller's own matrix has
        entries outside [0, 1]. */
    method Coefficients(exp: real -> real, pi: real, undefined: Undefined) returns (status: int, coe: seq<nat>)
      requires Positive(exp) && pi > 0.0
      requires matrix != [] ==> |matrix| == width * height
      modifies this
      ensures status == SUCCESS <==> width == 3 && height == 3
      ensures status != SUCCESS ==> status == NOT_SUPPORTED && coe == [] && unchanged(this)
      ensures status == SUCCESS ==> sigmaX > 0.0 && sigmaY > 0.0 && |coe| == 3
      ensures status == SUCCESS ==> sigmaX == if old(sigmaX) > 0.0 then old(sigmaX) else 0.8
      ensures status == SUCCESS ==>
                sigmaY == if old(sigmaY) > 0.0 then old(sigmaY) else if old(sigmaX) > 0.0 then old(sigmaX) else 0.8
      ensures status == SUCCESS && matrix != [] ==> IsPoints(coe, matrix, undefined)
      ensures status == SUCCESS && matrix == [] ==>
                exists kernel ::
                  && IsKernel(kernel, Weights(exp, pi, sigmaX, sigmaY), 3, 3) && IsNormal(kernel)
                  && IsPoints(coe, kernel, undefined)
      ensures status == SUCCESS && (forall k | 0 <= k < |matrix| :: 0.0 <= matrix[k] <= 1.0) ==>
                forall k | 0 <= k < 3 :: coe[k] <= 255
    {
      if width != 3 || height != 3 {
        return NOT_SUPPORTED, [];
      }
      DefaultSigmas();
      var kernel := matrix;
      if matrix == [] {
        var sx, sy := sigmaX, sigmaY;
        var cells := new real[9];
        GenerateKernel(Weights(exp, pi, sx, sy), 3, 3, cells);
        kernel := cells[..];
      }
      var points := new nat[(width + height) / 2];
      var n := SpecialPoints(3, 3, kernel, points, 255, 255, undefined);
      coe := points[..];
      assert PointCell(3, 0) == 0 && PointCell(3, 1) == 1 && PointCell(3, 2) == 4;
      if forall k | 0 <= k < |kernel| :: 0.0 <= kernel[k] <= 1.0 {
        PointsFit(coe, kernel, undefined);
      }
      status := SUCCESS;
    }
  }

  /** A caller's matrix of twos passes, and its corner coefficient is 510. */
  method LargeMatrixExample(undefined: Undefined) returns (status: int, coe: seq<nat>)
    ensures status == SUCCESS && |coe| == 3 && coe[0] == 510
  {
    var twos := seq(9, _ => 2.0);
    var blur := new Blur(3, 3, 1.0, 1.0, twos);
    LargeEntry(undefined);
    status, coe := blur.Coefficients(_ => 1.0, 3.0, undefined);
  }
}
