/** The edge detectors of the "Passa-alta" page, applyRobertsFilter and
    applySobelFilter: per channel, two 3 x 3 convolutions gx and gy combined as
    sqrt(gx * gx + gy * gy), clamped by `normalize` and stored. */
module Gradient {
  import opened Raster
  import opened Window

  // ---------------------------------------------------------------------------
  // Kernels and the convolution helper

  /** A 3 x 3 kernel, indexed kernel[j + 1][i + 1] for the neighbour at (i, j). */
  predicate IsKernel(kernel: seq<seq<int>>)
  {
    |kernel| == 3 && forall row :: 0 <= row < 3 ==> |kernel[row]| == 3
  }

  const RobertsX: seq<seq<int>> := [[0, 0, -1], [0, 1, 0], [0, 0, 0]]
  const RobertsY: seq<seq<int>> := [[-1, 0, 0], [0, 1, 0], [0, 0, 0]]
  const SobelX: seq<seq<int>> := [[1, 0, -1], [2, 0, -2], [1, 0, -1]]
  const SobelY: seq<seq<int>> := [[1, 2, 1], [0, 0, 0], [-1, -2, -1]]

  /** The kernel as window weights: offset (kx, ky) gets kernel[ky + 1][kx + 1]. */
  function KernelWeights(kernel: seq<seq<int>>): Weights
    requires IsKernel(kernel)
  {
    (kx: int, ky: int) => if -1 <= kx <= 1 && -1 <= ky <= 1 then kernel[ky + 1][kx + 1] else 0
  }

  /** The convolution of channel p at (x, y): the 3 x 3 window total under the kernel. */
  function Convolved(data: seq<Byte>, w: nat, h: nat, x: nat, y: nat, p: nat, kernel: seq<seq<int>>): int
    requires IsImage(data, w, h) && Interior(w, h, 1, x, y) && p < 4 && IsKernel(kernel)
  {
    WindowTotal(data, w, h, 1, x, y, p, KernelWeights(kernel))
  }

  /** Column i of the convolution, for j in [-1, n - 1): the order of the inner j loop. */
  function ColumnTotal(data: seq<Byte>, w: nat, h: nat, x: nat, y: nat, p: nat,
                       kernel: seq<seq<int>>, i: int, n: nat): int
    requires IsImage(data, w, h) && Interior(w, h, 1, x, y) && p < 4 && IsKernel(kernel)
    requires -1 <= i <= 1 && n <= 3
  {
    if n == 0 then 0
    else ColumnTotal(data, w, h, x, y, p, kernel, i, n - 1)
         + Sample(data, w, h, x + i, y + n - 2, p) * kernel[n - 1][i + 1]
  }

  /** The columns i in [-1, m - 1): the order of the outer i loop. */
  function ColumnsTotal(data: seq<Byte>, w: nat, h: nat, x: nat, y: nat, p: nat,
                        kernel: seq<seq<int>>, m: nat): int
    requires IsImage(data, w, h) && Interior(w, h, 1, x, y) && p < 4 && IsKernel(kernel)
    requires m <= 3
  {
    if m == 0 then 0
    else ColumnsTotal(data, w, h, x, y, p, kernel, m - 1) + ColumnTotal(data, w, h, x, y, p, kernel, m - 2, 3)
  }

  /** A whole column written out. */
  lemma ColumnOf3(data: seq<Byte>, w: nat, h: nat, x: nat, y: nat, p: nat, kernel: seq<seq<int>>, i: int)
    requires IsImage(data, w, h) && Interior(w, h, 1, x, y) && p < 4 && IsKernel(kernel) && -1 <= i <= 1
    ensures ColumnTotal(data, w, h, x, y, p, kernel, i, 3) ==
        kernel[0][i + 1] * Sample(data, w, h, x + i, y - 1, p)
      + kernel[1][i + 1] * Sample(data, w, h, x + i, y, p)
      + kernel[2][i + 1] * Sample(data, w, h, x + i, y + 1, p)
  {
    assert ColumnTotal(data, w, h, x, y, p, kernel, i, 1) == Sample(data, w, h, x + i, y - 1, p) * kernel[0][i + 1];
    assert ColumnTotal(data, w, h, x, y, p, kernel, i, 2)
        == ColumnTotal(data, w, h, x, y, p, kernel, i, 1) + Sample(data, w, h, x + i, y, p) * kernel[1][i + 1];
  }

  /** Summing column by column gives the same total as summing row by row. */
  lemma ColumnsAreRows(data: seq<Byte>, w: nat, h: nat, x: nat, y: nat, p: nat, kernel: seq<seq<int>>)
    requires IsImage(data, w, h) && Interior(w, h, 1, x, y) && p < 4 && IsKernel(kernel)
    ensures ColumnsTotal(data, w, h, x, y, p, kernel, 3) == Convolved(data, w, h, x, y, p, kernel)
  {
    ColumnOf3(data, w, h, x, y, p, kernel, -1);
    ColumnOf3(data, w, h, x, y, p, kernel, 0);
    ColumnOf3(data, w, h, x, y, p, kernel, 1);
    assert ColumnsTotal(data, w, h, x, y, p, kernel, 1) == ColumnTotal(data, w, h, x, y, p, kernel, -1, 3);
    assert ColumnsTotal(data, w, h, x, y, p, kernel, 2)
        == ColumnsTotal(data, w, h, x, y, p, kernel, 1) + ColumnTotal(data, w, h, x, y, p, kernel, 0, 3);
    WindowTotal3x3(data, w, h, x, y, p, KernelWeights(kernel));
  }

  /** The inner j loop of `convolution`: adds column i to `sum0`. */
  method ConvolutionColumn(data: seq<Byte>, width: nat, height: nat, x: nat, y: nat, p: nat,
                           kernel: seq<seq<int>>, i: int, sum0: int) returns (sum: int)
    requires IsImage(data, width, height) && Interior(width, height, 1, x, y) && p < 4 && IsKernel(kernel)
    requires -1 <= i <= 1
    ensures sum == sum0 + ColumnTotal(data, width, height, x, y, p, kernel, i, 3)
  {
    sum := sum0;
    var j := -1;
    while j <= 1
      invariant -1 <= j <= 2
      invariant sum == sum0 + ColumnTotal(data, width, height, x, y, p, kernel, i, j + 1)
    {
      IdxInBuffer(width, height, x + i, y + j, p);
      var pixelIndex := Idx(width, x + i, y + j, 0);
      var value := data[pixelIndex + p];
      sum := sum + value * kernel[j + 1][i + 1];
      j := j + 1;
    }
  }

  /** `convolution(x, y, p, kernel)`: the kernel-weighted sum of channel p around (x, y). */
  method Convolution(data: seq<Byte>, width: nat, height: nat, x: nat, y: nat, p: nat, kernel: seq<seq<int>>)
    returns (sum: int)
    requires IsImage(data, width, height) && Interior(width, height, 1, x, y) && p < 4 && IsKernel(kernel)
    ensures sum == Convolved(data, width, height, x, y, p, kernel)
  {
    sum := 0;
    var i := -1;
    while i <= 1
      invariant -1 <= i <= 2
      invariant sum == ColumnsTotal(data, width, height, x, y, p, kernel, i + 1)
    {
      sum := ConvolutionColumn(data, width, height, x, y, p, kernel, i, sum);
      i := i + 1;
    }
    ColumnsAreRows(data, width, height, x, y, p, kernel);
  }

  // ---------------------------------------------------------------------------
  // The rounded square root

  /** t * t + t and t * t - t grow with t. */
  lemma {:induction false} PronicMonotone(a: nat, b: nat)
    requires a <= b
    ensures a * a + a <= b * b + b
    ensures a * a - a <= b * b - b
    decreases b - a
  {
    if a < b {
      PronicMonotone(a, b - 1);
      assert b * b == (b - 1) * (b - 1) + 2 * (b - 1) + 1;
    }
  }

  /** The least r >= m with n <= r * r + r. */
  function RoundSqrtFrom(n: nat, m: nat): (r: nat)
    requires m == 0 || m * m - m < n
    decreases n - m
    ensures m <= r && n <= r * r + r && (r == 0 || r * r - r < n)
  {
    if n <= m * m + m then m
    else
      assert (m + 1) * (m + 1) - (m + 1) == m * m + m;
      RoundSqrtFrom(n, m + 1)
  }

  /** sqrt(n) rounded to the nearest integer, the value the clamped store of a
      Math.sqrt result keeps: r - 1/2 < sqrt(n) < r + 1/2. The square root of an
      integer is never exactly halfway between two integers. */
  function RoundSqrt(n: nat): (r: nat)
    ensures n == 0 <==> r == 0
    ensures n > 0 ==> (2 * r - 1) * (2 * r - 1) < 4 * n < (2 * r + 1) * (2 * r + 1)
    ensures n > 0 ==> r * r - r < n <= r * r + r
  {
    var r := RoundSqrtFrom(n, 0);
    assert (2 * r - 1) * (2 * r - 1) == 4 * (r * r - r) + 1;
    assert (2 * r + 1) * (2 * r + 1) == 4 * (r * r + r) + 1;
    r
  }

  /** The characterisation singles out one value. */
  lemma RoundSqrtUnique(n: nat, m: nat)
    requires m >= 1 && m * m - m < n <= m * m + m
    ensures RoundSqrt(n) == m
  {
    var r := RoundSqrt(n);
    if r < m {
      assert (m - 1) * (m - 1) + (m - 1) == m * m - m;
      PronicMonotone(r, m - 1);
    } else if r > m {
      assert (m + 1) * (m + 1) - (m + 1) == m * m + m;
      PronicMonotone(m + 1, r);
    }
  }

  /** A perfect square gives back its root. */
  lemma RoundSqrtOfSquare(k: nat)
    ensures RoundSqrt(k * k) == k
  {
    if k >= 1 {
      RoundSqrtUnique(k * k, k);
    }
  }

  /** A larger sum of squares never gives a smaller root. */
  lemma RoundSqrtMonotone(n1: nat, n2: nat)
    requires n1 <= n2
    ensures RoundSqrt(n1) <= RoundSqrt(n2)
  {
    var r1, r2 := RoundSqrt(n1), RoundSqrt(n2);
    if r1 > r2 && n1 > 0 {
      assert (r2 + 1) * (r2 + 1) - (r2 + 1) == r2 * r2 + r2;
      PronicMonotone(r2 + 1, r1);
    }
  }

  // ---------------------------------------------------------------------------
  // The gradient magnitude

  /** normalize(Math.sqrt(gx * gx + gy * gy)) as the Uint8ClampedArray keeps it. */
  function Magnitude(gx: int, gy: int): Byte
  {
    Clamp(RoundSqrt(gx * gx + gy * gy))
  }

  /** The magnitude is 0 exactly where both convolutions are 0. */
  lemma MagnitudeZero(gx: int, gy: int)
    ensures Magnitude(gx, gy) == 0 <==> gx == 0 && gy == 0
  {
    if gx != 0 {
      assert gx * gx > 0;
    }
    if gy != 0 {
      assert gy * gy > 0;
    }
  }

  /** The magnitude ignores the signs of gx and gy and which one is which. */
  lemma MagnitudeSymmetric(gx: int, gy: int)
    ensures Magnitude(gx, gy) == Magnitude(-gx, gy) == Magnitude(gx, -gy) == Magnitude(gy, gx)
  {
  }

  /** A steeper gradient gives a pixel no darker. */
  lemma MagnitudeMonotone(gx1: int, gy1: int, gx2: int, gy2: int)
    requires gx1 * gx1 + gy1 * gy1 <= gx2 * gx2 + gy2 * gy2
    ensures Magnitude(gx1, gy1) <= Magnitude(gx2, gy2)
  {
    RoundSqrtMonotone(gx1 * gx1 + gy1 * gy1, gx2 * gx2 + gy2 * gy2);
  }

  /** The byte stored at channel c of an interior pixel. */
  function GradientSample(data: seq<Byte>, w: nat, h: nat, kernelX: seq<seq<int>>, kernelY: seq<seq<int>>,
                          x: nat, y: nat, c: nat): Byte
    requires IsImage(data, w, h) && Interior(w, h, 1, x, y) && c < 4 && IsKernel(kernelX) && IsKernel(kernelY)
  {
    Magnitude(Convolved(data, w, h, x, y, c, kernelX), Convolved(data, w, h, x, y, c, kernelY))
  }

  /** The three channels of one interior pixel, each from its own pair of convolutions. */
  method PixelGradient(data: seq<Byte>, width: nat, height: nat, kernelX: seq<seq<int>>, kernelY: seq<seq<int>>,
                       x: nat, y: nat) returns (tempRed: Byte, tempGreen: Byte, tempBlue: Byte)
    requires IsImage(data, width, height) && Interior(width, height, 1, x, y)
    requires IsKernel(kernelX) && IsKernel(kernelY)
    ensures tempRed == GradientSample(data, width, height, kernelX, kernelY, x, y, 0)
    ensures tempGreen == GradientSample(data, width, height, kernelX, kernelY, x, y, 1)
    ensures tempBlue == GradientSample(data, width, height, kernelX, kernelY, x, y, 2)
  {
    var totalRed := Convolution(data, width, height, x, y, 0, kernelX);
    var tempCalculo := Convolution(data, width, height, x, y, 0, kernelY);
    tempRed := Magnitude(totalRed, tempCalculo);
    var totalGreen := Convolution(data, width, height, x, y, 1, kernelX);
    tempCalculo := Convolution(data, width, height, x, y, 1, kernelY);
    tempGreen := Magnitude(totalGreen, tempCalculo);
    var totalBlue := Convolution(data, width, height, x, y, 2, kernelX);
    tempCalculo := Convolution(data, width, height, x, y, 2, kernelY);
    tempBlue := Magnitude(totalBlue, tempCalculo);
  }

  // ---------------------------------------------------------------------------
  // The filters

  /** The image the filter produces: GradientSample at the RGB samples of pixels
      with a neighbour on every side, the input everywhere else. */
  lemma GradientTarget(data: seq<Byte>, w: nat, h: nat, kernelX: seq<seq<int>>, kernelY: seq<seq<int>>)
    returns (target: seq<Byte>)
    requires IsImage(data, w, h) && IsKernel(kernelX) && IsKernel(kernelY)
    ensures IsImage(target, w, h) && SameOffInterior(target, data, w, h, 1)
    ensures forall x: nat, y: nat, c: nat {:trigger GradientSample(data, w, h, kernelX, kernelY, x, y, c)} ::
      x < w && y < h && c < 3 && Interior(w, h, 1, x, y) ==>
        Sample(target, w, h, x, y, c) == GradientSample(data, w, h, kernelX, kernelY, x, y, c)
  {
    target := ImageFrom(w, h, (x: nat, y: nat, c: nat) =>
      if x < w && y < h && c < 4 then
        if c < 3 && Interior(w, h, 1, x, y) then GradientSample(data, w, h, kernelX, kernelY, x, y, c)
        else Sample(data, w, h, x, y, c)
      else 0);
  }

  /** The x loop over row y. */
  method GradientRow(data: seq<Byte>, outputData: array<Byte>, width: nat, height: nat,
                     kernelX: seq<seq<int>>, kernelY: seq<seq<int>>, y: nat, ghost target: seq<Byte>)
    requires IsImage(data, width, height) && IsImage(target, width, height) && outputData.Length == |data|
    requires IsKernel(kernelX) && IsKernel(kernelY) && 1 <= y && y + 1 < height
    requires forall x: nat, y: nat, c: nat {:trigger GradientSample(data, width, height, kernelX, kernelY, x, y, c)} ::
      x < width && y < height && c < 3 && Interior(width, height, 1, x, y) ==>
        Sample(target, width, height, x, y, c) == GradientSample(data, width, height, kernelX, kernelY, x, y, c)
    modifies outputData
    ensures RowDone(outputData[..], old(outputData[..]), target, width, height, 1, y, width)
  {
    var x := 1;
    RowStart(outputData[..], target, width, height, 1, y);
    while x < width - 1
      invariant 1 <= x
      invariant RowDone(outputData[..], old(outputData[..]), target, width, height, 1, y, x)
    {
      var tempRed, tempGreen, tempBlue := PixelGradient(data, width, height, kernelX, kernelY, x, y);
      ghost var before := outputData[..];
      StoreRGB(outputData, width, height, x, y, tempRed, tempGreen, tempBlue);
      RowStep(before, outputData[..], old(outputData[..]), target, width, height, 1, x, y,
              tempRed, tempGreen, tempBlue);
      x := x + 1;
    }
    RowEnd(outputData[..], old(outputData[..]), target, width, height, 1, y, x);
  }

  /** The body shared by applyRobertsFilter and applySobelFilter, which differ
      only in their kernels. */
  method ApplyGradientFilter(data: seq<Byte>, width: nat, height: nat, kernelX: seq<seq<int>>, kernelY: seq<seq<int>>)
    returns (output: seq<Byte>)
    requires IsImage(data, width, height) && IsKernel(kernelX) && IsKernel(kernelY)
    ensures IsImage(output, width, height)
    ensures forall x: nat, y: nat, c: nat :: x < width && y < height && c < 4 ==>
      Sample(output, width, height, x, y, c) ==
        if c < 3 && Interior(width, height, 1, x, y)
        then GradientSample(data, width, height, kernelX, kernelY, x, y, c)
        else Sample(data, width, height, x, y, c)
    ensures width < 3 || height < 3 ==> output == data
  {
    var outputData := new Byte[|data|](i requires 0 <= i < |data| => data[i]);
    assert outputData[..] == data;
    ghost var target := GradientTarget(data, width, height, kernelX, kernelY);
    var y := 1;
    RowsStart(data, target, width, height, 1);
    while y < height - 1
      invariant 1 <= y
      invariant RowsDone(outputData[..], target, data, width, height, y)
    {
      ghost var before := outputData[..];
      GradientRow(data, outputData, width, height, kernelX, kernelY, y, target);
      RowsStep(before, outputData[..], target, data, width, height, 1, y);
      y := y + 1;
    }
    output := outputData[..];
    RowsEnd(output, target, data, width, height, 1, y);
    if width < 3 || height < 3 {
      SameAtEveryPixel(output, data, width, height);
    }
  }

  /** The 3 x 3 "Roberts" kernels are two diagonal differences. */
  lemma RobertsOf(data: seq<Byte>, w: nat, h: nat, x: nat, y: nat, c: nat)
    requires IsImage(data, w, h) && Interior(w, h, 1, x, y) && c < 4
    ensures Convolved(data, w, h, x, y, c, RobertsX) == Sample(data, w, h, x, y, c) - Sample(data, w, h, x + 1, y - 1, c)
    ensures Convolved(data, w, h, x, y, c, RobertsY) == Sample(data, w, h, x, y, c) - Sample(data, w, h, x - 1, y - 1, c)
  {
    WindowTotal3x3(data, w, h, x, y, c, KernelWeights(RobertsX));
    WindowTotal3x3(data, w, h, x, y, c, KernelWeights(RobertsY));
  }

  /** applyRobertsFilter. */
  method ApplyRobertsFilter(data: seq<Byte>, width: nat, height: nat) returns (output: seq<Byte>)
    requires IsImage(data, width, height)
    ensures IsImage(output, width, height)
    ensures forall x: nat, y: nat, c: nat :: x < width && y < height && c < 4 ==>
      Sample(output, width, height, x, y, c) ==
        if c < 3 && Interior(width, height, 1, x, y)
        then Magnitude(Sample(data, width, height, x, y, c) - Sample(data, width, height, x + 1, y - 1, c),
                       Sample(data, width, height, x, y, c) - Sample(data, width, height, x - 1, y - 1, c))
        else Sample(data, width, height, x, y, c)
    ensures width < 3 || height < 3 ==> output == data
  {
    output := ApplyGradientFilter(data, width, height, RobertsX, RobertsY);
    forall x: nat, y: nat, c: nat | x < width && y < height && c < 3 && Interior(width, height, 1, x, y) {
      RobertsOf(data, width, height, x, y, c);
    }
  }

  /** The Sobel kernels: horizontal and vertical differences of 1-2-1 weighted sums. */
  lemma SobelOf(data: seq<Byte>, w: nat, h: nat, x: nat, y: nat, c: nat)
    requires IsImage(data, w, h) && Interior(w, h, 1, x, y) && c < 4
    ensures Convolved(data, w, h, x, y, c, SobelX) ==
      (Sample(data, w, h, x - 1, y - 1, c) + 2 * Sample(data, w, h, x - 1, y, c) + Sample(data, w, h, x - 1, y + 1, c))
      - (Sample(data, w, h, x + 1, y - 1, c) + 2 * Sample(data, w, h, x + 1, y, c) + Sample(data, w, h, x + 1, y + 1, c))
    ensures Convolved(data, w, h, x, y, c, SobelY) ==
      (Sample(data, w, h, x - 1, y - 1, c) + 2 * Sample(data, w, h, x, y - 1, c) + Sample(data, w, h, x + 1, y - 1, c))
      - (Sample(data, w, h, x - 1, y + 1, c) + 2 * Sample(data, w, h, x, y + 1, c) + Sample(data, w, h, x + 1, y + 1, c))
  {
    WindowTotal3x3(data, w, h, x, y, c, KernelWeights(SobelX));
    WindowTotal3x3(data, w, h, x, y, c, KernelWeights(SobelY));
  }

  /** applySobelFilter. */
  method ApplySobelFilter(data: seq<Byte>, width: nat, height: nat) returns (output: seq<Byte>)
    requires IsImage(data, width, height)
    ensures IsImage(output, width, height)
    ensures forall x: nat, y: nat, c: nat :: x < width && y < height && c < 4 ==>
      Sample(output, width, height, x, y, c) ==
        if c < 3 && Interior(width, height, 1, x, y)
        then GradientSample(data, width, height, SobelX, SobelY, x, y, c)
        else Sample(data, width, height, x, y, c)
    ensures width < 3 || height < 3 ==> output == data
  {
    output := ApplyGradientFilter(data, width, height, SobelX, SobelY);
  }

  // ---------------------------------------------------------------------------
  // Properties

  /** Kernels whose weights cancel out. */
  predicate ZeroSum(kernel: seq<seq<int>>)
    requires IsKernel(kernel)
  {
    WeightSum(KernelWeights(kernel), 1) == 0
  }

  lemma RobertsAndSobelZeroSum()
    ensures ZeroSum(RobertsX) && ZeroSum(RobertsY) && ZeroSum(SobelX) && ZeroSum(SobelY)
  {
    WeightSum3x3(KernelWeights(RobertsX));
    WeightSum3x3(KernelWeights(RobertsY));
    WeightSum3x3(KernelWeights(SobelX));
    WeightSum3x3(KernelWeights(SobelY));
  }

  /** With cancelling kernels a flat channel has no gradient. */
  lemma GradientOfFlat(data: seq<Byte>, w: nat, h: nat, kernelX: seq<seq<int>>, kernelY: seq<seq<int>>,
                       x: nat, y: nat, c: nat, v: Byte)
    requires IsImage(data, w, h) && IsKernel(kernelX) && IsKernel(kernelY) && ZeroSum(kernelX) && ZeroSum(kernelY)
    requires Interior(w, h, 1, x, y) && c < 4 && FlatChannel(data, w, h, c, v)
    ensures GradientSample(data, w, h, kernelX, kernelY, x, y, c) == 0
  {
    WindowTotalFlat(data, w, h, 1, x, y, c, KernelWeights(kernelX), v);
    WindowTotalFlat(data, w, h, 1, x, y, c, KernelWeights(kernelY), v);
  }

  /** Roberts and Sobel turn a flat-colour image black inside a copied border. */
  lemma GradientOfUniform(data: seq<Byte>, output: seq<Byte>, w: nat, h: nat,
                          kernelX: seq<seq<int>>, kernelY: seq<seq<int>>)
    requires IsImage(data, w, h) && IsImage(output, w, h) && Uniform(data, w, h)
    requires (kernelX == RobertsX && kernelY == RobertsY) || (kernelX == SobelX && kernelY == SobelY)
    requires forall x: nat, y: nat, c: nat :: x < w && y < h && c < 4 ==>
      Sample(output, w, h, x, y, c) ==
        if c < 3 && Interior(w, h, 1, x, y)
        then GradientSample(data, w, h, kernelX, kernelY, x, y, c)
        else Sample(data, w, h, x, y, c)
    ensures forall x: nat, y: nat, c: nat :: x < w && y < h && c < 4 ==>
      Sample(output, w, h, x, y, c) == if c < 3 && Interior(w, h, 1, x, y) then 0 else Sample(data, w, h, x, y, c)
  {
    RobertsAndSobelZeroSum();
    forall x: nat, y: nat, c: nat | x < w && y < h && c < 3 && Interior(w, h, 1, x, y)
      ensures Sample(output, w, h, x, y, c) == 0
    {
      GradientOfFlat(data, w, h, kernelX, kernelY, x, y, c, Sample(data, w, h, 0, 0, c));
    }
  }

  /** Channel c of the result depends on channel c of the 3 x 3 input window only. */
  lemma GradientSampleLocal(d1: seq<Byte>, d2: seq<Byte>, w: nat, h: nat, kernelX: seq<seq<int>>,
                            kernelY: seq<seq<int>>, x: nat, y: nat, c: nat)
    requires IsImage(d1, w, h) && IsImage(d2, w, h) && Interior(w, h, 1, x, y) && c < 4
    requires IsKernel(kernelX) && IsKernel(kernelY) && SameWindow(d1, d2, w, h, 1, x, y, c)
    ensures GradientSample(d1, w, h, kernelX, kernelY, x, y, c) == GradientSample(d2, w, h, kernelX, kernelY, x, y, c)
  {
    WindowSame(d1, d2, w, h, 1, x, y, c, KernelWeights(kernelX));
    WindowSame(d1, d2, w, h, 1, x, y, c, KernelWeights(kernelY));
  }
}
