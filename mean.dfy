/** The low-pass mean filter of the "Média" page: a windowed sum divided and
    rounded, in three coefficient schemes chosen by `mode`. */
module Mean {
  import opened Raster
  import opened Window

  /** The modes the page offers: 9 (every neighbour), 5 (a five-neighbour subset),
      10 (the centre pixel counted twice). */
  predicate IsMeanMode(mode: int)
  {
    mode == 9 || mode == 5 || mode == 10
  }

  /** The coefficient the summing loop gives to the neighbour at (kx, ky): 0 or 1,
      except the doubled centre of mode 10. */
  function MeanWeight(mode: int, kx: int, ky: int): (r: int)
    ensures 0 <= r <= 2
    ensures r == 2 <==> mode == 10 && kx == 0 && ky == 0
  {
    if mode == 9 then 1
    else if mode == 5 then
      if (kx == 1 && ky == 0) || (kx == 0 && ky == 0) || (kx == -1 && ky == 1) || (kx == 1 && ky == 1)
      then 0 else 1
    else if mode == 10 then
      if kx == 0 && ky == 0 then 2 else 0
    else 0
  }

  function MeanWeights(mode: int): Weights
  {
    (kx, ky) => MeanWeight(mode, kx, ky)
  }

  /** Mode 9 divides by kernelSize^2, the other modes by the mode number itself;
      only mode 9 with kernelSize 0 divides by zero. */
  function Divisor(mode: int, kernelSize: nat): (r: int)
    ensures IsMeanMode(mode) ==> r >= 0 && (r == 0 <==> mode == 9 && kernelSize == 0)
  {
    if mode == 9 then kernelSize * kernelSize else mode
  }

  /** Math.round(t / d) for a positive divisor: the nearest integer, halves rounded up. */
  function RoundDiv(t: int, d: int): (r: int)
    requires d > 0
    ensures 2 * d * r - d <= 2 * t < 2 * d * r + d
  {
    var q := (2 * t + d) / (2 * d);
    assert 2 * d * q <= 2 * t + d < 2 * d * q + 2 * d;
    q
  }

  /** The byte `Math.round(t / d)` leaves in the Uint8ClampedArray. A zero divisor
      gives +Infinity for t > 0, stored as 255, and -Infinity or NaN otherwise,
      both stored as 0. A quotient within 0..255 is stored rounded and unclamped;
      one above 255 saturates to 255 and a negative one to 0. */
  function StoreQuotient(t: int, d: int): (r: Byte)
    requires d >= 0
    ensures d == 0 ==> (r == 255 <==> t > 0) && (r == 0 <==> t <= 0)
    ensures d > 0 && 0 <= t <= 255 * d ==> 2 * d * r - d <= 2 * t < 2 * d * r + d
    ensures d > 0 && t > 255 * d ==> r == 255
    ensures d > 0 && t < 0 ==> r == 0
  {
    if d == 0 then (if t > 0 then 255 else 0)
    else
      RoundInRange(t, d);
      Clamp(RoundDiv(t, d))
  }

  /** A quotient within 0..255 rounds to a byte; one above 255 rounds to 255 or
      more, and a negative one to 0 or less. */
  lemma RoundInRange(t: int, d: int)
    requires d > 0
    ensures 0 <= t <= 255 * d ==> 0 <= RoundDiv(t, d) <= 255
    ensures t > 255 * d ==> RoundDiv(t, d) >= 255
    ensures t < 0 ==> RoundDiv(t, d) <= 0
  {
    var q := RoundDiv(t, d);
    if 0 <= t <= 255 * d && q > 255 {
      MulMonotone(256, q, 2 * d);
    }
    if t > 255 * d && q < 255 {
      MulMonotone(q, 254, 2 * d);
    }
  }

  /** The byte stored at channel c of an interior pixel: the weighted window total
      divided and rounded as the page does it, saturated by the Uint8ClampedArray. */
  function MeanSample(data: seq<Byte>, w: nat, h: nat, kernelSize: nat, mode: int, x: nat, y: nat, c: nat): Byte
    requires IsImage(data, w, h) && IsMeanMode(mode)
    requires Interior(w, h, kernelSize / 2, x, y) && c < 4
  {
    StoreQuotient(WindowTotal(data, w, h, kernelSize / 2, x, y, c, MeanWeights(mode)), Divisor(mode, kernelSize))
  }

  /** The three rounded, clamped quotients of one interior pixel. */
  method WindowMeans(data: seq<Byte>, width: nat, height: nat, kernelSize: nat, mode: int, x: nat, y: nat)
    returns (averageRed: Byte, averageGreen: Byte, averageBlue: Byte)
    requires IsImage(data, width, height) && IsMeanMode(mode)
    requires Interior(width, height, kernelSize / 2, x, y)
    ensures averageRed == MeanSample(data, width, height, kernelSize, mode, x, y, 0)
    ensures averageGreen == MeanSample(data, width, height, kernelSize, mode, x, y, 1)
    ensures averageBlue == MeanSample(data, width, height, kernelSize, mode, x, y, 2)
  {
    var totalRed, totalGreen, totalBlue :=
      WeightedTotals(data, width, height, kernelSize / 2, x, y, MeanWeights(mode));
    if mode == 9 {
      averageRed := StoreQuotient(totalRed, kernelSize * kernelSize);
      averageGreen := StoreQuotient(totalGreen, kernelSize * kernelSize);
      averageBlue := StoreQuotient(totalBlue, kernelSize * kernelSize);
    } else {
      averageRed := StoreQuotient(totalRed, mode);
      averageGreen := StoreQuotient(totalGreen, mode);
      averageBlue := StoreQuotient(totalBlue, mode);
    }
  }

  /** The image the filter produces: MeanSample at the RGB samples of interior
      pixels, the input everywhere else. */
  lemma MeanTarget(data: seq<Byte>, w: nat, h: nat, kernelSize: nat, mode: int) returns (target: seq<Byte>)
    requires IsImage(data, w, h) && IsMeanMode(mode)
    ensures IsImage(target, w, h) && SameOffInterior(target, data, w, h, kernelSize / 2)
    ensures forall x: nat, y: nat, c: nat {:trigger MeanSample(data, w, h, kernelSize, mode, x, y, c)} ::
      x < w && y < h && c < 3 && Interior(w, h, kernelSize / 2, x, y) ==>
        Sample(target, w, h, x, y, c) == MeanSample(data, w, h, kernelSize, mode, x, y, c)
  {
    target := ImageFrom(w, h, (x: nat, y: nat, c: nat) =>
      if x < w && y < h && c < 4 then
        if c < 3 && Interior(w, h, kernelSize / 2, x, y) then MeanSample(data, w, h, kernelSize, mode, x, y, c)
        else Sample(data, w, h, x, y, c)
      else 0);
  }

  /** The x loop over row y: every interior pixel of the row gets its three averages. */
  method MeanRow(data: seq<Byte>, outputData: array<Byte>, width: nat, height: nat, kernelSize: nat, mode: int,
                 y: nat, ghost target: seq<Byte>)
    requires IsImage(data, width, height) && IsImage(target, width, height) && outputData.Length == |data|
    requires IsMeanMode(mode)
    requires kernelSize / 2 <= y && y + kernelSize / 2 < height
    requires forall x: nat, y: nat, c: nat {:trigger MeanSample(data, width, height, kernelSize, mode, x, y, c)} ::
      x < width && y < height && c < 3 && Interior(width, height, kernelSize / 2, x, y) ==>
        Sample(target, width, height, x, y, c) == MeanSample(data, width, height, kernelSize, mode, x, y, c)
    modifies outputData
    ensures RowDone(outputData[..], old(outputData[..]), target, width, height, kernelSize / 2, y, width)
  {
    var halfKernelSize := kernelSize / 2;
    var x := halfKernelSize;
    RowStart(outputData[..], target, width, height, halfKernelSize, y);
    while x < width - halfKernelSize
      invariant halfKernelSize <= x
      invariant RowDone(outputData[..], old(outputData[..]), target, width, height, halfKernelSize, y, x)
    {
      var averageRed, averageGreen, averageBlue := WindowMeans(data, width, height, kernelSize, mode, x, y);
      ghost var before := outputData[..];
      StoreRGB(outputData, width, height, x, y, averageRed, averageGreen, averageBlue);
      RowStep(before, outputData[..], old(outputData[..]), target, width, height, halfKernelSize, x, y,
              averageRed, averageGreen, averageBlue);
      x := x + 1;
    }
    RowEnd(outputData[..], old(outputData[..]), target, width, height, halfKernelSize, y, x);
  }

  /** applyAverageFilter of the mean page. */
  method ApplyAverageFilter(data: seq<Byte>, width: nat, height: nat, kernelSize: nat, mode: int)
    returns (output: seq<Byte>)
    requires IsImage(data, width, height) && IsMeanMode(mode)
    ensures IsImage(output, width, height)
    ensures forall x: nat, y: nat, c: nat :: x < width && y < height && c < 4 ==>
      Sample(output, width, height, x, y, c) ==
        if c < 3 && Interior(width, height, kernelSize / 2, x, y)
        then MeanSample(data, width, height, kernelSize, mode, x, y, c)
        else Sample(data, width, height, x, y, c)
    ensures 2 * (kernelSize / 2) >= width || 2 * (kernelSize / 2) >= height ==> output == data
    ensures mode == 9 && kernelSize % 2 == 1 && Uniform(data, width, height) ==> output == data
  {
    var outputData := new Byte[|data|](i requires 0 <= i < |data| => data[i]);
    assert outputData[..] == data;
    var halfKernelSize := kernelSize / 2;
    ghost var target := MeanTarget(data, width, height, kernelSize, mode);
    var y := halfKernelSize;
    RowsStart(data, target, width, height, halfKernelSize);
    while y < height - halfKernelSize
      invariant halfKernelSize <= y
      invariant RowsDone(outputData[..], target, data, width, height, y)
    {
      ghost var before := outputData[..];
      MeanRow(data, outputData, width, height, kernelSize, mode, y, target);
      RowsStep(before, outputData[..], target, data, width, height, halfKernelSize, y);
      y := y + 1;
    }
    output := outputData[..];
    RowsEnd(output, target, data, width, height, halfKernelSize, y);
    MeanFilterFixedPoints(data, output, width, height, kernelSize, mode);
  }

  /** The per-pixel formula pins the output down: with no interior pixel it is the
      input, and mode 9 with an odd kernel leaves a flat-colour image unchanged. */
  lemma MeanFilterFixedPoints(data: seq<Byte>, output: seq<Byte>, w: nat, h: nat, kernelSize: nat, mode: int)
    requires IsImage(data, w, h) && IsImage(output, w, h) && IsMeanMode(mode)
    requires forall x: nat, y: nat, c: nat :: x < w && y < h && c < 4 ==>
      Sample(output, w, h, x, y, c) ==
        if c < 3 && Interior(w, h, kernelSize / 2, x, y)
        then MeanSample(data, w, h, kernelSize, mode, x, y, c)
        else Sample(data, w, h, x, y, c)
    ensures 2 * (kernelSize / 2) >= w || 2 * (kernelSize / 2) >= h ==> output == data
    ensures mode == 9 && kernelSize % 2 == 1 && Uniform(data, w, h) ==> output == data
  {
    if 2 * (kernelSize / 2) >= w || 2 * (kernelSize / 2) >= h {
      SameAtEveryPixel(output, data, w, h);
    }
    if mode == 9 && kernelSize % 2 == 1 && Uniform(data, w, h) {
      forall x: nat, y: nat, c: nat | x < w && y < h && c < 4
        ensures Sample(output, w, h, x, y, c) == Sample(data, w, h, x, y, c)
      {
        if c < 3 && Interior(w, h, kernelSize / 2, x, y) {
          FullMeanOfFlat(data, w, h, kernelSize, x, y, c, Sample(data, w, h, 0, 0, c));
        }
      }
      SameAtEveryPixel(output, data, w, h);
    }
  }

  // ---------------------------------------------------------------------------
  // Properties of the per-pixel result

  lemma DivideExact(v: int, d: int)
    requires d > 0
    ensures RoundDiv(v * d, d) == v
  {
    var r := RoundDiv(v * d, d);
    if r != v {
      MulMonotone(if r < v then r + 1 else v + 1, if r < v then v else r, 2 * d);
    }
  }

  /** Mode 9 with an odd kernel leaves a flat channel unchanged: the mean of
      k^2 equal values is that value. */
  lemma FullMeanOfFlat(data: seq<Byte>, w: nat, h: nat, kernelSize: nat, x: nat, y: nat, c: nat, v: Byte)
    requires IsImage(data, w, h) && kernelSize % 2 == 1
    requires Interior(w, h, kernelSize / 2, x, y) && c < 4 && FlatChannel(data, w, h, c, v)
    ensures MeanSample(data, w, h, kernelSize, 9, x, y, c) == v
  {
    var hk := kernelSize / 2;
    assert kernelSize == 2 * hk + 1;
    WindowTotalFlat(data, w, h, hk, x, y, c, MeanWeights(9), v);
    WeightSumConstant(MeanWeights(9), hk, 1);
    DivideExact(v, kernelSize * kernelSize);
  }

  /** Mode 5 with a 3 x 3 kernel sums the five neighbours (-1,-1), (0,-1), (1,-1),
      (-1,0), (0,1) and divides by 5; (1,0), (0,0), (-1,1) and (1,1) are skipped. */
  lemma Partial5Of3x3(data: seq<Byte>, w: nat, h: nat, x: nat, y: nat, c: nat)
    requires IsImage(data, w, h) && Interior(w, h, 1, x, y) && c < 4
    ensures MeanSample(data, w, h, 3, 5, x, y, c) ==
      Clamp(RoundDiv(Sample(data, w, h, x - 1, y - 1, c) + Sample(data, w, h, x, y - 1, c)
                     + Sample(data, w, h, x + 1, y - 1, c) + Sample(data, w, h, x - 1, y, c)
                     + Sample(data, w, h, x, y + 1, c), 5))
  {
    WindowTotal3x3(data, w, h, x, y, c, MeanWeights(5));
    assert WindowTotal(data, w, h, 1, x, y, c, MeanWeights(5)) ==
      Sample(data, w, h, x - 1, y - 1, c) + Sample(data, w, h, x, y - 1, c)
      + Sample(data, w, h, x + 1, y - 1, c) + Sample(data, w, h, x - 1, y, c)
      + Sample(data, w, h, x, y + 1, c);
  }

  /** Mode 10 reads the centre pixel only, whatever the kernel size: the result is
      round(2 * centre / 10), which never exceeds 51. */
  lemma Centre10IgnoresNeighbours(data: seq<Byte>, w: nat, h: nat, kernelSize: nat, x: nat, y: nat, c: nat)
    requires IsImage(data, w, h)
    requires Interior(w, h, kernelSize / 2, x, y) && c < 4
    ensures MeanSample(data, w, h, kernelSize, 10, x, y, c) == RoundDiv(2 * Sample(data, w, h, x, y, c), 10)
    ensures MeanSample(data, w, h, kernelSize, 10, x, y, c) <= 51
  {
    WindowTotalCentreOnly(data, w, h, kernelSize / 2, x, y, c, MeanWeights(10));
  }

  /** Mode 9 with kernelSize 0 divides the centre sample by zero: a positive
      sample becomes 255 and a zero sample stays 0. */
  lemma ZeroKernelSaturates(data: seq<Byte>, w: nat, h: nat, x: nat, y: nat, c: nat)
    requires IsImage(data, w, h) && x < w && y < h && c < 4
    ensures Interior(w, h, 0, x, y)
    ensures MeanSample(data, w, h, 0, 9, x, y, c) == if Sample(data, w, h, x, y, c) > 0 then 255 else 0
  {
    var wt := MeanWeights(9);
    assert RowTotal(data, w, h, 0, x, y, c, wt, 0, 1) == wt(0, 0) * Sample(data, w, h, x, y, c);
    assert RowsTotal(data, w, h, 0, x, y, c, wt, 1) == RowTotal(data, w, h, 0, x, y, c, wt, 0, 1);
  }

  /** Channel c of the result depends on channel c of the input window only, so
      R, G and B never mix and nothing outside the window matters. */
  lemma MeanSampleLocal(d1: seq<Byte>, d2: seq<Byte>, w: nat, h: nat, kernelSize: nat, mode: int,
                        x: nat, y: nat, c: nat)
    requires IsImage(d1, w, h) && IsImage(d2, w, h) && IsMeanMode(mode)
    requires Interior(w, h, kernelSize / 2, x, y) && c < 4
    requires SameWindow(d1, d2, w, h, kernelSize / 2, x, y, c)
    ensures MeanSample(d1, w, h, kernelSize, mode, x, y, c) == MeanSample(d2, w, h, kernelSize, mode, x, y, c)
  {
    WindowSame(d1, d2, w, h, kernelSize / 2, x, y, c, MeanWeights(mode));
  }
}
