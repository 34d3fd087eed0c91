/** The high-pass variant of applyAverageFilter on the "Passa-alta" page: a signed
    weighted window sum, stored undivided and saturated by the Uint8ClampedArray. */
module HighPass {
  import opened Raster
  import opened Window

  /** The masks the page offers. */
  predicate IsHighPassMode(mode: int)
  {
    mode == 1 || mode == 2 || mode == 3
  }

  /** The four offsets modes 2 and 3 single out: up, left, the lower-right
      diagonal and down. */
  predicate Singled(kx: int, ky: int)
  {
    (kx == 0 && ky == -1) || (kx == -1 && ky == 0) || (kx == 1 && ky == 1) || (kx == 0 && ky == 1)
  }

  /** The coefficient the summing loop gives to the neighbour at (kx, ky). In modes
      1 and 2 the centre is the only positive weight. */
  function HighPassWeight(mode: int, kx: int, ky: int): (r: int)
    ensures -2 <= r <= 8
    ensures mode == 1 || mode == 2 ==> (r > 0 <==> kx == 0 && ky == 0)
  {
    if mode == 1 then
      if kx == 0 && ky == 0 then 8 else -1
    else if mode == 2 then
      if kx == 0 && ky == 0 then 4 else if Singled(kx, ky) then -1 else 0
    else if mode == 3 then
      if kx == 0 && ky == 0 then 4 else if Singled(kx, ky) then -2 else 1
    else 0
  }

  function HighPassWeights(mode: int): Weights
  {
    (kx, ky) => HighPassWeight(mode, kx, ky)
  }

  /** The byte stored at channel c of an interior pixel: the raw sum, saturated. */
  function HighPassSample(data: seq<Byte>, w: nat, h: nat, hk: nat, mode: int, x: nat, y: nat, c: nat): Byte
    requires IsImage(data, w, h) && Interior(w, h, hk, x, y) && c < 4
  {
    Clamp(WindowTotal(data, w, h, hk, x, y, c, HighPassWeights(mode)))
  }

  /** The three saturated sums of one interior pixel. */
  method WindowHighPass(data: seq<Byte>, width: nat, height: nat, halfKernelSize: nat, mode: int, x: nat, y: nat)
    returns (red: Byte, green: Byte, blue: Byte)
    requires IsImage(data, width, height) && Interior(width, height, halfKernelSize, x, y)
    ensures red == HighPassSample(data, width, height, halfKernelSize, mode, x, y, 0)
    ensures green == HighPassSample(data, width, height, halfKernelSize, mode, x, y, 1)
    ensures blue == HighPassSample(data, width, height, halfKernelSize, mode, x, y, 2)
  {
    var totalRed, totalGreen, totalBlue :=
      WeightedTotals(data, width, height, halfKernelSize, x, y, HighPassWeights(mode));
    red, green, blue := Clamp(totalRed), Clamp(totalGreen), Clamp(totalBlue);
  }

  /** The image the filter produces: HighPassSample at the RGB samples of interior
      pixels, the input everywhere else. */
  lemma HighPassTarget(data: seq<Byte>, w: nat, h: nat, hk: nat, mode: int) returns (target: seq<Byte>)
    requires IsImage(data, w, h)
    ensures IsImage(target, w, h) && SameOffInterior(target, data, w, h, hk)
    ensures forall x: nat, y: nat, c: nat {:trigger HighPassSample(data, w, h, hk, mode, x, y, c)} ::
      x < w && y < h && c < 3 && Interior(w, h, hk, x, y) ==>
        Sample(target, w, h, x, y, c) == HighPassSample(data, w, h, hk, mode, x, y, c)
  {
    target := ImageFrom(w, h, (x: nat, y: nat, c: nat) =>
      if x < w && y < h && c < 4 then
        if c < 3 && Interior(w, h, hk, x, y) then HighPassSample(data, w, h, hk, mode, x, y, c)
        else Sample(data, w, h, x, y, c)
      else 0);
  }

  /** The x loop over row y. */
  method HighPassRow(data: seq<Byte>, outputData: array<Byte>, width: nat, height: nat, halfKernelSize: nat,
                     mode: int, y: nat, ghost target: seq<Byte>)
    requires IsImage(data, width, height) && IsImage(target, width, height) && outputData.Length == |data|
    requires halfKernelSize <= y && y + halfKernelSize < height
    requires forall x: nat, y: nat, c: nat {:trigger HighPassSample(data, width, height, halfKernelSize, mode, x, y, c)} ::
      x < width && y < height && c < 3 && Interior(width, height, halfKernelSize, x, y) ==>
        Sample(target, width, height, x, y, c) == HighPassSample(data, width, height, halfKernelSize, mode, x, y, c)
    modifies outputData
    ensures RowDone(outputData[..], old(outputData[..]), target, width, height, halfKernelSize, y, width)
  {
    var x := halfKernelSize;
    RowStart(outputData[..], target, width, height, halfKernelSize, y);
    while x < width - halfKernelSize
      invariant halfKernelSize <= x
      invariant RowDone(outputData[..], old(outputData[..]), target, width, height, halfKernelSize, y, x)
    {
      var red, green, blue := WindowHighPass(data, width, height, halfKernelSize, mode, x, y);
      ghost var before := outputData[..];
      StoreRGB(outputData, width, height, x, y, red, green, blue);
      RowStep(before, outputData[..], old(outputData[..]), target, width, height, halfKernelSize, x, y,
              red, green, blue);
      x := x + 1;
    }
    RowEnd(outputData[..], old(outputData[..]), target, width, height, halfKernelSize, y, x);
  }

  /** applyAverageFilter of the high-pass page. */
  method ApplyAverageFilter(data: seq<Byte>, width: nat, height: nat, kernelSize: nat, mode: int)
    returns (output: seq<Byte>)
    requires IsImage(data, width, height) && IsHighPassMode(mode)
    ensures IsImage(output, width, height)
    ensures forall x: nat, y: nat, c: nat :: x < width && y < height && c < 4 ==>
      Sample(output, width, height, x, y, c) ==
        if c < 3 && Interior(width, height, kernelSize / 2, x, y)
        then HighPassSample(data, width, height, kernelSize / 2, mode, x, y, c)
        else Sample(data, width, height, x, y, c)
    ensures 2 * (kernelSize / 2) >= width || 2 * (kernelSize / 2) >= height ==> output == data
  {
    var outputData := new Byte[|data|](i requires 0 <= i < |data| => data[i]);
    assert outputData[..] == data;
    var halfKernelSize := kernelSize / 2;
    ghost var target := HighPassTarget(data, width, height, halfKernelSize, mode);
    var y := halfKernelSize;
    RowsStart(data, target, width, height, halfKernelSize);
    while y < height - halfKernelSize
      invariant halfKernelSize <= y
      invariant RowsDone(outputData[..], target, data, width, height, y)
    {
      ghost var before := outputData[..];
      HighPassRow(data, outputData, width, height, halfKernelSize, mode, y, target);
      RowsStep(before, outputData[..], target, data, width, height, halfKernelSize, y);
      y := y + 1;
    }
    output := outputData[..];
    RowsEnd(output, target, data, width, height, halfKernelSize, y);
    if 2 * halfKernelSize >= width || 2 * halfKernelSize >= height {
      SameAtEveryPixel(output, data, width, height);
    }
  }

  // ---------------------------------------------------------------------------
  // Properties of the per-pixel result

  /** Mode 1 with a 3 x 3 kernel: eight times the centre minus the eight neighbours. */
  lemma Mode1Of3x3(data: seq<Byte>, w: nat, h: nat, x: nat, y: nat, c: nat)
    requires IsImage(data, w, h) && Interior(w, h, 1, x, y) && c < 4
    ensures HighPassSample(data, w, h, 1, 1, x, y, c) ==
      Clamp(8 * Sample(data, w, h, x, y, c)
            - Sample(data, w, h, x - 1, y - 1, c) - Sample(data, w, h, x, y - 1, c) - Sample(data, w, h, x + 1, y - 1, c)
            - Sample(data, w, h, x - 1, y, c) - Sample(data, w, h, x + 1, y, c)
            - Sample(data, w, h, x - 1, y + 1, c) - Sample(data, w, h, x, y + 1, c) - Sample(data, w, h, x + 1, y + 1, c))
  {
    var wt := HighPassWeights(1);
    assert wt(-1, -1) == -1 && wt(0, -1) == -1 && wt(1, -1) == -1
        && wt(-1, 0) == -1 && wt(0, 0) == 8 && wt(1, 0) == -1
        && wt(-1, 1) == -1 && wt(0, 1) == -1 && wt(1, 1) == -1;
    WindowTotal3x3(data, w, h, x, y, c, wt);
  }

  /** Mode 2 with a 3 x 3 kernel: four times the centre minus the samples at
      (0,-1), (-1,0), (1,1) and (0,1); (1,0) is not subtracted. */
  lemma Mode2Of3x3(data: seq<Byte>, w: nat, h: nat, x: nat, y: nat, c: nat)
    requires IsImage(data, w, h) && Interior(w, h, 1, x, y) && c < 4
    ensures HighPassSample(data, w, h, 1, 2, x, y, c) ==
      Clamp(4 * Sample(data, w, h, x, y, c)
            - Sample(data, w, h, x, y - 1, c) - Sample(data, w, h, x - 1, y, c)
            - Sample(data, w, h, x + 1, y + 1, c) - Sample(data, w, h, x, y + 1, c))
  {
    var wt := HighPassWeights(2);
    assert wt(-1, -1) == 0 && wt(0, -1) == -1 && wt(1, -1) == 0
        && wt(-1, 0) == -1 && wt(0, 0) == 4 && wt(1, 0) == 0
        && wt(-1, 1) == 0 && wt(0, 1) == -1 && wt(1, 1) == -1;
    WindowTotal3x3(data, w, h, x, y, c, wt);
  }

  /** Mode 3 with a 3 x 3 kernel: four times the centre, minus twice the four
      singled-out neighbours, plus the other four. */
  lemma Mode3Of3x3(data: seq<Byte>, w: nat, h: nat, x: nat, y: nat, c: nat)
    requires IsImage(data, w, h) && Interior(w, h, 1, x, y) && c < 4
    ensures HighPassSample(data, w, h, 1, 3, x, y, c) ==
      Clamp(4 * Sample(data, w, h, x, y, c)
            - 2 * (Sample(data, w, h, x, y - 1, c) + Sample(data, w, h, x - 1, y, c)
                   + Sample(data, w, h, x + 1, y + 1, c) + Sample(data, w, h, x, y + 1, c))
            + Sample(data, w, h, x - 1, y - 1, c) + Sample(data, w, h, x + 1, y - 1, c)
            + Sample(data, w, h, x + 1, y, c) + Sample(data, w, h, x - 1, y + 1, c))
  {
    var wt := HighPassWeights(3);
    assert wt(-1, -1) == 1 && wt(0, -1) == -2 && wt(1, -1) == 1
        && wt(-1, 0) == -2 && wt(0, 0) == 4 && wt(1, 0) == 1
        && wt(-1, 1) == 1 && wt(0, 1) == -2 && wt(1, 1) == -2;
    WindowTotal3x3(data, w, h, x, y, c, wt);
  }

  /** With a 3 x 3 kernel every mask's weights sum to zero, so a flat channel
      becomes 0 at every interior pixel. */
  lemma HighPassOfFlat(data: seq<Byte>, w: nat, h: nat, mode: int, x: nat, y: nat, c: nat, v: Byte)
    requires IsImage(data, w, h) && IsHighPassMode(mode)
    requires Interior(w, h, 1, x, y) && c < 4 && FlatChannel(data, w, h, c, v)
    ensures HighPassSample(data, w, h, 1, mode, x, y, c) == 0
  {
    WindowTotalFlat(data, w, h, 1, x, y, c, HighPassWeights(mode), v);
    WeightSum3x3(HighPassWeights(mode));
  }

  /** A flat-colour image with a 3 x 3 kernel comes out black inside a copied border. */
  lemma HighPassOfUniform(data: seq<Byte>, output: seq<Byte>, w: nat, h: nat, mode: int)
    requires IsImage(data, w, h) && IsImage(output, w, h) && IsHighPassMode(mode) && Uniform(data, w, h)
    requires forall x: nat, y: nat, c: nat :: x < w && y < h && c < 4 ==>
      Sample(output, w, h, x, y, c) ==
        if c < 3 && Interior(w, h, 1, x, y)
        then HighPassSample(data, w, h, 1, mode, x, y, c)
        else Sample(data, w, h, x, y, c)
    ensures forall x: nat, y: nat, c: nat :: x < w && y < h && c < 4 ==>
      Sample(output, w, h, x, y, c) == if c < 3 && Interior(w, h, 1, x, y) then 0 else Sample(data, w, h, x, y, c)
  {
    forall x: nat, y: nat, c: nat | x < w && y < h && c < 3 && Interior(w, h, 1, x, y)
      ensures Sample(output, w, h, x, y, c) == 0
    {
      HighPassOfFlat(data, w, h, mode, x, y, c, Sample(data, w, h, 0, 0, c));
    }
  }

  /** Channel c of the result depends on channel c of the input window only. */
  lemma HighPassSampleLocal(d1: seq<Byte>, d2: seq<Byte>, w: nat, h: nat, hk: nat, mode: int, x: nat, y: nat, c: nat)
    requires IsImage(d1, w, h) && IsImage(d2, w, h) && Interior(w, h, hk, x, y) && c < 4
    requires SameWindow(d1, d2, w, h, hk, x, y, c)
    ensures HighPassSample(d1, w, h, hk, mode, x, y, c) == HighPassSample(d2, w, h, hk, mode, x, y, c)
  {
    WindowSame(d1, d2, w, h, hk, x, y, c, HighPassWeights(mode));
  }
}
