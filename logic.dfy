/** applyFilter of the "Lógicas" page: a pointwise AND, OR or XOR of two images of
    the same size, or the negative of the first, over every pixel. */
module Logic {
  import opened Raster

  // ---------------------------------------------------------------------------
  // JavaScript's &, | and ^ on non-negative integers, one binary digit at a time

  function Pow2(n: nat): (r: nat)
    ensures r >= 1
  {
    if n == 0 then 1 else 2 * Pow2(n - 1)
  }

  /** The lowest binary digit of a & b, a | b or a ^ b. */
  function AndBit(a: nat, b: nat): nat { if a % 2 == 1 && b % 2 == 1 then 1 else 0 }
  function OrBit(a: nat, b: nat): nat { if a % 2 == 1 || b % 2 == 1 then 1 else 0 }
  function XorBit(a: nat, b: nat): nat { if a % 2 != b % 2 then 1 else 0 }

  /** a & b: a bit is set where it is set in both. */
  function BitAnd(a: nat, b: nat): (r: nat)
    decreases a + b
    ensures r <= a && r <= b
  {
    if a == 0 && b == 0 then 0 else 2 * BitAnd(a / 2, b / 2) + AndBit(a, b)
  }

  /** a | b: a bit is set where it is set in either. */
  function BitOr(a: nat, b: nat): (r: nat)
    decreases a + b
    ensures r >= a && r >= b
  {
    if a == 0 && b == 0 then 0 else 2 * BitOr(a / 2, b / 2) + OrBit(a, b)
  }

  /** a ^ b: a bit is set where exactly one of them has it. */
  function BitXor(a: nat, b: nat): (r: nat)
    decreases a + b
    ensures r <= a + b
  {
    if a == 0 && b == 0 then 0 else 2 * BitXor(a / 2, b / 2) + XorBit(a, b)
  }

  /** Numbers of n binary digits combine into a number of n binary digits. */
  lemma {:induction false} BitsBelow(a: nat, b: nat, n: nat)
    requires a < Pow2(n) && b < Pow2(n)
    ensures BitAnd(a, b) < Pow2(n) && BitOr(a, b) < Pow2(n) && BitXor(a, b) < Pow2(n)
  {
    if n > 0 && (a != 0 || b != 0) {
      BitsBelow(a / 2, b / 2, n - 1);
    }
  }

  lemma ByteBound()
    ensures Pow2(8) == 256
  {
  }

  function And(a: Byte, b: Byte): Byte
  {
    ByteBound();
    BitsBelow(a, b, 8);
    BitAnd(a, b)
  }

  function Or(a: Byte, b: Byte): Byte
  {
    ByteBound();
    BitsBelow(a, b, 8);
    BitOr(a, b)
  }

  function Xor(a: Byte, b: Byte): Byte
  {
    ByteBound();
    BitsBelow(a, b, 8);
    BitXor(a, b)
  }

  /** The three operators are symmetric in their operands. */
  lemma {:induction false} BitsCommute(a: nat, b: nat)
    decreases a + b
    ensures BitAnd(a, b) == BitAnd(b, a) && BitOr(a, b) == BitOr(b, a) && BitXor(a, b) == BitXor(b, a)
  {
    if a != 0 || b != 0 {
      BitsCommute(a / 2, b / 2);
    }
  }

  /** Each bit set in both operands is counted once by & and once by |. */
  lemma {:induction false} AndPlusOr(a: nat, b: nat)
    decreases a + b
    ensures BitAnd(a, b) + BitOr(a, b) == a + b
  {
    if a != 0 || b != 0 {
      AndPlusOr(a / 2, b / 2);
    }
  }

  /** A number XOR itself is 0; XOR 0 leaves it alone. */
  lemma {:induction false} XorSelfAndZero(a: nat)
    ensures BitXor(a, a) == 0 && BitXor(a, 0) == a
  {
    if a != 0 {
      XorSelfAndZero(a / 2);
    }
  }

  /** XOR with n one-bits flips the lowest n bits: for a below 2^n it is 2^n - 1 - a. */
  lemma {:induction false} XorAllOnes(a: nat, n: nat)
    requires a < Pow2(n)
    ensures BitXor(a, Pow2(n) - 1) == Pow2(n) - 1 - a
  {
    if n > 0 {
      var half := Pow2(n - 1);
      assert Pow2(n) - 1 == 2 * (half - 1) + 1;
      assert a / 2 < half;
      XorAllOnes(a / 2, n - 1);
      assert BitXor(a, Pow2(n) - 1) == 2 * BitXor(a / 2, half - 1) + XorBit(a, Pow2(n) - 1);
    }
  }

  /** The sample stored from first-image sample a and second-image sample b:
      1 is AND, 2 is OR, 3 is XOR, anything else the negative of a. */
  function LogicSample(mode: int, a: Byte, b: Byte): Byte
  {
    if mode == 1 then And(a, b)
    else if mode == 2 then Or(a, b)
    else if mode == 3 then Xor(a, b)
    else 255 - a
  }

  /** `output` is what applyFilter makes of the two images: every pixel's R, G, B
      combined by `mode`, alpha from the first image. */
  predicate LogicImage(output: seq<Byte>, data1: seq<Byte>, data2: seq<Byte>, w: nat, h: nat, mode: int)
    requires IsImage(output, w, h) && IsImage(data1, w, h) && IsImage(data2, w, h)
  {
    forall x: nat, y: nat, c: nat :: x < w && y < h && c < 4 ==>
      Sample(output, w, h, x, y, c) ==
        if c < 3 then LogicSample(mode, Sample(data1, w, h, x, y, c), Sample(data2, w, h, x, y, c))
        else Sample(data1, w, h, x, y, c)
  }

  /** The combined image, built pixel by pixel. */
  lemma LogicTarget(data1: seq<Byte>, data2: seq<Byte>, w: nat, h: nat, mode: int) returns (target: seq<Byte>)
    requires IsImage(data1, w, h) && IsImage(data2, w, h)
    ensures IsImage(target, w, h) && SameOffInterior(target, data1, w, h, 0)
    ensures forall x: nat, y: nat, c: nat {:trigger Sample(data2, w, h, x, y, c)} :: x < w && y < h && c < 3 ==>
      Sample(target, w, h, x, y, c) == LogicSample(mode, Sample(data1, w, h, x, y, c), Sample(data2, w, h, x, y, c))
  {
    target := ImageFrom(w, h, (x: nat, y: nat, c: nat) =>
      if x < w && y < h && c < 4 then
        if c < 3 then LogicSample(mode, Sample(data1, w, h, x, y, c), Sample(data2, w, h, x, y, c))
        else Sample(data1, w, h, x, y, c)
      else 0);
  }

  /** The x loop over row y: every pixel of the row, borders included. */
  method LogicRow(data1: seq<Byte>, data2: seq<Byte>, outputData: array<Byte>, width: nat, height: nat,
                  mode: int, y: nat, ghost target: seq<Byte>)
    requires IsImage(data1, width, height) && IsImage(data2, width, height) && IsImage(target, width, height)
    requires outputData.Length == |data1| && y < height
    requires forall x: nat, y: nat, c: nat {:trigger Sample(data2, width, height, x, y, c)} ::
      x < width && y < height && c < 3 ==>
        Sample(target, width, height, x, y, c) ==
          LogicSample(mode, Sample(data1, width, height, x, y, c), Sample(data2, width, height, x, y, c))
    modifies outputData
    ensures RowDone(outputData[..], old(outputData[..]), target, width, height, 0, y, width)
  {
    var x := 0;
    RowStart(outputData[..], target, width, height, 0, y);
    while x < width
      invariant x <= width
      invariant RowDone(outputData[..], old(outputData[..]), target, width, height, 0, y, x)
    {
      IdxInBuffer(width, height, x, y, 3);
      var pixelIndex := Idx(width, x, y, 0);
      assert data1[pixelIndex + 1] == Sample(data1, width, height, x, y, 1);
      assert data1[pixelIndex + 2] == Sample(data1, width, height, x, y, 2);
      assert data2[pixelIndex] == Sample(data2, width, height, x, y, 0);
      assert data2[pixelIndex + 1] == Sample(data2, width, height, x, y, 1);
      assert data2[pixelIndex + 2] == Sample(data2, width, height, x, y, 2);
      var red, green, blue;
      if mode == 1 {
        red := And(data1[pixelIndex], data2[pixelIndex]);
        green := And(data1[pixelIndex + 1], data2[pixelIndex + 1]);
        blue := And(data1[pixelIndex + 2], data2[pixelIndex + 2]);
      } else if mode == 2 {
        red := Or(data1[pixelIndex], data2[pixelIndex]);
        green := Or(data1[pixelIndex + 1], data2[pixelIndex + 1]);
        blue := Or(data1[pixelIndex + 2], data2[pixelIndex + 2]);
      } else if mode == 3 {
        red := Xor(data1[pixelIndex], data2[pixelIndex]);
        green := Xor(data1[pixelIndex + 1], data2[pixelIndex + 1]);
        blue := Xor(data1[pixelIndex + 2], data2[pixelIndex + 2]);
      } else {
        red := 255 - data1[pixelIndex];
        green := 255 - data1[pixelIndex + 1];
        blue := 255 - data1[pixelIndex + 2];
      }
      ghost var before := outputData[..];
      StoreRGB(outputData, width, height, x, y, red, green, blue);
      RowStep(before, outputData[..], old(outputData[..]), target, width, height, 0, x, y, red, green, blue);
      x := x + 1;
    }
  }

  /** applyFilter(imageData1, imageData2, width, height, kernelSize, mode). */
  method ApplyFilter(data1: seq<Byte>, data2: seq<Byte>, width: nat, height: nat, mode: int)
    returns (output: seq<Byte>)
    requires IsImage(data1, width, height) && IsImage(data2, width, height)
    ensures IsImage(output, width, height)
    ensures forall x: nat, y: nat, c: nat :: x < width && y < height && c < 4 ==>
      Sample(output, width, height, x, y, c) ==
        if c < 3 then LogicSample(mode, Sample(data1, width, height, x, y, c), Sample(data2, width, height, x, y, c))
        else Sample(data1, width, height, x, y, c)
  {
    var outputData := new Byte[|data1|](i requires 0 <= i < |data1| => data1[i]);
    assert outputData[..] == data1;
    ghost var target := LogicTarget(data1, data2, width, height, mode);
    var y := 0;
    RowsStart(data1, target, width, height, 0);
    while y < height
      invariant y <= height
      invariant RowsDone(outputData[..], target, data1, width, height, y)
    {
      ghost var before := outputData[..];
      LogicRow(data1, data2, outputData, width, height, mode, y, target);
      RowsStep(before, outputData[..], target, data1, width, height, 0, y);
      y := y + 1;
    }
    output := outputData[..];
    RowsEnd(output, target, data1, width, height, 0, y);
  }

  // ---------------------------------------------------------------------------
  // Properties of one sample

  /** AND, OR and XOR do not care which image comes first. */
  lemma LogicCommutes(mode: int, a: Byte, b: Byte)
    requires mode == 1 || mode == 2 || mode == 3
    ensures LogicSample(mode, a, b) == LogicSample(mode, b, a)
  {
    BitsCommute(a, b);
  }

  /** AND keeps only bits both samples have, OR every bit either has. */
  lemma AndOrBounds(a: Byte, b: Byte)
    ensures And(a, b) <= a && And(a, b) <= b
    ensures Or(a, b) >= a && Or(a, b) >= b
    ensures And(a, b) + Or(a, b) == a + b
  {
    AndPlusOr(a, b);
  }

  /** XOR of a sample with itself is 0, with 0 it is the sample, with 255 its negative. */
  lemma XorFacts(a: Byte)
    ensures Xor(a, a) == 0 && Xor(a, 0) == a && Xor(a, 255) == 255 - a
  {
    XorSelfAndZero(a);
    ByteBound();
    XorAllOnes(a, 8);
  }

  // ---------------------------------------------------------------------------
  // Properties of whole images

  /** The three combining modes give the same R, G, B with the images swapped;
      only alpha follows the first image. */
  lemma LogicImageCommutes(o12: seq<Byte>, o21: seq<Byte>, data1: seq<Byte>, data2: seq<Byte>, w: nat, h: nat, mode: int)
    requires IsImage(o12, w, h) && IsImage(o21, w, h) && IsImage(data1, w, h) && IsImage(data2, w, h)
    requires mode == 1 || mode == 2 || mode == 3
    requires LogicImage(o12, data1, data2, w, h, mode) && LogicImage(o21, data2, data1, w, h, mode)
    ensures forall x: nat, y: nat, c: nat :: x < w && y < h && c < 3 ==>
      Sample(o12, w, h, x, y, c) == Sample(o21, w, h, x, y, c)
  {
    forall x: nat, y: nat, c: nat | x < w && y < h && c < 3
      ensures Sample(o12, w, h, x, y, c) == Sample(o21, w, h, x, y, c)
    {
      LogicCommutes(mode, Sample(data1, w, h, x, y, c), Sample(data2, w, h, x, y, c));
    }
  }

  /** XOR of an image with itself is black with the image's own alpha. */
  lemma XorSelfIsBlack(output: seq<Byte>, data: seq<Byte>, w: nat, h: nat)
    requires IsImage(output, w, h) && IsImage(data, w, h) && LogicImage(output, data, data, w, h, 3)
    ensures forall x: nat, y: nat, c: nat :: x < w && y < h && c < 4 ==>
      Sample(output, w, h, x, y, c) == if c < 3 then 0 else Sample(data, w, h, x, y, c)
  {
    forall x: nat, y: nat, c: nat | x < w && y < h && c < 3
      ensures Sample(output, w, h, x, y, c) == 0
    {
      XorFacts(Sample(data, w, h, x, y, c));
    }
  }

  /** The negative ignores the second image: any two second images give the same output. */
  lemma InvertIgnoresSecond(o1: seq<Byte>, o2: seq<Byte>, data: seq<Byte>, other1: seq<Byte>, other2: seq<Byte>,
                            w: nat, h: nat, mode: int)
    requires IsImage(o1, w, h) && IsImage(o2, w, h) && IsImage(data, w, h)
    requires IsImage(other1, w, h) && IsImage(other2, w, h)
    requires mode != 1 && mode != 2 && mode != 3
    requires LogicImage(o1, data, other1, w, h, mode) && LogicImage(o2, data, other2, w, h, mode)
    ensures o1 == o2
  {
    SameAtEveryPixel(o1, o2, w, h);
  }

  /** Taking the negative twice gives back the original buffer. */
  lemma InvertTwice(once: seq<Byte>, twice: seq<Byte>, data: seq<Byte>, other1: seq<Byte>, other2: seq<Byte>,
                    w: nat, h: nat, mode: int)
    requires IsImage(once, w, h) && IsImage(twice, w, h) && IsImage(data, w, h)
    requires IsImage(other1, w, h) && IsImage(other2, w, h)
    requires mode != 1 && mode != 2 && mode != 3
    requires LogicImage(once, data, other1, w, h, mode) && LogicImage(twice, once, other2, w, h, mode)
    ensures twice == data
  {
    SameAtEveryPixel(twice, data, w, h);
  }
}
