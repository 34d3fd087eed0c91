/** The RGBA raster buffer shared by every filter: a flat Uint8ClampedArray of
    width * height * 4 samples in row-major order, channels R, G, B, A. */
module Raster {

  /** One sample of a Uint8ClampedArray. */
  type Byte = x: int | 0 <= x < 256

  /** Buffer index of channel `c` of pixel (x, y) in a buffer of width `w`. */
  function Idx(w: nat, x: nat, y: nat, c: nat): nat
  {
    (y * w + x) * 4 + c
  }

  /** The buffer holds exactly one RGBA quadruple per pixel. */
  predicate IsImage(data: seq<Byte>, w: nat, h: nat)
  {
    |data| == w * h * 4
  }

  /** Pixel (x, y) has at least `m` pixels on every side of it. */
  predicate Interior(w: nat, h: nat, m: nat, x: nat, y: nat)
  {
    m <= x && x + m < w && m <= y && y + m < h
  }

  /** The saturating store of a Uint8ClampedArray; also the `normalize` helper of
      the gradient filters. */
  function Clamp(v: int): (r: Byte)
    ensures 0 <= v <= 255 ==> r == v
    ensures v < 0 ==> r == 0
    ensures v > 255 ==> r == 255
  {
    if v < 0 then 0 else if v > 255 then 255 else v
  }

  lemma MulLeft(a: nat, b: nat, n: nat)
    requires a <= b
    ensures a * n <= b * n
  {
  }

  lemma MulMonotone(a: int, b: int, n: nat)
    requires a <= b
    ensures a * n <= b * n
  {
    MulLeft(0, b - a, n);
  }

  lemma MulSucc(m: int, n: int)
    ensures (m + 1) * n == m * n + n
  {
  }

  /** Cell (row, col) of an m x n grid laid out row by row lies inside it. */
  lemma GridIndex(row: nat, col: nat, m: nat, n: nat)
    requires row < m && col < n
    ensures row * n + col < m * n
    ensures row * n + col < (row + 1) * n
  {
    MulLeft(row + 1, m, n);
    MulSucc(row, n);
  }

  lemma Distrib(v: int, a: int, b: int)
    ensures v * (a + b) == v * a + v * b
  {
  }

  /** Every (x, y, c) of the image addresses a sample inside the buffer. */
  lemma IdxInBuffer(w: nat, h: nat, x: nat, y: nat, c: nat)
    requires x < w && y < h && c < 4
    ensures Idx(w, x, y, c) < w * h * 4
  {
    MulLeft(y + 1, h, w);
    assert (y + 1) * w == y * w + w;
  }

  /** Quantified form of IdxInBuffer, for loop invariants. */
  lemma AllIdxInBuffer(w: nat, h: nat)
    ensures forall x: nat, y: nat, c: nat {:trigger Idx(w, x, y, c)} ::
      x < w && y < h && c < 4 ==> Idx(w, x, y, c) < w * h * 4
  {
    forall x: nat, y: nat, c: nat | x < w && y < h && c < 4
      ensures Idx(w, x, y, c) < w * h * 4
    {
      IdxInBuffer(w, h, x, y, c);
    }
  }

  /** Two different pixels never share a buffer index. */
  lemma {:induction false} PixelsDisjoint(w: nat, x: nat, y: nat, x': nat, y': nat, c: nat, c': nat)
    requires x < w && x' < w && c < 4 && c' < 4
    requires x != x' || y != y'
    ensures Idx(w, x, y, c) != Idx(w, x', y', c')
  {
    if y < y' {
      MulLeft(y + 1, y', w);
      assert (y + 1) * w == y * w + w;
    } else if y' < y {
      MulLeft(y' + 1, y, w);
      assert (y' + 1) * w == y' * w + w;
    }
  }

  /** The sample at channel `c` of pixel (x, y). */
  function Sample(data: seq<Byte>, w: nat, h: nat, x: nat, y: nat, c: nat): Byte
    requires IsImage(data, w, h) && x < w && y < h && c < 4
  {
    IdxInBuffer(w, h, x, y, c);
    data[Idx(w, x, y, c)]
  }

  /** Column of the pixel that buffer index `i` belongs to. */
  function PixelX(w: nat, i: nat): nat
    requires w > 0
  {
    (i / 4) % w
  }

  /** Row of the pixel that buffer index `i` belongs to. */
  function PixelY(w: nat, i: nat): nat
    requires w > 0
  {
    (i / 4) / w
  }

  /** Every buffer index is the index of some (x, y, c) of the image. */
  lemma {:induction false} DecodeIdx(w: nat, h: nat, i: nat)
    requires i < w * h * 4
    ensures w > 0 && PixelX(w, i) < w && PixelY(w, i) < h
    ensures Idx(w, PixelX(w, i), PixelY(w, i), i % 4) == i
  {
    var p := i / 4;
    assert p < w * h;
    assert w > 0;
    var x := p % w;
    var y := p / w;
    assert y * w + x == p;
    if y >= h {
      MulLeft(h, y, w);
      assert false;
    }
  }

  /** Decoding the index of (x, y, c) gives back (x, y, c). */
  lemma DecodeOfIdx(w: nat, h: nat, x: nat, y: nat, c: nat)
    requires x < w && y < h && c < 4
    ensures Idx(w, x, y, c) < w * h * 4
    ensures PixelX(w, Idx(w, x, y, c)) == x && PixelY(w, Idx(w, x, y, c)) == y && Idx(w, x, y, c) % 4 == c
  {
    var i := Idx(w, x, y, c);
    IdxInBuffer(w, h, x, y, c);
    DecodeIdx(w, h, i);
    assert i % 4 == c;
    if PixelX(w, i) != x || PixelY(w, i) != y {
      PixelsDisjoint(w, PixelX(w, i), PixelY(w, i), x, y, c, c);
      assert false;
    }
  }

  /** A buffer laid out as an image, read back pixel by pixel. */
  lemma ImageAt(w: nat, h: nat, f: (nat, nat, nat) -> Byte, image: seq<Byte>)
    requires |image| == w * h * 4
    requires forall i :: 0 <= i < |image| ==> w > 0 && image[i] == f(PixelX(w, i), PixelY(w, i), i % 4)
    ensures forall x: nat, y: nat, c: nat :: x < w && y < h && c < 4 ==> Sample(image, w, h, x, y, c) == f(x, y, c)
  {
    forall x: nat, y: nat, c: nat | x < w && y < h && c < 4
      ensures Sample(image, w, h, x, y, c) == f(x, y, c)
    {
      DecodeOfIdx(w, h, x, y, c);
    }
  }

  /** The image whose sample at (x, y, c) is f(x, y, c). */
  function ImageFrom(w: nat, h: nat, f: (nat, nat, nat) -> Byte): (image: seq<Byte>)
    ensures IsImage(image, w, h)
    ensures forall x: nat, y: nat, c: nat :: x < w && y < h && c < 4 ==> Sample(image, w, h, x, y, c) == f(x, y, c)
  {
    var image := seq<Byte>(w * h * 4, i requires 0 <= i < w * h * 4 => f(PixelX(w, i), PixelY(w, i), i % 4));
    ImageAt(w, h, f, image);
    image
  }

  /** Two images that agree on every (x, y, c) are the same buffer. */
  lemma SameAtEveryPixel(s: seq<Byte>, t: seq<Byte>, w: nat, h: nat)
    requires IsImage(s, w, h) && IsImage(t, w, h)
    requires forall x: nat, y: nat, c: nat ::
      x < w && y < h && c < 4 ==> Sample(s, w, h, x, y, c) == Sample(t, w, h, x, y, c)
    ensures s == t
  {
    forall i | 0 <= i < |s| ensures s[i] == t[i] {
      DecodeIdx(w, h, i);
      assert Sample(s, w, h, PixelX(w, i), PixelY(w, i), i % 4) == Sample(t, w, h, PixelX(w, i), PixelY(w, i), i % 4);
    }
  }

  /** Channel `c` has the value `v` at every pixel of the image. */
  predicate FlatChannel(data: seq<Byte>, w: nat, h: nat, c: nat, v: int)
    requires IsImage(data, w, h) && c < 4
  {
    forall x: nat, y: nat :: x < w && y < h ==> Sample(data, w, h, x, y, c) == v
  }

  /** A flat-colour image: R, G and B are each constant over the image. */
  predicate Uniform(data: seq<Byte>, w: nat, h: nat)
    requires IsImage(data, w, h)
  {
    w > 0 && h > 0 &&
    forall c: nat :: c < 3 ==> FlatChannel(data, w, h, c, Sample(data, w, h, 0, 0, c))
  }

  /** Channel `c` of the pixel that StoreRGB writes. */
  function Pick(c: nat, r: Byte, g: Byte, b: Byte): Byte
    requires c < 3
  {
    if c == 0 then r else if c == 1 then g else b
  }

  /** `after` is `before` with the R, G and B samples of pixel (x, y) set to r, g, b. */
  predicate Stored(after: seq<Byte>, before: seq<Byte>, w: nat, h: nat, x: nat, y: nat, r: Byte, g: Byte, b: Byte)
    requires IsImage(after, w, h) && IsImage(before, w, h)
  {
    forall x': nat, y': nat, c: nat :: x' < w && y' < h && c < 4 ==>
      Sample(after, w, h, x', y', c) ==
        if x' == x && y' == y && c < 3 then Pick(c, r, g, b) else Sample(before, w, h, x', y', c)
  }

  /** outputData[pixelIndex .. pixelIndex + 2] := r, g, b, leaving alpha alone. */
  method StoreRGB(a: array<Byte>, w: nat, h: nat, x: nat, y: nat, r: Byte, g: Byte, b: Byte)
    requires a.Length == w * h * 4 && x < w && y < h
    modifies a
    ensures Stored(a[..], old(a[..]), w, h, x, y, r, g, b)
  {
    IdxInBuffer(w, h, x, y, 3);
    var pixelIndex := Idx(w, x, y, 0);
    a[pixelIndex] := r;
    a[pixelIndex + 1] := g;
    a[pixelIndex + 2] := b;
    AllIdxInBuffer(w, h);
    forall x': nat, y': nat, c: nat | x' < w && y' < h && c < 4 && (x' != x || y' != y)
      ensures Idx(w, x', y', c) != pixelIndex && Idx(w, x', y', c) != pixelIndex + 1
      ensures Idx(w, x', y', c) != pixelIndex + 2
    {
      PixelsDisjoint(w, x', y', x, y, c, 0);
      PixelsDisjoint(w, x', y', x, y, c, 1);
      PixelsDisjoint(w, x', y', x, y, c, 2);
    }
  }

  // ---------------------------------------------------------------------------
  // The y / x scan shared by the windowed filters: every interior pixel is
  // written once, in row-major order, and nothing else is touched.

  /** `target` differs from `data` at most in the R, G, B samples of interior pixels. */
  predicate SameOffInterior(target: seq<Byte>, data: seq<Byte>, w: nat, h: nat, hk: nat)
    requires IsImage(target, w, h) && IsImage(data, w, h)
  {
    forall x: nat, y: nat, c: nat {:trigger Sample(target, w, h, x, y, c)} ::
      x < w && y < h && c < 4 && !(c < 3 && Interior(w, h, hk, x, y)) ==>
        Sample(target, w, h, x, y, c) == Sample(data, w, h, x, y, c)
  }

  /** Invariant of the x loop over row y: the interior RGB samples of row y left of
      column x hold `target`, every other sample is as in `before`. */
  predicate RowDone(out: seq<Byte>, before: seq<Byte>, target: seq<Byte>, w: nat, h: nat, hk: nat, y: nat, x: nat)
    requires IsImage(out, w, h) && IsImage(before, w, h) && IsImage(target, w, h)
  {
    forall xx: nat, yy: nat, c: nat :: xx < w && yy < h && c < 4 ==>
      Sample(out, w, h, xx, yy, c) ==
        if yy == y && c < 3 && Interior(w, h, hk, xx, yy) && xx < x
        then Sample(target, w, h, xx, yy, c) else Sample(before, w, h, xx, yy, c)
  }

  /** Invariant of the y loop: rows above y hold `target`, the others `data`. */
  predicate RowsDone(out: seq<Byte>, target: seq<Byte>, data: seq<Byte>, w: nat, h: nat, y: nat)
    requires IsImage(out, w, h) && IsImage(target, w, h) && IsImage(data, w, h)
  {
    forall xx: nat, yy: nat, c: nat :: xx < w && yy < h && c < 4 ==>
      Sample(out, w, h, xx, yy, c) ==
        if yy < y then Sample(target, w, h, xx, yy, c) else Sample(data, w, h, xx, yy, c)
  }

  lemma RowStart(out: seq<Byte>, target: seq<Byte>, w: nat, h: nat, hk: nat, y: nat)
    requires IsImage(out, w, h) && IsImage(target, w, h)
    ensures RowDone(out, out, target, w, h, hk, y, hk)
  {
  }

  /** Storing target's pixel (x, y) extends the finished part of the row by one. */
  lemma RowStep(out0: seq<Byte>, out1: seq<Byte>, before: seq<Byte>, target: seq<Byte>,
                w: nat, h: nat, hk: nat, x: nat, y: nat, r: Byte, g: Byte, b: Byte)
    requires IsImage(out0, w, h) && IsImage(out1, w, h) && IsImage(before, w, h) && IsImage(target, w, h)
    requires Interior(w, h, hk, x, y)
    requires RowDone(out0, before, target, w, h, hk, y, x) && Stored(out1, out0, w, h, x, y, r, g, b)
    requires r == Sample(target, w, h, x, y, 0) && g == Sample(target, w, h, x, y, 1)
    requires b == Sample(target, w, h, x, y, 2)
    ensures RowDone(out1, before, target, w, h, hk, y, x + 1)
  {
  }

  /** Once x has passed the last interior column the whole row is done. */
  lemma RowEnd(out: seq<Byte>, before: seq<Byte>, target: seq<Byte>, w: nat, h: nat, hk: nat, y: nat, x: nat)
    requires IsImage(out, w, h) && IsImage(before, w, h) && IsImage(target, w, h)
    requires RowDone(out, before, target, w, h, hk, y, x) && x + hk >= w
    ensures RowDone(out, before, target, w, h, hk, y, w)
  {
  }

  lemma RowsStart(data: seq<Byte>, target: seq<Byte>, w: nat, h: nat, hk: nat)
    requires IsImage(data, w, h) && IsImage(target, w, h) && SameOffInterior(target, data, w, h, hk)
    ensures RowsDone(data, target, data, w, h, hk)
  {
  }

  /** A finished row y extends the finished rows by one. */
  lemma RowsStep(out0: seq<Byte>, out1: seq<Byte>, target: seq<Byte>, data: seq<Byte>, w: nat, h: nat, hk: nat, y: nat)
    requires IsImage(out0, w, h) && IsImage(out1, w, h) && IsImage(target, w, h) && IsImage(data, w, h)
    requires SameOffInterior(target, data, w, h, hk)
    requires RowsDone(out0, target, data, w, h, y) && RowDone(out1, out0, target, w, h, hk, y, w)
    ensures RowsDone(out1, target, data, w, h, y + 1)
  {
  }

  /** Once y has passed the last interior row the buffer is `target`. */
  lemma RowsEnd(out: seq<Byte>, target: seq<Byte>, data: seq<Byte>, w: nat, h: nat, hk: nat, y: nat)
    requires IsImage(out, w, h) && IsImage(target, w, h) && IsImage(data, w, h)
    requires SameOffInterior(target, data, w, h, hk)
    requires RowsDone(out, target, data, w, h, y) && y + hk >= h
    ensures out == target
  {
    SameAtEveryPixel(out, target, w, h);
  }
}
