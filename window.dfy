/** The square neighbourhood of an interior pixel, as the windowed filters walk it:
    rows ky = -hk .. hk in the outer loop, columns kx = -hk .. hk in the inner one. */
module Window {
  import opened Raster

  /** The weight each filter gives to the neighbour at offset (kx, ky). */
  type Weights = (int, int) -> int

  /** Sum of wt(kx, ky) * sample(x + kx, y + ky, c) over kx in [-hk, n - hk). */
  function RowTotal(data: seq<Byte>, w: nat, h: nat, hk: nat, x: nat, y: nat, c: nat,
                    wt: Weights, ky: int, n: nat): int
    requires IsImage(data, w, h) && Interior(w, h, hk, x, y) && c < 4
    requires -(hk as int) <= ky <= hk && n <= 2 * hk + 1
  {
    if n == 0 then 0
    else RowTotal(data, w, h, hk, x, y, c, wt, ky, n - 1)
         + wt(n - 1 - hk, ky) * Sample(data, w, h, x + n - 1 - hk, y + ky, c)
  }

  /** Sum of the full rows ky in [-hk, m - hk). */
  function RowsTotal(data: seq<Byte>, w: nat, h: nat, hk: nat, x: nat, y: nat, c: nat,
                     wt: Weights, m: nat): int
    requires IsImage(data, w, h) && Interior(w, h, hk, x, y) && c < 4
    requires m <= 2 * hk + 1
  {
    if m == 0 then 0
    else RowsTotal(data, w, h, hk, x, y, c, wt, m - 1)
         + RowTotal(data, w, h, hk, x, y, c, wt, m - 1 - hk, 2 * hk + 1)
  }

  /** The weighted sum of channel `c` over the (2hk+1) x (2hk+1) window around (x, y). */
  function WindowTotal(data: seq<Byte>, w: nat, h: nat, hk: nat, x: nat, y: nat, c: nat,
                       wt: Weights): int
    requires IsImage(data, w, h) && Interior(w, h, hk, x, y) && c < 4
  {
    RowsTotal(data, w, h, hk, x, y, c, wt, 2 * hk + 1)
  }

  /** Sum of the weights of row `ky` over kx in [-hk, n - hk). */
  function RowWeight(wt: Weights, hk: nat, ky: int, n: nat): int
  {
    if n == 0 then 0 else RowWeight(wt, hk, ky, n - 1) + wt(n - 1 - hk, ky)
  }

  /** Sum of the weights of the rows ky in [-hk, m - hk). */
  function RowsWeight(wt: Weights, hk: nat, m: nat): int
  {
    if m == 0 then 0 else RowsWeight(wt, hk, m - 1) + RowWeight(wt, hk, m - 1 - hk, 2 * hk + 1)
  }

  /** Sum of all the weights of the window. */
  function WeightSum(wt: Weights, hk: nat): int
  {
    RowsWeight(wt, hk, 2 * hk + 1)
  }

  /** The samples of channel `c` in row `ky` for kx in [-hk, n - hk), left to right. */
  function RowValues(data: seq<Byte>, w: nat, h: nat, hk: nat, x: nat, y: nat, c: nat,
                     ky: int, n: nat): seq<Byte>
    requires IsImage(data, w, h) && Interior(w, h, hk, x, y) && c < 4
    requires -(hk as int) <= ky <= hk && n <= 2 * hk + 1
  {
    if n == 0 then []
    else RowValues(data, w, h, hk, x, y, c, ky, n - 1) + [Sample(data, w, h, x + n - 1 - hk, y + ky, c)]
  }

  /** The samples of the full rows ky in [-hk, m - hk), top row first. */
  function RowsValues(data: seq<Byte>, w: nat, h: nat, hk: nat, x: nat, y: nat, c: nat,
                      m: nat): seq<Byte>
    requires IsImage(data, w, h) && Interior(w, h, hk, x, y) && c < 4
    requires m <= 2 * hk + 1
  {
    if m == 0 then []
    else RowsValues(data, w, h, hk, x, y, c, m - 1)
         + RowValues(data, w, h, hk, x, y, c, m - 1 - hk, 2 * hk + 1)
  }

  /** The list of channel-`c` samples the median and mode filters push, in push order. */
  function WindowValues(data: seq<Byte>, w: nat, h: nat, hk: nat, x: nat, y: nat, c: nat): seq<Byte>
    requires IsImage(data, w, h) && Interior(w, h, hk, x, y) && c < 4
  {
    RowsValues(data, w, h, hk, x, y, c, 2 * hk + 1)
  }

  /** Channel `c` of two images agrees at every pixel of the window around (x, y). */
  predicate SameWindow(d1: seq<Byte>, d2: seq<Byte>, w: nat, h: nat, hk: nat, x: nat, y: nat, c: nat)
    requires IsImage(d1, w, h) && IsImage(d2, w, h) && c < 4
  {
    forall px: nat, py: nat ::
      (x <= px + hk && px <= x + hk && y <= py + hk && py <= y + hk && px < w && py < h) ==>
        Sample(d1, w, h, px, py, c) == Sample(d2, w, h, px, py, c)
  }

  // ---------------------------------------------------------------------------
  // Lemmas

  lemma {:induction false} RowValuesAt(data: seq<Byte>, w: nat, h: nat, hk: nat, x: nat, y: nat, c: nat,
                                       ky: int, n: nat, col: nat)
    requires IsImage(data, w, h) && Interior(w, h, hk, x, y) && c < 4
    requires -(hk as int) <= ky <= hk && n <= 2 * hk + 1 && col < n
    ensures |RowValues(data, w, h, hk, x, y, c, ky, n)| == n &&
            RowValues(data, w, h, hk, x, y, c, ky, n)[col] == Sample(data, w, h, x + col - hk, y + ky, c)
  {
    if col < n - 1 {
      RowValuesAt(data, w, h, hk, x, y, c, ky, n - 1, col);
    } else if n > 1 {
      RowValuesAt(data, w, h, hk, x, y, c, ky, n - 1, 0);
    }
  }

  lemma {:induction false} RowsValuesLength(data: seq<Byte>, w: nat, h: nat, hk: nat, x: nat, y: nat, c: nat, m: nat)
    requires IsImage(data, w, h) && Interior(w, h, hk, x, y) && c < 4
    requires m <= 2 * hk + 1
    ensures |RowsValues(data, w, h, hk, x, y, c, m)| == m * (2 * hk + 1)
  {
    if m > 0 {
      RowsValuesLength(data, w, h, hk, x, y, c, m - 1);
      RowValuesAt(data, w, h, hk, x, y, c, m - 1 - hk, 2 * hk + 1, 0);
      MulSucc(m - 1, 2 * hk + 1);
    }
  }

  lemma {:induction false} RowsValuesAt(data: seq<Byte>, w: nat, h: nat, hk: nat, x: nat, y: nat, c: nat,
                                        m: nat, row: nat, col: nat)
    requires IsImage(data, w, h) && Interior(w, h, hk, x, y) && c < 4
    requires m <= 2 * hk + 1 && row < m && col < 2 * hk + 1
    ensures 0 <= row * (2 * hk + 1) + col < |RowsValues(data, w, h, hk, x, y, c, m)| &&
            RowsValues(data, w, h, hk, x, y, c, m)[row * (2 * hk + 1) + col]
            == Sample(data, w, h, x + col - hk, y + row - hk, c)
  {
    var side := 2 * hk + 1;
    RowsValuesLength(data, w, h, hk, x, y, c, m - 1);
    RowValuesAt(data, w, h, hk, x, y, c, m - 1 - hk, side, 0);
    AppendRowAt(RowsValues(data, w, h, hk, x, y, c, m - 1),
                RowValues(data, w, h, hk, x, y, c, m - 1 - hk, side), m - 1, side, row, col);
    if row < m - 1 {
      RowsValuesAt(data, w, h, hk, x, y, c, m - 1, row, col);
    } else {
      RowValuesAt(data, w, h, hk, x, y, c, m - 1 - hk, side, col);
    }
  }

  /** Appending row number `m` to `m` rows of length `n`: where cell (row, col) lands. */
  lemma AppendRowAt(prefix: seq<Byte>, last: seq<Byte>, m: nat, n: nat, row: nat, col: nat)
    requires |prefix| == m * n && |last| == n && row <= m && col < n
    ensures row * n + col < |prefix + last|
    ensures row < m ==> row * n + col < |prefix| && (prefix + last)[row * n + col] == prefix[row * n + col]
    ensures row == m ==> (prefix + last)[row * n + col] == last[col]
  {
    GridIndex(row, col, m + 1, n);
    MulSucc(m, n);
    if row < m {
      GridIndex(row, col, m, n);
    }
  }

  /** The window is pushed row-major: the neighbour at offset (kx, ky) sits at
      position (ky + hk) * (2hk + 1) + (kx + hk) of the list, which has (2hk + 1)^2
      entries. */
  lemma WindowValuesAt(data: seq<Byte>, w: nat, h: nat, hk: nat, x: nat, y: nat, c: nat, kx: int, ky: int)
    requires IsImage(data, w, h) && Interior(w, h, hk, x, y) && c < 4
    requires -(hk as int) <= kx <= hk && -(hk as int) <= ky <= hk
    ensures |WindowValues(data, w, h, hk, x, y, c)| == (2 * hk + 1) * (2 * hk + 1)
    ensures 0 <= (ky + hk) * (2 * hk + 1) + (kx + hk) < (2 * hk + 1) * (2 * hk + 1) &&
            WindowValues(data, w, h, hk, x, y, c)[(ky + hk) * (2 * hk + 1) + (kx + hk)]
            == Sample(data, w, h, x + kx, y + ky, c)
  {
    RowsValuesLength(data, w, h, hk, x, y, c, 2 * hk + 1);
    RowsValuesAt(data, w, h, hk, x, y, c, 2 * hk + 1, ky + hk, kx + hk);
  }

  /** Every window holds at least the centre sample. */
  lemma WindowNotEmpty(data: seq<Byte>, w: nat, h: nat, hk: nat, x: nat, y: nat, c: nat)
    requires IsImage(data, w, h) && Interior(w, h, hk, x, y) && c < 4
    ensures |WindowValues(data, w, h, hk, x, y, c)| > 0
  {
    WindowValuesAt(data, w, h, hk, x, y, c, 0, 0);
  }

  lemma {:induction false} RowValuesFlat(data: seq<Byte>, w: nat, h: nat, hk: nat, x: nat, y: nat, c: nat,
                                         v: int, ky: int, n: nat)
    requires IsImage(data, w, h) && Interior(w, h, hk, x, y) && c < 4 && FlatChannel(data, w, h, c, v)
    requires -(hk as int) <= ky <= hk && n <= 2 * hk + 1
    ensures forall e :: e in RowValues(data, w, h, hk, x, y, c, ky, n) ==> e == v
  {
    if n > 0 {
      RowValuesFlat(data, w, h, hk, x, y, c, v, ky, n - 1);
    }
  }

  /** On a flat channel every value of the window is that channel's value. */
  lemma {:induction false} WindowValuesFlat(data: seq<Byte>, w: nat, h: nat, hk: nat, x: nat, y: nat, c: nat,
                                            v: int, m: nat)
    requires IsImage(data, w, h) && Interior(w, h, hk, x, y) && c < 4 && FlatChannel(data, w, h, c, v)
    requires m <= 2 * hk + 1
    ensures forall e :: e in RowsValues(data, w, h, hk, x, y, c, m) ==> e == v
  {
    if m > 0 {
      WindowValuesFlat(data, w, h, hk, x, y, c, v, m - 1);
      RowValuesFlat(data, w, h, hk, x, y, c, v, m - 1 - hk, 2 * hk + 1);
    }
  }

  lemma {:induction false} RowTotalFlat(data: seq<Byte>, w: nat, h: nat, hk: nat, x: nat, y: nat, c: nat,
                                        wt: Weights, v: int, ky: int, n: nat)
    requires IsImage(data, w, h) && Interior(w, h, hk, x, y) && c < 4 && FlatChannel(data, w, h, c, v)
    requires -(hk as int) <= ky <= hk && n <= 2 * hk + 1
    ensures RowTotal(data, w, h, hk, x, y, c, wt, ky, n) == v * RowWeight(wt, hk, ky, n)
  {
    if n > 0 {
      RowTotalFlat(data, w, h, hk, x, y, c, wt, v, ky, n - 1);
      Distrib(v, RowWeight(wt, hk, ky, n - 1), wt(n - 1 - hk, ky));
    }
  }

  lemma {:induction false} RowsTotalFlat(data: seq<Byte>, w: nat, h: nat, hk: nat, x: nat, y: nat, c: nat,
                                         wt: Weights, v: int, m: nat)
    requires IsImage(data, w, h) && Interior(w, h, hk, x, y) && c < 4 && FlatChannel(data, w, h, c, v)
    requires m <= 2 * hk + 1
    ensures RowsTotal(data, w, h, hk, x, y, c, wt, m) == v * RowsWeight(wt, hk, m)
  {
    if m > 0 {
      RowsTotalFlat(data, w, h, hk, x, y, c, wt, v, m - 1);
      RowTotalFlat(data, w, h, hk, x, y, c, wt, v, m - 1 - hk, 2 * hk + 1);
      Distrib(v, RowsWeight(wt, hk, m - 1), RowWeight(wt, hk, m - 1 - hk, 2 * hk + 1));
    }
  }

  /** On a flat channel of value v a weighted window sum is v times the sum of the weights. */
  lemma WindowTotalFlat(data: seq<Byte>, w: nat, h: nat, hk: nat, x: nat, y: nat, c: nat,
                        wt: Weights, v: int)
    requires IsImage(data, w, h) && Interior(w, h, hk, x, y) && c < 4 && FlatChannel(data, w, h, c, v)
    ensures WindowTotal(data, w, h, hk, x, y, c, wt) == v * WeightSum(wt, hk)
  {
    RowsTotalFlat(data, w, h, hk, x, y, c, wt, v, 2 * hk + 1);
  }

  lemma {:induction false} RowTotalSame(d1: seq<Byte>, d2: seq<Byte>, w: nat, h: nat, hk: nat, x: nat, y: nat,
                                        c: nat, wt: Weights, ky: int, n: nat)
    requires IsImage(d1, w, h) && IsImage(d2, w, h) && Interior(w, h, hk, x, y) && c < 4
    requires SameWindow(d1, d2, w, h, hk, x, y, c)
    requires -(hk as int) <= ky <= hk && n <= 2 * hk + 1
    ensures RowTotal(d1, w, h, hk, x, y, c, wt, ky, n) == RowTotal(d2, w, h, hk, x, y, c, wt, ky, n)
    ensures RowValues(d1, w, h, hk, x, y, c, ky, n) == RowValues(d2, w, h, hk, x, y, c, ky, n)
  {
    if n > 0 {
      RowTotalSame(d1, d2, w, h, hk, x, y, c, wt, ky, n - 1);
      var px: nat, py: nat := x + n - 1 - hk, y + ky;
      assert Sample(d1, w, h, px, py, c) == Sample(d2, w, h, px, py, c);
    }
  }

  lemma {:induction false} RowsTotalSame(d1: seq<Byte>, d2: seq<Byte>, w: nat, h: nat, hk: nat, x: nat, y: nat,
                                         c: nat, wt: Weights, m: nat)
    requires IsImage(d1, w, h) && IsImage(d2, w, h) && Interior(w, h, hk, x, y) && c < 4
    requires SameWindow(d1, d2, w, h, hk, x, y, c)
    requires m <= 2 * hk + 1
    ensures RowsTotal(d1, w, h, hk, x, y, c, wt, m) == RowsTotal(d2, w, h, hk, x, y, c, wt, m)
    ensures RowsValues(d1, w, h, hk, x, y, c, m) == RowsValues(d2, w, h, hk, x, y, c, m)
  {
    if m > 0 {
      RowsTotalSame(d1, d2, w, h, hk, x, y, c, wt, m - 1);
      RowTotalSame(d1, d2, w, h, hk, x, y, c, wt, m - 1 - hk, 2 * hk + 1);
    }
  }

  /** Channel `c` of a window sum or window list reads channel `c` of the input
      window and nothing else. */
  lemma WindowSame(d1: seq<Byte>, d2: seq<Byte>, w: nat, h: nat, hk: nat, x: nat, y: nat,
                   c: nat, wt: Weights)
    requires IsImage(d1, w, h) && IsImage(d2, w, h) && Interior(w, h, hk, x, y) && c < 4
    requires SameWindow(d1, d2, w, h, hk, x, y, c)
    ensures WindowTotal(d1, w, h, hk, x, y, c, wt) == WindowTotal(d2, w, h, hk, x, y, c, wt)
    ensures WindowValues(d1, w, h, hk, x, y, c) == WindowValues(d2, w, h, hk, x, y, c)
  {
    RowsTotalSame(d1, d2, w, h, hk, x, y, c, wt, 2 * hk + 1);
  }

  lemma {:induction false} RowTotalCentreOnly(data: seq<Byte>, w: nat, h: nat, hk: nat, x: nat, y: nat, c: nat,
                                              wt: Weights, ky: int, n: nat)
    requires IsImage(data, w, h) && Interior(w, h, hk, x, y) && c < 4
    requires forall kx, ky' :: (kx != 0 || ky' != 0) ==> wt(kx, ky') == 0
    requires -(hk as int) <= ky <= hk && n <= 2 * hk + 1
    ensures RowTotal(data, w, h, hk, x, y, c, wt, ky, n)
            == if ky == 0 && n > hk then wt(0, 0) * Sample(data, w, h, x, y, c) else 0
  {
    if n > 0 {
      RowTotalCentreOnly(data, w, h, hk, x, y, c, wt, ky, n - 1);
    }
  }

  lemma {:induction false} RowsTotalCentreOnly(data: seq<Byte>, w: nat, h: nat, hk: nat, x: nat, y: nat, c: nat,
                                               wt: Weights, m: nat)
    requires IsImage(data, w, h) && Interior(w, h, hk, x, y) && c < 4
    requires forall kx, ky :: (kx != 0 || ky != 0) ==> wt(kx, ky) == 0
    requires m <= 2 * hk + 1
    ensures RowsTotal(data, w, h, hk, x, y, c, wt, m)
            == if m > hk then wt(0, 0) * Sample(data, w, h, x, y, c) else 0
  {
    if m > 0 {
      RowsTotalCentreOnly(data, w, h, hk, x, y, c, wt, m - 1);
      RowTotalCentreOnly(data, w, h, hk, x, y, c, wt, m - 1 - hk, 2 * hk + 1);
    }
  }

  /** A weighting that is zero off the centre reads the centre pixel only. */
  lemma WindowTotalCentreOnly(data: seq<Byte>, w: nat, h: nat, hk: nat, x: nat, y: nat, c: nat, wt: Weights)
    requires IsImage(data, w, h) && Interior(w, h, hk, x, y) && c < 4
    requires forall kx, ky :: (kx != 0 || ky != 0) ==> wt(kx, ky) == 0
    ensures WindowTotal(data, w, h, hk, x, y, c, wt) == wt(0, 0) * Sample(data, w, h, x, y, c)
  {
    RowsTotalCentreOnly(data, w, h, hk, x, y, c, wt, 2 * hk + 1);
  }

  lemma {:induction false} RowWeightConstant(wt: Weights, hk: nat, v: int, ky: int, n: nat)
    requires forall kx, ky' :: wt(kx, ky') == v
    ensures RowWeight(wt, hk, ky, n) == v * n
  {
    if n > 0 {
      RowWeightConstant(wt, hk, v, ky, n - 1);
      MulSucc(n - 1, v);
    }
  }

  lemma {:induction false} RowsWeightConstant(wt: Weights, hk: nat, v: int, m: nat)
    requires forall kx, ky :: wt(kx, ky) == v
    ensures RowsWeight(wt, hk, m) == v * (2 * hk + 1) * m
  {
    if m > 0 {
      RowsWeightConstant(wt, hk, v, m - 1);
      RowWeightConstant(wt, hk, v, m - 1 - hk, 2 * hk + 1);
      MulSucc(m - 1, v * (2 * hk + 1));
    }
  }

  /** A constant weighting v sums to v times the window size (2hk + 1)^2. */
  lemma WeightSumConstant(wt: Weights, hk: nat, v: int)
    requires forall kx, ky :: wt(kx, ky) == v
    ensures WeightSum(wt, hk) == v * (2 * hk + 1) * (2 * hk + 1)
  {
    RowsWeightConstant(wt, hk, v, 2 * hk + 1);
  }

  /** A 3 x 3 window (hk = 1) written out term by term. */
  lemma WindowTotal3x3(data: seq<Byte>, w: nat, h: nat, x: nat, y: nat, c: nat, wt: Weights)
    requires IsImage(data, w, h) && Interior(w, h, 1, x, y) && c < 4
    ensures WindowTotal(data, w, h, 1, x, y, c, wt) ==
        wt(-1, -1) * Sample(data, w, h, x - 1, y - 1, c)
      + wt(0, -1) * Sample(data, w, h, x, y - 1, c)
      + wt(1, -1) * Sample(data, w, h, x + 1, y - 1, c)
      + wt(-1, 0) * Sample(data, w, h, x - 1, y, c)
      + wt(0, 0) * Sample(data, w, h, x, y, c)
      + wt(1, 0) * Sample(data, w, h, x + 1, y, c)
      + wt(-1, 1) * Sample(data, w, h, x - 1, y + 1, c)
      + wt(0, 1) * Sample(data, w, h, x, y + 1, c)
      + wt(1, 1) * Sample(data, w, h, x + 1, y + 1, c)
  {
    forall ky | -1 <= ky <= 1
      ensures RowTotal(data, w, h, 1, x, y, c, wt, ky, 3) ==
          wt(-1, ky) * Sample(data, w, h, x - 1, y + ky, c)
        + wt(0, ky) * Sample(data, w, h, x, y + ky, c)
        + wt(1, ky) * Sample(data, w, h, x + 1, y + ky, c)
    {
      assert RowTotal(data, w, h, 1, x, y, c, wt, ky, 1)
          == wt(-1, ky) * Sample(data, w, h, x - 1, y + ky, c);
      assert RowTotal(data, w, h, 1, x, y, c, wt, ky, 2)
          == RowTotal(data, w, h, 1, x, y, c, wt, ky, 1) + wt(0, ky) * Sample(data, w, h, x, y + ky, c);
    }
    assert RowsTotal(data, w, h, 1, x, y, c, wt, 1) == RowTotal(data, w, h, 1, x, y, c, wt, -1, 3);
    assert RowsTotal(data, w, h, 1, x, y, c, wt, 2)
        == RowsTotal(data, w, h, 1, x, y, c, wt, 1) + RowTotal(data, w, h, 1, x, y, c, wt, 0, 3);
  }

  /** The same written out for the weights alone. */
  lemma WeightSum3x3(wt: Weights)
    ensures WeightSum(wt, 1) ==
      wt(-1, -1) + wt(0, -1) + wt(1, -1) + wt(-1, 0) + wt(0, 0) + wt(1, 0) + wt(-1, 1) + wt(0, 1) + wt(1, 1)
  {
    forall ky | -1 <= ky <= 1
      ensures RowWeight(wt, 1, ky, 3) == wt(-1, ky) + wt(0, ky) + wt(1, ky)
    {
      assert RowWeight(wt, 1, ky, 1) == wt(-1, ky);
    }
    assert RowsWeight(wt, 1, 1) == RowWeight(wt, 1, -1, 3);
  }

  // ---------------------------------------------------------------------------
  // The inner ky / kx loops of the filters

  /** The kx loop of the summing filters: adds row `ky` of the window to the three totals. */
  method WeightedRow(data: seq<Byte>, w: nat, h: nat, hk: nat, x: nat, y: nat, wt: Weights, ky: int,
                     red0: int, green0: int, blue0: int)
    returns (totalRed: int, totalGreen: int, totalBlue: int)
    requires IsImage(data, w, h) && Interior(w, h, hk, x, y) && -(hk as int) <= ky <= hk
    ensures totalRed == red0 + RowTotal(data, w, h, hk, x, y, 0, wt, ky, 2 * hk + 1)
    ensures totalGreen == green0 + RowTotal(data, w, h, hk, x, y, 1, wt, ky, 2 * hk + 1)
    ensures totalBlue == blue0 + RowTotal(data, w, h, hk, x, y, 2, wt, ky, 2 * hk + 1)
  {
    totalRed, totalGreen, totalBlue := red0, green0, blue0;
    var kx: int := -(hk as int);
    while kx <= hk
      invariant -(hk as int) <= kx <= hk + 1
      invariant totalRed == red0 + RowTotal(data, w, h, hk, x, y, 0, wt, ky, kx + hk)
      invariant totalGreen == green0 + RowTotal(data, w, h, hk, x, y, 1, wt, ky, kx + hk)
      invariant totalBlue == blue0 + RowTotal(data, w, h, hk, x, y, 2, wt, ky, kx + hk)
    {
      IdxInBuffer(w, h, x + kx, y + ky, 2);
      var neighborPixelIndex := Idx(w, x + kx, y + ky, 0);
      totalRed := totalRed + wt(kx, ky) * data[neighborPixelIndex];
      totalGreen := totalGreen + wt(kx, ky) * data[neighborPixelIndex + 1];
      totalBlue := totalBlue + wt(kx, ky) * data[neighborPixelIndex + 2];
      kx := kx + 1;
    }
  }

  /** The running totals totalRed, totalGreen, totalBlue of the windowed sums. */
  method WeightedTotals(data: seq<Byte>, w: nat, h: nat, hk: nat, x: nat, y: nat, wt: Weights)
    returns (totalRed: int, totalGreen: int, totalBlue: int)
    requires IsImage(data, w, h) && Interior(w, h, hk, x, y)
    ensures totalRed == WindowTotal(data, w, h, hk, x, y, 0, wt)
    ensures totalGreen == WindowTotal(data, w, h, hk, x, y, 1, wt)
    ensures totalBlue == WindowTotal(data, w, h, hk, x, y, 2, wt)
  {
    totalRed, totalGreen, totalBlue := 0, 0, 0;
    var ky: int := -(hk as int);
    while ky <= hk
      invariant -(hk as int) <= ky <= hk + 1
      invariant totalRed == RowsTotal(data, w, h, hk, x, y, 0, wt, ky + hk)
      invariant totalGreen == RowsTotal(data, w, h, hk, x, y, 1, wt, ky + hk)
      invariant totalBlue == RowsTotal(data, w, h, hk, x, y, 2, wt, ky + hk)
    {
      totalRed, totalGreen, totalBlue := WeightedRow(data, w, h, hk, x, y, wt, ky, totalRed, totalGreen, totalBlue);
      ky := ky + 1;
    }
  }

  /** One more sample of row `ky`: the step of the inner kx loop. */
  lemma RowValuesStep(data: seq<Byte>, w: nat, h: nat, hk: nat, x: nat, y: nat, c: nat, ky: int, kx: int)
    requires IsImage(data, w, h) && Interior(w, h, hk, x, y) && c < 4
    requires -(hk as int) <= ky <= hk && -(hk as int) <= kx <= hk
    ensures RowValues(data, w, h, hk, x, y, c, ky, kx + hk + 1)
            == RowValues(data, w, h, hk, x, y, c, ky, kx + hk) + [Sample(data, w, h, x + kx, y + ky, c)]
  {
  }

  /** One more full row: the step of the outer ky loop. */
  lemma RowsValuesStep(data: seq<Byte>, w: nat, h: nat, hk: nat, x: nat, y: nat, c: nat, ky: int)
    requires IsImage(data, w, h) && Interior(w, h, hk, x, y) && c < 4
    requires -(hk as int) <= ky <= hk
    ensures RowsValues(data, w, h, hk, x, y, c, ky + hk + 1)
            == RowsValues(data, w, h, hk, x, y, c, ky + hk) + RowValues(data, w, h, hk, x, y, c, ky, 2 * hk + 1)
  {
  }

  /** The kx loop of the gathering filters: pushes row `ky` of the window onto the three lists. */
  method GatherRow(data: seq<Byte>, w: nat, h: nat, hk: nat, x: nat, y: nat, ky: int,
                   red0: seq<Byte>, green0: seq<Byte>, blue0: seq<Byte>)
    returns (redValues: seq<Byte>, greenValues: seq<Byte>, blueValues: seq<Byte>)
    requires IsImage(data, w, h) && Interior(w, h, hk, x, y) && -(hk as int) <= ky <= hk
    ensures redValues == red0 + RowValues(data, w, h, hk, x, y, 0, ky, 2 * hk + 1)
    ensures greenValues == green0 + RowValues(data, w, h, hk, x, y, 1, ky, 2 * hk + 1)
    ensures blueValues == blue0 + RowValues(data, w, h, hk, x, y, 2, ky, 2 * hk + 1)
  {
    redValues, greenValues, blueValues := red0, green0, blue0;
    var kx: int := -(hk as int);
    while kx <= hk
      invariant -(hk as int) <= kx <= hk + 1
      invariant redValues == red0 + RowValues(data, w, h, hk, x, y, 0, ky, kx + hk)
      invariant greenValues == green0 + RowValues(data, w, h, hk, x, y, 1, ky, kx + hk)
      invariant blueValues == blue0 + RowValues(data, w, h, hk, x, y, 2, ky, kx + hk)
    {
      IdxInBuffer(w, h, x + kx, y + ky, 2);
      var neighborPixelIndex := Idx(w, x + kx, y + ky, 0);
      redValues := redValues + [data[neighborPixelIndex]];
      greenValues := greenValues + [data[neighborPixelIndex + 1]];
      blueValues := blueValues + [data[neighborPixelIndex + 2]];
      RowValuesStep(data, w, h, hk, x, y, 0, ky, kx);
      RowValuesStep(data, w, h, hk, x, y, 1, ky, kx);
      RowValuesStep(data, w, h, hk, x, y, 2, ky, kx);
      kx := kx + 1;
    }
  }

  /** The lists redValues, greenValues, blueValues that the median and mode filters push. */
  method GatherWindow(data: seq<Byte>, w: nat, h: nat, hk: nat, x: nat, y: nat)
    returns (redValues: seq<Byte>, greenValues: seq<Byte>, blueValues: seq<Byte>)
    requires IsImage(data, w, h) && Interior(w, h, hk, x, y)
    ensures redValues == WindowValues(data, w, h, hk, x, y, 0)
    ensures greenValues == WindowValues(data, w, h, hk, x, y, 1)
    ensures blueValues == WindowValues(data, w, h, hk, x, y, 2)
  {
    redValues, greenValues, blueValues := [], [], [];
    var ky: int := -(hk as int);
    while ky <= hk
      invariant -(hk as int) <= ky <= hk + 1
      invariant redValues == RowsValues(data, w, h, hk, x, y, 0, ky + hk)
      invariant greenValues == RowsValues(data, w, h, hk, x, y, 1, ky + hk)
      invariant blueValues == RowsValues(data, w, h, hk, x, y, 2, ky + hk)
    {
      redValues, greenValues, blueValues := GatherRow(data, w, h, hk, x, y, ky, redValues, greenValues, blueValues);
      RowsValuesStep(data, w, h, hk, x, y, 0, ky);
      RowsValuesStep(data, w, h, hk, x, y, 1, ky);
      RowsValuesStep(data, w, h, hk, x, y, 2, ky);
      ky := ky + 1;
    }
  }
}
