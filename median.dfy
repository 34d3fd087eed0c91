/** The median filter of the "Mediana" page: each channel's window is sorted
    ascending on its own and the element at floor(n * 0.5) is kept. */
module Median {
  import opened Raster
  import opened Window

  predicate Sorted(s: seq<int>)
  {
    forall i, j :: 0 <= i < j < |s| ==> s[i] <= s[j]
  }

  /** Inserts `v` in front of the first entry of `s` that is not smaller. */
  function Insert(v: int, s: seq<int>): (r: seq<int>)
    ensures |r| == |s| + 1
  {
    if s == [] then [v]
    else if v <= s[0] then [v] + s
    else [s[0]] + Insert(v, s[1..])
  }

  /** Insert adds exactly `v`. */
  lemma {:induction false} InsertMultiset(v: int, s: seq<int>)
    ensures multiset(Insert(v, s)) == multiset(s) + multiset{v}
  {
    if s != [] {
      assert s == [s[0]] + s[1..];
      if v > s[0] {
        InsertMultiset(v, s[1..]);
        calc {
          multiset(Insert(v, s));
          multiset([s[0]] + Insert(v, s[1..]));
          multiset{s[0]} + multiset(Insert(v, s[1..]));
          multiset{s[0]} + multiset(s[1..]) + multiset{v};
        }
      }
    }
  }

  /** A lower bound of `v` and of every entry of `s` bounds every entry of the insertion. */
  lemma {:induction false} InsertAbove(v: int, s: seq<int>, lo: int)
    requires lo <= v && forall i :: 0 <= i < |s| ==> lo <= s[i]
    ensures forall i :: 0 <= i < |Insert(v, s)| ==> lo <= Insert(v, s)[i]
  {
    if s != [] && v > s[0] {
      InsertAbove(v, s[1..], lo);
    }
  }

  /** Insert keeps an ascending list ascending. */
  lemma {:induction false} InsertSorted(v: int, s: seq<int>)
    requires Sorted(s)
    ensures Sorted(Insert(v, s))
  {
    if s != [] && v > s[0] {
      InsertSorted(v, s[1..]);
      InsertAbove(v, s[1..], s[0]);
    }
  }

  /** The ascending sort of Array.prototype.sort with comparator (a, b) => a - b,
      as insertion sort. */
  function SortAscending(s: seq<int>): (r: seq<int>)
    ensures |r| == |s|
  {
    if s == [] then [] else Insert(s[0], SortAscending(s[1..]))
  }

  /** The sort returns an ascending permutation of its input. */
  lemma {:induction false} SortFacts(s: seq<int>)
    ensures Sorted(SortAscending(s)) && multiset(SortAscending(s)) == multiset(s)
  {
    if s != [] {
      SortFacts(s[1..]);
      InsertMultiset(s[0], SortAscending(s[1..]));
      InsertSorted(s[0], SortAscending(s[1..]));
      assert s == [s[0]] + s[1..];
    }
  }

  lemma TailMultiset(s: seq<int>)
    requires |s| > 0
    ensures multiset(s[1..]) == multiset(s) - multiset{s[0]}
  {
    assert s == [s[0]] + s[1..];
  }

  lemma SortedTail(s: seq<int>)
    requires Sorted(s) && |s| > 0
    ensures Sorted(s[1..])
  {
  }

  lemma SameHeadAndTail(s: seq<int>, t: seq<int>)
    requires |s| == |t| > 0 && s[0] == t[0] && s[1..] == t[1..]
    ensures s == t
  {
    assert s == [s[0]] + s[1..] && t == [t[0]] + t[1..];
  }

  /** Two ascending lists with the same elements start with the same (least) element. */
  lemma SameHead(s: seq<int>, t: seq<int>)
    requires Sorted(s) && Sorted(t) && multiset(s) == multiset(t) && |s| > 0
    ensures |t| == |s| && s[0] == t[0]
  {
    assert |multiset(t)| == |multiset(s)|;
    assert s[0] in multiset(t);
    assert t[0] in multiset(s);
    var i :| 0 <= i < |s| && s[i] == t[0];
    var j :| 0 <= j < |t| && t[j] == s[0];
    assert s[0] <= s[i] && t[0] <= t[j];
  }

  /** Two ascending lists with the same elements are the same list. */
  lemma {:induction false} SortedUnique(s: seq<int>, t: seq<int>)
    requires Sorted(s) && Sorted(t) && multiset(s) == multiset(t)
    ensures s == t
  {
    if s != [] {
      SameHead(s, t);
      TailMultiset(s);
      TailMultiset(t);
      SortedTail(s);
      SortedTail(t);
      SortedUnique(s[1..], t[1..]);
      SameHeadAndTail(s, t);
    } else {
      assert |multiset(t)| == 0;
    }
  }

  /** Number of entries of `s` that are at most `v`. */
  function CountAtMost(s: seq<int>, v: int): nat
  {
    if s == [] then 0 else (if s[0] <= v then 1 else 0) + CountAtMost(s[1..], v)
  }

  /** Number of entries of `s` that are at least `v`. */
  function CountAtLeast(s: seq<int>, v: int): nat
  {
    if s == [] then 0 else (if s[0] >= v then 1 else 0) + CountAtLeast(s[1..], v)
  }

  lemma {:induction false} CountsOfInsert(e: int, t: seq<int>, v: int)
    ensures CountAtMost(Insert(e, t), v) == CountAtMost(t, v) + (if e <= v then 1 else 0)
    ensures CountAtLeast(Insert(e, t), v) == CountAtLeast(t, v) + (if e >= v then 1 else 0)
  {
    if t != [] && e > t[0] {
      CountsOfInsert(e, t[1..], v);
      var r := Insert(e, t);
      assert r[1..] == Insert(e, t[1..]);
    } else if t != [] {
      var r := Insert(e, t);
      assert r[1..] == t;
    }
  }

  /** Sorting keeps the number of entries below and above any value. */
  lemma {:induction false} CountsOfSort(s: seq<int>, v: int)
    ensures CountAtMost(SortAscending(s), v) == CountAtMost(s, v)
    ensures CountAtLeast(SortAscending(s), v) == CountAtLeast(s, v)
  {
    if s != [] {
      CountsOfSort(s[1..], v);
      CountsOfInsert(s[0], SortAscending(s[1..]), v);
    }
  }

  lemma {:induction false} CountAtMostPrefix(t: seq<int>, v: int, k: nat)
    requires k <= |t| && forall j :: 0 <= j < k ==> t[j] <= v
    ensures CountAtMost(t, v) >= k
  {
    if k > 0 {
      CountAtMostPrefix(t[1..], v, k - 1);
    }
  }

  lemma {:induction false} CountAtLeastSuffix(t: seq<int>, v: int, k: nat)
    requires k <= |t| && forall j :: k <= j < |t| ==> t[j] >= v
    ensures CountAtLeast(t, v) >= |t| - k
  {
    if t != [] {
      if k == 0 {
        CountAtLeastSuffix(t[1..], v, 0);
      } else {
        CountAtLeastSuffix(t[1..], v, k - 1);
      }
    }
  }

  /** In an ascending list, entry m has at least m + 1 entries at most it and
      at least |t| - m entries at least it. */
  lemma RankInSorted(t: seq<int>, m: nat)
    requires Sorted(t) && m < |t|
    ensures CountAtMost(t, t[m]) >= m + 1 && CountAtLeast(t, t[m]) >= |t| - m
  {
    CountAtMostPrefix(t, t[m], m + 1);
    CountAtLeastSuffix(t, t[m], m);
  }

  /** The value the filter keeps: the entry at floor(n * 0.5) of the sorted list,
      which is one of the window's values. */
  function MedianOf(values: seq<int>): (r: int)
    requires |values| > 0
    ensures r in values
  {
    SortFacts(values);
    assert SortAscending(values)[|values| / 2] in multiset(SortAscending(values));
    SortAscending(values)[|values| / 2]
  }

  /** The kept value is an entry of the window; at least floor(n/2) + 1 entries
      are at most it and at least n - floor(n/2) entries are at least it, so it
      lies between the window's minimum and maximum. */
  lemma MedianRank(values: seq<int>)
    requires |values| > 0
    ensures MedianOf(values) in values
    ensures CountAtMost(values, MedianOf(values)) >= |values| / 2 + 1
    ensures CountAtLeast(values, MedianOf(values)) >= |values| - |values| / 2
  {
    var t := SortAscending(values);
    var m := |values| / 2;
    SortFacts(values);
    assert t[m] in multiset(t);
    RankInSorted(t, m);
    CountsOfSort(values, t[m]);
  }

  /** The kept value depends only on the multiset of window values, not on the
      order they were pushed in. */
  lemma MedianOrderFree(s: seq<int>, t: seq<int>)
    requires |s| > 0 && multiset(s) == multiset(t)
    ensures |t| == |s| && MedianOf(s) == MedianOf(t)
  {
    assert |multiset(t)| == |multiset(s)|;
    SortFacts(s);
    SortFacts(t);
    SortedUnique(SortAscending(s), SortAscending(t));
  }

  /** A window of equal values keeps that value. */
  lemma MedianOfConstant(values: seq<int>, v: int)
    requires |values| > 0 && forall e :: e in values ==> e == v
    ensures MedianOf(values) == v
  {
    MedianRank(values);
  }

  /** The byte stored at channel c of an interior pixel: a median of the window,
      that is one of its samples with more than half of the window at most it and
      at least half of the window at least it. */
  function MedianSample(data: seq<Byte>, w: nat, h: nat, hk: nat, x: nat, y: nat, c: nat): (r: Byte)
    requires IsImage(data, w, h) && Interior(w, h, hk, x, y) && c < 4
    ensures r in WindowValues(data, w, h, hk, x, y, c)
    ensures CountAtMost(WindowValues(data, w, h, hk, x, y, c), r) >= (2 * hk + 1) * (2 * hk + 1) / 2 + 1
    ensures CountAtLeast(WindowValues(data, w, h, hk, x, y, c), r)
              >= (2 * hk + 1) * (2 * hk + 1) - (2 * hk + 1) * (2 * hk + 1) / 2
  {
    var values := WindowValues(data, w, h, hk, x, y, c);
    WindowNotEmpty(data, w, h, hk, x, y, c);
    WindowValuesAt(data, w, h, hk, x, y, c, 0, 0);
    MedianRank(values);
    MedianOf(values)
  }

  /** The entry the loop body picks from a gathered window is MedianSample. */
  lemma PickMedian(values: seq<Byte>, data: seq<Byte>, w: nat, h: nat, hk: nat, x: nat, y: nat, c: nat)
    requires IsImage(data, w, h) && Interior(w, h, hk, x, y) && c < 4
    requires values == WindowValues(data, w, h, hk, x, y, c)
    ensures |SortAscending(values)| > 0
    ensures SortAscending(values)[|SortAscending(values)| / 2] == MedianSample(data, w, h, hk, x, y, c)
  {
    WindowNotEmpty(data, w, h, hk, x, y, c);
  }

  /** A flat channel is returned unchanged, for any kernel size. */
  lemma MedianOfFlat(data: seq<Byte>, w: nat, h: nat, hk: nat, x: nat, y: nat, c: nat, v: Byte)
    requires IsImage(data, w, h) && Interior(w, h, hk, x, y) && c < 4 && FlatChannel(data, w, h, c, v)
    ensures MedianSample(data, w, h, hk, x, y, c) == v
  {
    WindowNotEmpty(data, w, h, hk, x, y, c);
    WindowValuesFlat(data, w, h, hk, x, y, c, v, 2 * hk + 1);
    MedianOfConstant(WindowValues(data, w, h, hk, x, y, c), v);
  }

  /** Channel c of the result depends on channel c of the input window only. */
  lemma MedianSampleLocal(d1: seq<Byte>, d2: seq<Byte>, w: nat, h: nat, hk: nat, x: nat, y: nat, c: nat)
    requires IsImage(d1, w, h) && IsImage(d2, w, h) && Interior(w, h, hk, x, y) && c < 4
    requires SameWindow(d1, d2, w, h, hk, x, y, c)
    ensures MedianSample(d1, w, h, hk, x, y, c) == MedianSample(d2, w, h, hk, x, y, c)
  {
    WindowSame(d1, d2, w, h, hk, x, y, c, (kx, ky) => 0);
  }

  /** An image with no interior pixel, or a flat-colour image, is returned unchanged. */
  lemma MedianFilterFixedPoints(data: seq<Byte>, output: seq<Byte>, w: nat, h: nat, hk: nat)
    requires IsImage(data, w, h) && IsImage(output, w, h)
    requires forall x: nat, y: nat, c: nat :: x < w && y < h && c < 4 ==>
      Sample(output, w, h, x, y, c) ==
        if c < 3 && Interior(w, h, hk, x, y)
        then MedianSample(data, w, h, hk, x, y, c)
        else Sample(data, w, h, x, y, c)
    ensures 2 * hk >= w || 2 * hk >= h ==> output == data
    ensures Uniform(data, w, h) ==> output == data
  {
    if 2 * hk >= w || 2 * hk >= h || Uniform(data, w, h) {
      forall x: nat, y: nat, c: nat | x < w && y < h && c < 4
        ensures Sample(output, w, h, x, y, c) == Sample(data, w, h, x, y, c)
      {
        if c < 3 && Interior(w, h, hk, x, y) {
          MedianOfFlat(data, w, h, hk, x, y, c, Sample(data, w, h, 0, 0, c));
        }
      }
      SameAtEveryPixel(output, data, w, h);
    }
  }

  /** The body of the pixel loop: gather the three channel windows, sort each
      ascending and take the entry at floor(n * 0.5). */
  method WindowMedians(data: seq<Byte>, width: nat, height: nat, halfKernelSize: nat, x: nat, y: nat)
    returns (medianRed: Byte, medianGreen: Byte, medianBlue: Byte)
    requires IsImage(data, width, height) && Interior(width, height, halfKernelSize, x, y)
    ensures medianRed == MedianSample(data, width, height, halfKernelSize, x, y, 0)
    ensures medianGreen == MedianSample(data, width, height, halfKernelSize, x, y, 1)
    ensures medianBlue == MedianSample(data, width, height, halfKernelSize, x, y, 2)
  {
    var redValues, greenValues, blueValues := GatherWindow(data, width, height, halfKernelSize, x, y);
    PickMedian(redValues, data, width, height, halfKernelSize, x, y, 0);
    PickMedian(greenValues, data, width, height, halfKernelSize, x, y, 1);
    PickMedian(blueValues, data, width, height, halfKernelSize, x, y, 2);
    var sortedRed := SortAscending(redValues);
    var sortedGreen := SortAscending(greenValues);
    var sortedBlue := SortAscending(blueValues);
    medianRed := sortedRed[|sortedRed| / 2];
    medianGreen := sortedGreen[|sortedGreen| / 2];
    medianBlue := sortedBlue[|sortedBlue| / 2];
  }

  /** The image the filter produces: MedianSample at the RGB samples of interior
      pixels, the input everywhere else. */
  lemma MedianTarget(data: seq<Byte>, w: nat, h: nat, hk: nat) returns (target: seq<Byte>)
    requires IsImage(data, w, h)
    ensures IsImage(target, w, h) && SameOffInterior(target, data, w, h, hk)
    ensures forall x: nat, y: nat, c: nat {:trigger MedianSample(data, w, h, hk, x, y, c)} ::
      x < w && y < h && c < 3 && Interior(w, h, hk, x, y) ==>
        Sample(target, w, h, x, y, c) == MedianSample(data, w, h, hk, x, y, c)
  {
    target := ImageFrom(w, h, (x: nat, y: nat, c: nat) =>
      if x < w && y < h && c < 4 then
        if c < 3 && Interior(w, h, hk, x, y) then MedianSample(data, w, h, hk, x, y, c) else Sample(data, w, h, x, y, c)
      else 0);
  }

  /** The x loop over row y: every interior pixel of the row gets its three medians. */
  method MedianRow(data: seq<Byte>, outputData: array<Byte>, width: nat, height: nat, halfKernelSize: nat, y: nat,
                   ghost target: seq<Byte>)
    requires IsImage(data, width, height) && IsImage(target, width, height) && outputData.Length == |data|
    requires halfKernelSize <= y && y + halfKernelSize < height
    requires forall x: nat, y: nat, c: nat {:trigger MedianSample(data, width, height, halfKernelSize, x, y, c)} ::
      x < width && y < height && c < 3 && Interior(width, height, halfKernelSize, x, y) ==>
        Sample(target, width, height, x, y, c) == MedianSample(data, width, height, halfKernelSize, x, y, c)
    modifies outputData
    ensures RowDone(outputData[..], old(outputData[..]), target, width, height, halfKernelSize, y, width)
  {
    var x := halfKernelSize;
    RowStart(outputData[..], target, width, height, halfKernelSize, y);
    while x < width - halfKernelSize
      invariant halfKernelSize <= x
      invariant RowDone(outputData[..], old(outputData[..]), target, width, height, halfKernelSize, y, x)
    {
      var medianRed, medianGreen, medianBlue := WindowMedians(data, width, height, halfKernelSize, x, y);
      ghost var before := outputData[..];
      StoreRGB(outputData, width, height, x, y, medianRed, medianGreen, medianBlue);
      RowStep(before, outputData[..], old(outputData[..]), target, width, height, halfKernelSize, x, y,
              medianRed, medianGreen, medianBlue);
      x := x + 1;
    }
    RowEnd(outputData[..], old(outputData[..]), target, width, height, halfKernelSize, y, x);
  }

  /** applyMedianFilter. */
  method ApplyMedianFilter(data: seq<Byte>, width: nat, height: nat, kernelSize: nat)
    returns (output: seq<Byte>)
    requires IsImage(data, width, height)
    ensures IsImage(output, width, height)
    ensures forall x: nat, y: nat, c: nat :: x < width && y < height && c < 4 ==>
      Sample(output, width, height, x, y, c) ==
        if c < 3 && Interior(width, height, kernelSize / 2, x, y)
        then MedianSample(data, width, height, kernelSize / 2, x, y, c)
        else Sample(data, width, height, x, y, c)
    ensures 2 * (kernelSize / 2) >= width || 2 * (kernelSize / 2) >= height ==> output == data
    ensures Uniform(data, width, height) ==> output == data
  {
    var outputData := new Byte[|data|](i requires 0 <= i < |data| => data[i]);
    assert outputData[..] == data;
    var halfKernelSize := kernelSize / 2;
    ghost var target := MedianTarget(data, width, height, halfKernelSize);
    var y := halfKernelSize;
    RowsStart(data, target, width, height, halfKernelSize);
    while y < height - halfKernelSize
      invariant halfKernelSize <= y
      invariant RowsDone(outputData[..], target, data, width, height, y)
    {
      ghost var before := outputData[..];
      MedianRow(data, outputData, width, height, halfKernelSize, y, target);
      RowsStep(before, outputData[..], target, data, width, height, halfKernelSize, y);
      y := y + 1;
    }
    output := outputData[..];
    RowsEnd(output, target, data, width, height, halfKernelSize, y);
    MedianFilterFixedPoints(data, output, width, height, halfKernelSize);
  }
}
