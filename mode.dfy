/** The mode filter of the "Moda" page: each channel's window is replaced by its
    most frequent value, ties going to the value that occurs first. */
module Mode {
  import opened Raster
  import opened Window

  /** Number of occurrences of `v` in `s`. */
  function Count(s: seq<int>, v: int): nat
  {
    multiset(s)[v]
  }

  /** Position of the first occurrence of `v` in `s`. */
  function FirstIndex(s: seq<int>, v: int): (r: nat)
    requires v in s
    ensures r < |s| && s[r] == v
    ensures forall j :: 0 <= j < r ==> s[j] != v
  {
    if s[0] == v then 0 else 1 + FirstIndex(s[1..], v)
  }

  /** `m` is what getMode returns for `s`: an entry of `s` that no value outnumbers,
      and every entry met before its first occurrence is strictly rarer. */
  predicate IsMode(s: seq<int>, m: int)
  {
    m in s &&
    (forall v :: v in s ==> Count(s, v) <= Count(s, m)) &&
    (forall j :: 0 <= j < FirstIndex(s, m) ==> Count(s, s[j]) < Count(s, m))
  }

  /** Index of the first entry among s[..n] whose count in `s` is largest. */
  function ModeIndex(s: seq<int>, n: nat): (r: nat)
    requires 1 <= n <= |s|
    ensures r < n
  {
    if n == 1 then 0
    else
      var i := ModeIndex(s, n - 1);
      if Count(s, s[n - 1]) > Count(s, s[i]) then n - 1 else i
  }

  /** No entry of s[..n] is more frequent than the one ModeIndex picks, and every
      entry before it is strictly rarer. */
  lemma {:induction false} ModeIndexBest(s: seq<int>, n: nat)
    requires 1 <= n <= |s|
    ensures forall j :: 0 <= j < n ==> Count(s, s[j]) <= Count(s, s[ModeIndex(s, n)])
    ensures forall j :: 0 <= j < ModeIndex(s, n) ==> Count(s, s[j]) < Count(s, s[ModeIndex(s, n)])
  {
    if n > 1 {
      ModeIndexBest(s, n - 1);
    }
  }

  /** Reference definition of the mode of a non-empty list. */
  function ModeOf(s: seq<int>): int
    requires |s| > 0
  {
    s[ModeIndex(s, |s|)]
  }

  /** ModeOf meets the characterisation. */
  lemma ModeOfIsMode(s: seq<int>)
    requires |s| > 0
    ensures IsMode(s, ModeOf(s))
  {
    var r := ModeIndex(s, |s|);
    var m := s[r];
    ModeIndexBest(s, |s|);
    forall v | v in s ensures Count(s, v) <= Count(s, m) {
      var j :| 0 <= j < |s| && s[j] == v;
      assert Count(s, s[j]) <= Count(s, m);
    }
    assert FirstIndex(s, m) == r;
  }

  /** The characterisation pins the result down: at most one value meets it. */
  lemma IsModeUnique(s: seq<int>, m1: int, m2: int)
    requires IsMode(s, m1) && IsMode(s, m2)
    ensures m1 == m2
  {
    assert Count(s, m1) == Count(s, m2);
    assert FirstIndex(s, m1) == FirstIndex(s, m2);
  }

  /** A window holding one value throughout has that value as its mode. */
  lemma ModeOfConstant(s: seq<int>, v: int)
    requires |s| > 0 && forall e :: e in s ==> e == v
    ensures ModeOf(s) == v
  {
    assert s[ModeIndex(s, |s|)] in s;
  }

  lemma {:induction false} TwoCounts(s: seq<int>, a: int, b: int)
    requires a != b
    ensures Count(s, a) + Count(s, b) <= |s|
  {
    if s != [] {
      TwoCounts(s[1..], a, b);
      assert s == [s[0]] + s[1..];
      assert multiset(s) == multiset{s[0]} + multiset(s[1..]);
    }
  }

  /** A value filling more than half of the window is its mode. */
  lemma ModeOfMajority(s: seq<int>, v: int)
    requires |s| > 0 && 2 * Count(s, v) > |s|
    ensures ModeOf(s) == v
  {
    ModeOfIsMode(s);
    var m := ModeOf(s);
    assert v in multiset(s);
    if m != v {
      TwoCounts(s, m, v);
    }
  }

  lemma {:induction false} DistinctCountsOne(s: seq<int>, v: int)
    requires forall i, j :: 0 <= i < j < |s| ==> s[i] != s[j]
    requires v in s
    ensures Count(s, v) == 1
  {
    assert s == [s[0]] + s[1..];
    assert multiset(s) == multiset{s[0]} + multiset(s[1..]);
    if s[0] == v {
      assert v !in s[1..];
    } else {
      DistinctCountsOne(s[1..], v);
    }
  }

  /** When no value repeats, every count is one and the first entry wins. */
  lemma ModeOfDistinct(s: seq<int>)
    requires |s| > 0 && forall i, j :: 0 <= i < j < |s| ==> s[i] != s[j]
    ensures ModeOf(s) == s[0]
  {
    ModeOfIsMode(s);
    var m := ModeOf(s);
    DistinctCountsOne(s, m);
    DistinctCountsOne(s, s[0]);
  }

  lemma CountOfPrefix(s: seq<int>, i: nat, k: int)
    requires i < |s|
    ensures Count(s[..i + 1], k) == Count(s[..i], k) + (if k == s[i] then 1 else 0)
  {
    assert s[..i + 1] == s[..i] + [s[i]];
  }

  /** Invariant of the counting loop after the first i values: the map holds the
      count of every value seen so far, and `keys` lists its keys in order of
      first occurrence. */
  ghost predicate Counted(values: seq<int>, i: nat, countMap: map<int, nat>, keys: seq<int>)
    requires i <= |values|
  {
    (forall k :: k in countMap <==> k in values[..i]) &&
    (forall k :: k in countMap <==> k in keys) &&
    (forall k :: k in countMap ==> countMap[k] == Count(values[..i], k)) &&
    (forall k :: k in keys ==> k in values && FirstIndex(values, k) < i) &&
    (forall a, b :: 0 <= a < b < |keys| ==> FirstIndex(values, keys[a]) < FirstIndex(values, keys[b]))
  }

  /** A value met again: its count goes up by one, the keys stay. */
  lemma CountedAgain(values: seq<int>, i: nat, countMap: map<int, nat>, keys: seq<int>)
    requires i < |values| && Counted(values, i, countMap, keys) && values[i] in countMap
    ensures Counted(values, i + 1, countMap[values[i] := countMap[values[i]] + 1], keys)
  {
    assert values[..i + 1] == values[..i] + [values[i]];
    forall k ensures Count(values[..i + 1], k) == Count(values[..i], k) + (if k == values[i] then 1 else 0) {
      CountOfPrefix(values, i, k);
    }
  }

  /** A value met for the first time: it enters the map with count 1 and is
      appended to the keys. */
  lemma CountedNew(values: seq<int>, i: nat, countMap: map<int, nat>, keys: seq<int>)
    requires i < |values| && Counted(values, i, countMap, keys) && values[i] !in countMap
    ensures Counted(values, i + 1, countMap[values[i] := 1], keys + [values[i]])
  {
    var value := values[i];
    assert values[..i + 1] == values[..i] + [value];
    forall k ensures Count(values[..i + 1], k) == Count(values[..i], k) + (if k == value then 1 else 0) {
      CountOfPrefix(values, i, k);
    }
    assert FirstIndex(values, value) == i;
  }

  /** The counting loop of getMode: `countMap` maps every value of `values` to its
      number of occurrences; `keys` lists the map's keys in insertion order, that
      is, by first occurrence. */
  method CountOccurrences(values: seq<int>) returns (countMap: map<int, nat>, keys: seq<int>)
    ensures forall k :: k in countMap <==> k in values
    ensures forall k :: k in countMap <==> k in keys
    ensures forall k :: k in countMap ==> countMap[k] == Count(values, k)
    ensures forall a, b :: 0 <= a < b < |keys| ==> FirstIndex(values, keys[a]) < FirstIndex(values, keys[b])
  {
    countMap := map[];
    keys := [];
    for i := 0 to |values|
      invariant Counted(values, i, countMap, keys)
    {
      var value := values[i];
      if value in countMap {
        CountedAgain(values, i, countMap, keys);
        countMap := countMap[value := countMap[value] + 1];
      } else {
        CountedNew(values, i, countMap, keys);
        countMap := countMap[value := 1];
        keys := keys + [value];
      }
    }
    assert values[..|values|] == values;
  }

  /** The first key inserted is the first value. */
  lemma FirstKey(values: seq<int>, keys: seq<int>)
    requires |values| > 0 && forall k :: k in values <==> k in keys
    requires forall a, b :: 0 <= a < b < |keys| ==> FirstIndex(values, keys[a]) < FirstIndex(values, keys[b])
    ensures |keys| > 0 && keys[0] == values[0]
  {
    assert values[0] in values;
    var a :| 0 <= a < |keys| && keys[a] == values[0];
    assert FirstIndex(values, values[0]) == 0;
  }

  /** No value outnumbers the kept key. */
  lemma ScanMaximal(values: seq<int>, keys: seq<int>, mode: int)
    requires forall k :: k in values <==> k in keys
    requires forall jj :: 0 <= jj < |keys| ==> Count(values, keys[jj]) <= Count(values, mode)
    ensures forall v :: v in values ==> Count(values, v) <= Count(values, mode)
  {
    forall v | v in values ensures Count(values, v) <= Count(values, mode) {
      var jj :| 0 <= jj < |keys| && keys[jj] == v;
    }
  }

  /** Every value met before the kept key's first occurrence is strictly rarer. */
  lemma ScanFirst(values: seq<int>, keys: seq<int>, mode: int, modePos: nat)
    requires forall k :: k in values <==> k in keys
    requires forall a, b :: 0 <= a < b < |keys| ==> FirstIndex(values, keys[a]) < FirstIndex(values, keys[b])
    requires modePos < |keys| && keys[modePos] == mode
    requires forall jj :: 0 <= jj < modePos ==> Count(values, keys[jj]) < Count(values, mode)
    ensures mode in values
    ensures forall idx :: 0 <= idx < FirstIndex(values, mode) ==> Count(values, values[idx]) < Count(values, mode)
  {
    assert mode in keys;
    forall idx | 0 <= idx < FirstIndex(values, mode)
      ensures Count(values, values[idx]) < Count(values, mode)
    {
      var v := values[idx];
      assert v in keys;
      var jj :| 0 <= jj < |keys| && keys[jj] == v;
      assert FirstIndex(values, v) <= idx;
      assert jj < modePos;
    }
  }

  /** Scanning the keys in order of first occurrence and keeping the first key of
      largest count yields the mode. */
  lemma ScanFindsMode(values: seq<int>, keys: seq<int>, mode: int, modePos: nat)
    requires |values| > 0 && forall k :: k in values <==> k in keys
    requires forall a, b :: 0 <= a < b < |keys| ==> FirstIndex(values, keys[a]) < FirstIndex(values, keys[b])
    requires modePos < |keys| && keys[modePos] == mode
    requires forall jj :: 0 <= jj < |keys| ==> Count(values, keys[jj]) <= Count(values, mode)
    requires forall jj :: 0 <= jj < modePos ==> Count(values, keys[jj]) < Count(values, mode)
    ensures IsMode(values, mode) && mode == ModeOf(values)
  {
    ScanMaximal(values, keys, mode);
    ScanFirst(values, keys, mode, modePos);
    ModeOfIsMode(values);
    IsModeUnique(values, mode, ModeOf(values));
  }

  /** getMode: count every value into a Map, then scan its keys in insertion
      order from the first value on, replacing the candidate only on a strictly
      larger count. */
  method GetMode(values: seq<int>) returns (mode: int)
    requires |values| > 0
    ensures IsMode(values, mode)
    ensures mode == ModeOf(values)
  {
    var countMap, keys := CountOccurrences(values);
    FirstKey(values, keys);
    mode := values[0];
    var maxCount := countMap[mode];
    ghost var modePos := 0;
    for j := 0 to |keys|
      invariant modePos < |keys| && keys[modePos] == mode && maxCount == Count(values, mode)
      invariant forall jj :: 0 <= jj < j ==> Count(values, keys[jj]) <= maxCount
      invariant forall jj :: 0 <= jj < modePos ==> Count(values, keys[jj]) < maxCount
      invariant modePos <= j || modePos == 0
    {
      var value := keys[j];
      var count := countMap[value];
      if count > maxCount {
        mode := value;
        maxCount := count;
        modePos := j;
      }
    }
    ScanFindsMode(values, keys, mode, modePos);
  }

  /** The byte stored at channel c of an interior pixel: the mode of the window. */
  function ModeSample(data: seq<Byte>, w: nat, h: nat, hk: nat, x: nat, y: nat, c: nat): (r: Byte)
    requires IsImage(data, w, h) && Interior(w, h, hk, x, y) && c < 4
    ensures IsMode(WindowValues(data, w, h, hk, x, y, c), r)
  {
    var values := WindowValues(data, w, h, hk, x, y, c);
    WindowNotEmpty(data, w, h, hk, x, y, c);
    ModeOfIsMode(values);
    ModeOf(values)
  }

  /** A flat channel is returned unchanged, for any kernel size. */
  lemma ModeOfFlat(data: seq<Byte>, w: nat, h: nat, hk: nat, x: nat, y: nat, c: nat, v: Byte)
    requires IsImage(data, w, h) && Interior(w, h, hk, x, y) && c < 4 && FlatChannel(data, w, h, c, v)
    ensures ModeSample(data, w, h, hk, x, y, c) == v
  {
    WindowNotEmpty(data, w, h, hk, x, y, c);
    WindowValuesFlat(data, w, h, hk, x, y, c, v, 2 * hk + 1);
    ModeOfConstant(WindowValues(data, w, h, hk, x, y, c), v);
  }

  /** Channel c of the result depends on channel c of the input window only. */
  lemma ModeSampleLocal(d1: seq<Byte>, d2: seq<Byte>, w: nat, h: nat, hk: nat, x: nat, y: nat, c: nat)
    requires IsImage(d1, w, h) && IsImage(d2, w, h) && Interior(w, h, hk, x, y) && c < 4
    requires SameWindow(d1, d2, w, h, hk, x, y, c)
    ensures ModeSample(d1, w, h, hk, x, y, c) == ModeSample(d2, w, h, hk, x, y, c)
  {
    WindowSame(d1, d2, w, h, hk, x, y, c, (kx, ky) => 0);
  }

  /** An image with no interior pixel, or a flat-colour image, is returned unchanged. */
  lemma ModeFilterFixedPoints(data: seq<Byte>, output: seq<Byte>, w: nat, h: nat, hk: nat)
    requires IsImage(data, w, h) && IsImage(output, w, h)
    requires forall x: nat, y: nat, c: nat :: x < w && y < h && c < 4 ==>
      Sample(output, w, h, x, y, c) ==
        if c < 3 && Interior(w, h, hk, x, y)
        then ModeSample(data, w, h, hk, x, y, c)
        else Sample(data, w, h, x, y, c)
    ensures 2 * hk >= w || 2 * hk >= h ==> output == data
    ensures Uniform(data, w, h) ==> output == data
  {
    if 2 * hk >= w || 2 * hk >= h || Uniform(data, w, h) {
      forall x: nat, y: nat, c: nat | x < w && y < h && c < 4
        ensures Sample(output, w, h, x, y, c) == Sample(data, w, h, x, y, c)
      {
        if c < 3 && Interior(w, h, hk, x, y) {
          ModeOfFlat(data, w, h, hk, x, y, c, Sample(data, w, h, 0, 0, c));
        }
      }
      SameAtEveryPixel(output, data, w, h);
    }
  }

  /** The body of the pixel loop: gather the three channel windows and take the
      mode of each. */
  method WindowModes(data: seq<Byte>, width: nat, height: nat, halfKernelSize: nat, x: nat, y: nat)
    returns (modeRed: Byte, modeGreen: Byte, modeBlue: Byte)
    requires IsImage(data, width, height) && Interior(width, height, halfKernelSize, x, y)
    ensures modeRed == ModeSample(data, width, height, halfKernelSize, x, y, 0)
    ensures modeGreen == ModeSample(data, width, height, halfKernelSize, x, y, 1)
    ensures modeBlue == ModeSample(data, width, height, halfKernelSize, x, y, 2)
  {
    var redValues, greenValues, blueValues := GatherWindow(data, width, height, halfKernelSize, x, y);
    WindowNotEmpty(data, width, height, halfKernelSize, x, y, 0);
    WindowNotEmpty(data, width, height, halfKernelSize, x, y, 1);
    WindowNotEmpty(data, width, height, halfKernelSize, x, y, 2);
    modeRed := GetMode(redValues);
    modeGreen := GetMode(greenValues);
    modeBlue := GetMode(blueValues);
  }

  /** The image the filter produces: ModeSample at the RGB samples of interior
      pixels, the input everywhere else. */
  lemma ModeTarget(data: seq<Byte>, w: nat, h: nat, hk: nat) returns (target: seq<Byte>)
    requires IsImage(data, w, h)
    ensures IsImage(target, w, h) && SameOffInterior(target, data, w, h, hk)
    ensures forall x: nat, y: nat, c: nat {:trigger ModeSample(data, w, h, hk, x, y, c)} ::
      x < w && y < h && c < 3 && Interior(w, h, hk, x, y) ==>
        Sample(target, w, h, x, y, c) == ModeSample(data, w, h, hk, x, y, c)
  {
    target := ImageFrom(w, h, (x: nat, y: nat, c: nat) =>
      if x < w && y < h && c < 4 then
        if c < 3 && Interior(w, h, hk, x, y) then ModeSample(data, w, h, hk, x, y, c) else Sample(data, w, h, x, y, c)
      else 0);
  }

  /** The x loop over row y: every interior pixel of the row gets its three modes. */
  method ModeRow(data: seq<Byte>, outputData: array<Byte>, width: nat, height: nat, halfKernelSize: nat, y: nat,
                 ghost target: seq<Byte>)
    requires IsImage(data, width, height) && IsImage(target, width, height) && outputData.Length == |data|
    requires halfKernelSize <= y && y + halfKernelSize < height
    requires forall x: nat, y: nat, c: nat {:trigger ModeSample(data, width, height, halfKernelSize, x, y, c)} ::
      x < width && y < height && c < 3 && Interior(width, height, halfKernelSize, x, y) ==>
        Sample(target, width, height, x, y, c) == ModeSample(data, width, height, halfKernelSize, x, y, c)
    modifies outputData
    ensures RowDone(outputData[..], old(outputData[..]), target, width, height, halfKernelSize, y, width)
  {
    var x := halfKernelSize;
    RowStart(outputData[..], target, width, height, halfKernelSize, y);
    while x < width - halfKernelSize
      invariant halfKernelSize <= x
      invariant RowDone(outputData[..], old(outputData[..]), target, width, height, halfKernelSize, y, x)
    {
      var modeRed, modeGreen, modeBlue := WindowModes(data, width, height, halfKernelSize, x, y);
      ghost var before := outputData[..];
      StoreRGB(outputData, width, height, x, y, modeRed, modeGreen, modeBlue);
      RowStep(before, outputData[..], old(outputData[..]), target, width, height, halfKernelSize, x, y,
              modeRed, modeGreen, modeBlue);
      x := x + 1;
    }
    RowEnd(outputData[..], old(outputData[..]), target, width, height, halfKernelSize, y, x);
  }

  /** applyModeFilter. */
  method ApplyModeFilter(data: seq<Byte>, width: nat, height: nat, kernelSize: nat)
    returns (output: seq<Byte>)
    requires IsImage(data, width, height)
    ensures IsImage(output, width, height)
    ensures forall x: nat, y: nat, c: nat :: x < width && y < height && c < 4 ==>
      Sample(output, width, height, x, y, c) ==
        if c < 3 && Interior(width, height, kernelSize / 2, x, y)
        then ModeSample(data, width, height, kernelSize / 2, x, y, c)
        else Sample(data, width, height, x, y, c)
    ensures 2 * (kernelSize / 2) >= width || 2 * (kernelSize / 2) >= height ==> output == data
    ensures Uniform(data, width, height) ==> output == data
  {
    var outputData := new Byte[|data|](i requires 0 <= i < |data| => data[i]);
    assert outputData[..] == data;
    var halfKernelSize := kernelSize / 2;
    ghost var target := ModeTarget(data, width, height, halfKernelSize);
    var y := halfKernelSize;
    RowsStart(data, target, width, height, halfKernelSize);
    while y < height - halfKernelSize
      invariant halfKernelSize <= y
      invariant RowsDone(outputData[..], target, data, width, height, y)
    {
      ghost var before := outputData[..];
      ModeRow(data, outputData, width, height, halfKernelSize, y, target);
      RowsStep(before, outputData[..], target, data, width, height, halfKernelSize, y);
      y := y + 1;
    }
    output := outputData[..];
    RowsEnd(output, target, data, width, height, halfKernelSize, y);
    ModeFilterFixedPoints(data, output, width, height, halfKernelSize);
  }
}
