/*
 * The median-filter extension (and its older revision, the same algorithm):
 * a partial selection sort, the median of a window read off the sorted
 * prefix, and the filter that writes each interior colour byte as the
 * median of the same channel over a size x size window into a fresh
 * zero-filled buffer.
 *
 * Ranks are stated without a reference sort: value v has rank r in a
 * multiset m when fewer than r + 1 elements are below v and more than r are
 * at most v.
 */
module MedianFilter {
  import opened Core
  import opened Errors
  import opened Raster
  import opened Window
  import opened Spatial

  // ------------------------------------------------------------ ranks

  /** The number of elements of m below v. */
  function Below(m: multiset<Byte>, v: int): (n: nat)
    requires 0 <= v <= 256
  {
    if v == 0 then 0 else Below(m, v - 1) + m[(v - 1) as Byte]
  }

  /** v is an element of rank r (counting from 0) of m. */
  predicate IsRank(m: multiset<Byte>, r: int, v: Byte)
  {
    Below(m, v) <= r < Below(m, v as int + 1)
  }

  lemma {:induction false} BelowAdd(m1: multiset<Byte>, m2: multiset<Byte>, v: int)
    requires 0 <= v <= 256
    ensures Below(m1 + m2, v) == Below(m1, v) + Below(m2, v)
  {
    if v > 0 {
      BelowAdd(m1, m2, v - 1);
    }
  }

  lemma {:induction false} BelowSingleton(x: Byte, v: int)
    requires 0 <= v <= 256
    ensures Below(multiset{x}, v) == if x < v then 1 else 0
  {
    if v > 0 {
      BelowSingleton(x, v - 1);
    }
  }

  lemma {:induction false} BelowMonotone(m: multiset<Byte>, a: int, b: int)
    requires 0 <= a <= b <= 256
    ensures Below(m, a) <= Below(m, b)
    decreases b - a
  {
    if a < b {
      BelowMonotone(m, a, b - 1);
    }
  }

  /**
   * Counting the elements of a sequence below v: never more than its length,
   * all of them when every element is below v, none when none is.
   */
  lemma {:induction false} BelowSeq(t: seq<Byte>, v: int)
    requires 0 <= v <= 256
    ensures Below(multiset(t), v) <= |t|
    ensures (forall i :: 0 <= i < |t| ==> t[i] < v) ==> Below(multiset(t), v) == |t|
    ensures (forall i :: 0 <= i < |t| ==> t[i] >= v) ==> Below(multiset(t), v) == 0
    decreases |t|
  {
    if |t| == 0 {
      BelowZero(v);
    } else {
      var n := |t| - 1;
      assert t == t[..n] + [t[n]];
      assert multiset(t) == multiset(t[..n]) + multiset{t[n]};
      BelowSeq(t[..n], v);
      BelowAdd(multiset(t[..n]), multiset{t[n]}, v);
      BelowSingleton(t[n], v);
    }
  }

  lemma {:induction false} BelowZero(v: int)
    requires 0 <= v <= 256
    ensures Below(multiset{}, v) == 0
  {
    if v > 0 {
      BelowZero(v - 1);
    }
  }

  /** Every element of a byte sequence is below 256. */
  lemma BelowAll(t: seq<Byte>)
    ensures Below(multiset(t), 256) == |t|
  {
    BelowSeq(t, 256);
  }

  /** At most one value has a given rank. */
  lemma RankUnique(m: multiset<Byte>, r: int, v: Byte, w: Byte)
    requires IsRank(m, r, v) && IsRank(m, r, w)
    ensures v == w
  {
    if v < w {
      BelowMonotone(m, v as int + 1, w as int);
    } else if w < v {
      BelowMonotone(m, w as int + 1, v as int);
    }
  }

  /** An element of rank r is an element. */
  lemma RankMember(m: multiset<Byte>, r: int, v: Byte)
    requires IsRank(m, r, v)
    ensures v in m
  {
    assert Below(m, v as int + 1) == Below(m, v) + m[v];
  }

  /** The first value from v upwards whose count of elements at most it passes r. */
  function RankFrom(m: multiset<Byte>, r: int, v: int): Byte
    requires 0 <= v <= 255
    decreases 255 - v
  {
    if v == 255 || Below(m, v + 1) > r then v as Byte else RankFrom(m, r, v + 1)
  }

  /** The element of rank r of m. */
  function RankValue(m: multiset<Byte>, r: int): Byte
  {
    RankFrom(m, r, 0)
  }

  lemma {:induction false} RankFromIsRank(m: multiset<Byte>, r: int, v: int)
    requires 0 <= v <= 255 && Below(m, v) <= r < Below(m, 256)
    ensures IsRank(m, r, RankFrom(m, r, v))
    decreases 255 - v
  {
    if v < 255 && Below(m, v + 1) <= r {
      RankFromIsRank(m, r, v + 1);
    }
  }

  /** RankValue finds the element of rank r of every multiset with more than r elements... */
  lemma RankValueIsRank(t: seq<Byte>, r: int)
    requires 0 <= r < |t|
    ensures IsRank(multiset(t), r, RankValue(multiset(t), r))
  {
    BelowAll(t);
    RankFromIsRank(multiset(t), r, 0);
  }

  /** ... and it is the only value of that rank. */
  lemma RankValueOf(t: seq<Byte>, r: int, v: Byte)
    requires IsRank(multiset(t), r, v)
    ensures RankValue(multiset(t), r) == v
  {
    BelowAll(t);
    BelowMonotone(multiset(t), v as int + 1, 256);
    RankValueIsRank(t, r);
    RankUnique(multiset(t), r, v, RankValue(multiset(t), r));
  }

  // ------------------------------------------------------------ sort

  /** Slots 0..k hold ascending values, each at most every later one. */
  predicate SortedThrough(t: seq<Byte>, k: int)
  {
    forall a, b :: 0 <= a < b < |t| && a <= k ==> t[a] <= t[b]
  }

  /** The last slot `sort` fixes: valuesNeeded, or the whole list when it is 0. */
  function SortLimit(n: int, valuesNeeded: int): int
  {
    if valuesNeeded == 0 then n - 1 else valuesNeeded
  }

  /** Once slots 0..k are sorted, slot r <= k holds the element of rank r. */
  lemma SortedRank(t: seq<Byte>, k: int, r: int)
    requires SortedThrough(t, k) && 0 <= r <= k && r < |t|
    ensures IsRank(multiset(t), r, t[r])
  {
    RankBelow(t, k, r);
    RankAtMost(t, k, r);
  }

  /** At most r elements lie below slot r: only the slots before it can. */
  lemma RankBelow(t: seq<Byte>, k: int, r: int)
    requires SortedThrough(t, k) && 0 <= r <= k && r < |t|
    ensures Below(multiset(t), t[r] as int) <= r
  {
    var v := t[r] as int;
    var lo, hi := t[..r], t[r..];
    assert t == lo + hi;
    assert forall i :: 0 <= i < |hi| ==> hi[i] >= v by {
      forall i | 0 <= i < |hi| ensures hi[i] >= v {
        assert hi[i] == t[r + i];
        if i > 0 {
          assert t[r] <= t[r + i];
        }
      }
    }
    BelowAdd(multiset(lo), multiset(hi), v);
    BelowSeq(lo, v);
    BelowSeq(hi, v);
  }

  /** More than r elements are at most slot r: slots 0..r all are. */
  lemma RankAtMost(t: seq<Byte>, k: int, r: int)
    requires SortedThrough(t, k) && 0 <= r <= k && r < |t|
    ensures r < Below(multiset(t), t[r] as int + 1)
  {
    var v := t[r] as int + 1;
    var lo, hi := t[..r + 1], t[r + 1..];
    assert t == lo + hi;
    assert forall i :: 0 <= i < |lo| ==> lo[i] < v by {
      forall i | 0 <= i < |lo| ensures lo[i] < v {
        assert lo[i] == t[i];
        if i < r {
          assert t[i] <= t[r];
        }
      }
    }
    BelowAdd(multiset(lo), multiset(hi), v);
    BelowSeq(lo, v);
  }

  /** One swap of the selection sort keeps the multiset of values. */
  method Swap(list: array<Byte>, i: int, j: int)
    requires 0 <= i < list.Length && 0 <= j < list.Length
    modifies list
    ensures list[..] == old(list[..])[i := old(list[j])][j := old(list[i])]
    ensures multiset(list[..]) == multiset(old(list[..]))
  {
    var tmp := list[j];
    list[j] := list[i];
    list[i] := tmp;
  }

  /** The inner loop of `sort`: the position of a smallest value among slots i.. . */
  method Lowest(list: array<Byte>, i: int) returns (lowest: int)
    requires 0 <= i < list.Length
    ensures i <= lowest < list.Length
    ensures forall j :: i <= j < list.Length ==> list[lowest] <= list[j]
  {
    lowest := i;
    for j := i + 1 to list.Length
      invariant i <= lowest < list.Length
      invariant forall j' :: i <= j' < j ==> list[lowest] <= list[j']
    {
      if list[j] < list[lowest] {
        lowest := j;
      }
    }
  }

  /**
   * `sort`: selection sort of slots 0..valuesNeeded (0 meaning the whole
   * list). The C loop writes slot valuesNeeded, so it must exist.
   */
  method Sort(list: array<Byte>, valuesNeeded: int)
    requires valuesNeeded == 0 || valuesNeeded < list.Length
    modifies list
    ensures multiset(list[..]) == multiset(old(list[..]))
    ensures SortedThrough(list[..], SortLimit(list.Length, valuesNeeded))
  {
    var needed := valuesNeeded;
    if needed == 0 {
      needed := list.Length - 1;
    }
    var i := 0;
    while i <= needed
      invariant 0 <= i && (i <= needed + 1 || i == 0)
      invariant multiset(list[..]) == multiset(old(list[..]))
      invariant SortedThrough(list[..], i - 1)
      decreases needed + 1 - i
    {
      var lowest := Lowest(list, i);
      ghost var before := list[..];
      Swap(list, i, lowest);
      assert forall a, b :: 0 <= a < b < list.Length && a <= i ==> list[a] <= list[b] by {
        forall a, b | 0 <= a < b < list.Length && a <= i ensures list[a] <= list[b] {
          if a < i {
            assert list[a] == before[a];
            assert before[a] <= before[b] && before[a] <= before[lowest];
          }
        }
      }
      i := i + 1;
    }
  }

  // ------------------------------------------------------------ findMedian

  /**
   * The median as `findMedian` computes it: the element of rank n / 2 for
   * odd n, the floored mean of ranks n / 2 - 1 and n / 2 for even n.
   */
  function MedianOf(s: seq<Byte>): Byte
    requires |s| >= 1
  {
    var n := |s|;
    var m := multiset(s);
    if n % 2 == 1 then RankValue(m, n / 2)
    else ((RankValue(m, n / 2 - 1) as int + RankValue(m, n / 2) as int) / 2) as Byte
  }

  /**
   * Reading the median off a list whose slots 0..n/2+1 are sorted gives
   * MedianOf of any list with the same values.
   */
  lemma SortedMedian(t: seq<Byte>, s: seq<Byte>)
    requires |t| >= 3 && multiset(t) == multiset(s) && SortedThrough(t, |t| / 2 + 1)
    ensures |s| == |t|
    ensures MedianOf(s) == if |t| % 2 == 1 then t[|t| / 2]
                           else ((t[|t| / 2 - 1] as int + t[|t| / 2] as int) / 2) as Byte
  {
    assert |s| == |multiset(s)| == |t|;
    var r := |t| / 2;
    SortedRank(t, r + 1, r);
    RankValueOf(s, r, t[r]);
    if |t| % 2 == 0 {
      SortedRank(t, r + 1, r - 1);
      RankValueOf(s, r - 1, t[r - 1]);
    }
  }

  /** `findMedian`: sort slots 0..n/2+1, then read the middle one or two. */
  method FindMedian(list: array<Byte>) returns (v: Byte)
    requires list.Length >= 3
    modifies list
    ensures v == MedianOf(old(list[..]))
  {
    var n := list.Length;
    var valuesNeeded := n / 2 + 1;
    Sort(list, valuesNeeded);
    SortedMedian(list[..], old(list[..]));
    if n % 2 == 1 {
      v := list[valuesNeeded - 1];
    } else {
      v := ((list[valuesNeeded - 2] as int + list[valuesNeeded - 1] as int) / 2) as Byte;
    }
  }

  /** For an odd window the median is one of the window's values, with as many at most it as at least it. */
  lemma MedianOddRank(s: seq<Byte>)
    requires |s| % 2 == 1
    ensures IsRank(multiset(s), |s| / 2, MedianOf(s))
    ensures MedianOf(s) in multiset(s)
  {
    RankValueIsRank(s, |s| / 2);
    RankMember(multiset(s), |s| / 2, MedianOf(s));
  }

  /** For an even window the median lies between the two middle values, which come in order. */
  lemma MedianEvenBetween(s: seq<Byte>)
    requires |s| >= 2 && |s| % 2 == 0
    ensures RankValue(multiset(s), |s| / 2 - 1) <= MedianOf(s) <= RankValue(multiset(s), |s| / 2)
  {
    BelowAll(s);
    RankOrder(multiset(s), |s| / 2 - 1, |s| / 2);
  }

  /** Elements of higher rank are no smaller. */
  lemma RankOrder(m: multiset<Byte>, r1: int, r2: int)
    requires 0 <= r1 <= r2 < Below(m, 256)
    ensures RankValue(m, r1) <= RankValue(m, r2)
  {
    var lo := RankValue(m, r1);
    var hi := RankValue(m, r2);
    RankFromIsRank(m, r1, 0);
    RankFromIsRank(m, r2, 0);
    if hi < lo {
      BelowMonotone(m, hi as int + 1, lo as int);
    }
  }

  /** A window of one repeated value has that value as its median. */
  lemma MedianUniform(s: seq<Byte>, v: Byte)
    requires |s| >= 1 && forall i :: 0 <= i < |s| ==> s[i] == v
    ensures MedianOf(s) == v
  {
    BelowSeq(s, v as int);
    BelowSeq(s, v as int + 1);
    RankValueOf(s, |s| / 2, v);
    if |s| % 2 == 0 {
      RankValueOf(s, |s| / 2 - 1, v);
    }
  }

  // ------------------------------------------------------------ the filter

  /** The size * size values of channel k around pixel (x, y), in the order the C loop gathers them. */
  function WindowValues(s: seq<Byte>, w: int, h: int, c: int, size: int, x: int, y: int, k: int): (r: seq<Byte>)
    requires w > 0 && h > 0 && c > 0 && w * h * c <= |s|
    requires size >= 1 && Inside(w, h, size, x, y) && 0 <= k < c
    ensures |r| == size * size
  {
    seq(size * size, m requires 0 <= m < size * size =>
      NeighbourIdx(x, y, k, w, h, c, size, m);
      s[Idx(x + m % size - size / 2, y + m / size - size / 2, k, w, c)])
  }

  /** The output of the filter loops: interior colour bytes are window medians, all else 0. */
  function MedianStage(s: seq<Byte>, w: int, h: int, c: int, size: int): (r: seq<Byte>)
    requires w > 0 && h > 0 && c > 0 && w * h * c <= |s| && size >= 2
    ensures |r| == |s| && ZeroOutside(r, w, h, c, size / 2)
  {
    seq(|s|, q requires 0 <= q < |s| =>
      if Interior(q, w, h, c, size / 2) then
        EncodeDecode(q, w, c);
        MedianOf(WindowValues(s, w, h, c, size, ColOf(q, w, c), RowOf(q, w, c), ChanOf(q, c)))
      else 0)
  }

  /** `median_filter`: the result of the call, errors included. */
  function MedianSpec(width: int, height: int, s: seq<Byte>, size: int): (r: Result<ImageData>)
    requires width > 0 && height > 0 && size >= 2
    ensures r.Err? <==> CheckChannels(|s|, width, height).Err?
    ensures r.Err? ==> r.error == ValueError
    ensures r.Ok? ==> r.value.width == width && r.value.height == height && |r.value.data| == |s|
  {
    match CheckChannels(|s|, width, height)
    case Err(e) => Err(e)
    case Ok(c) =>
      PixelBytesFit(|s|, width, height);
      Ok(ImageData(width, height, MedianStage(s, width, height, c, size)))
  }

  lemma MedianStageAt(s: seq<Byte>, w: int, h: int, c: int, size: int, x: int, y: int, k: int)
    requires w > 0 && h > 0 && c > 0 && w * h * c <= |s| && size >= 2
    requires Inside(w, h, size, x, y) && 0 <= k < 3 && k < c
    ensures 0 <= Idx(x, y, k, w, c) < |s|
    ensures MedianStage(s, w, h, c, size)[Idx(x, y, k, w, c)] == MedianOf(WindowValues(s, w, h, c, size, x, y, k))
  {
    IdxBound(x, y, k, w, h, c);
    InteriorIdx(x, y, k, w, h, c, size / 2);
    DecodeIdx(x, y, k, w, c);
  }

  /** The gathering loop and the call to `findMedian` for one output byte. */
  method MedianByte(data: array<Byte>, valueList: array<Byte>, w: int, h: int, c: int, size: int, x: int, y: int, k: int)
    returns (v: Byte)
    requires valueList != data && valueList.Length == size * size
    requires w > 0 && h > 0 && c > 0 && w * h * c <= data.Length
    requires size >= 2 && Inside(w, h, size, x, y) && 0 <= k < c
    modifies valueList
    ensures v == MedianOf(WindowValues(data[..], w, h, c, size, x, y, k))
  {
    var padding := size / 2;
    var position := Idx(x, y, k, w, c);
    for m := 0 to size * size
      invariant forall j :: 0 <= j < m ==> valueList[j] == WindowValues(data[..], w, h, c, size, x, y, k)[j]
    {
      NeighbourIdx(x, y, k, w, h, c, size, m);
      valueList[m] := data[position + (m / size - padding) * w * c + (m % size - padding) * c];
    }
    assert valueList[..] == WindowValues(data[..], w, h, c, size, x, y, k);
    MulLe(2, size, size);
    v := FindMedian(valueList);
  }

  /** The nested loops of `median_filter`: column x, row y, then the three colour bytes. */
  method MedianInterior(data: array<Byte>, outdata: array<Byte>, valueList: array<Byte>, w: int, h: int, c: int, size: int)
    requires outdata != data && valueList != data && valueList != outdata
    requires outdata.Length == data.Length && valueList.Length == size * size
    requires forall q :: 0 <= q < outdata.Length ==> outdata[q] == 0
    requires w > 0 && h > 0 && (c == 3 || c == 4) && w * h * c <= data.Length && size >= 2
    modifies outdata, valueList
    ensures outdata[..] == MedianStage(data[..], w, h, c, size)
  {
    ghost var spec := MedianStage(data[..], w, h, c, size);
    var padding := size / 2;
    WindowStart(outdata[..], spec, w, h, c, padding);
    var x := padding;
    while x < w - padding
      invariant padding <= x && (x <= w - padding || x == padding)
      invariant Filled(outdata[..], spec, w, c, x, padding, 0)
      decreases w - x
    {
      var y := padding;
      while y < h - padding
        invariant padding <= y && (y <= h - padding || y == padding)
        invariant Filled(outdata[..], spec, w, c, x, y, 0)
        decreases h - y
      {
        for k := 0 to 3
          invariant Filled(outdata[..], spec, w, c, x, y, k)
        {
          var v := MedianByte(data, valueList, w, h, c, size, x, y, k);
          MedianStageAt(data[..], w, h, c, size, x, y, k);
          FilledStep(outdata[..], spec, w, c, x, y, k);
          outdata[Idx(x, y, k, w, c)] := v;
        }
        WindowNextRow(outdata[..], spec, w, h, c, padding, x, y);
        y := y + 1;
      }
      WindowNextColumn(outdata[..], spec, w, h, c, padding, x, y);
      x := x + 1;
    }
    WindowDone(outdata[..], spec, w, h, c, padding, x);
  }

  /** `median_filter` (and `medianFilter`): a fresh zeroed buffer filled by the loops; the input is not modified. */
  method Median(width: int, height: int, data: array<Byte>, size: int) returns (r: Result<ImageData>)
    requires width > 0 && height > 0 && size >= 2
    ensures r == MedianSpec(width, height, data[..], size)
  {
    var channels := data.Length / (width * height);
    if channels < 3 || channels > 4 {
      return Err(ValueError);
    }
    PixelBytesFit(data.Length, width, height);
    var valueList := new Byte[size * size];
    var newData := new Byte[data.Length](_ => 0);
    MedianInterior(data, newData, valueList, width, height, channels, size);
    return Ok(ImageData(width, height, newData[..]));
  }

  // ------------------------------------------------------------ properties

  /**
   * Each byte of the result: a colour byte of a pixel the window fits around
   * is the median of its window; every other byte, alpha included, is 0.
   */
  lemma MedianAt(width: int, height: int, s: seq<Byte>, size: int, x: int, y: int, k: int)
    requires width > 0 && height > 0 && size >= 2
    requires MedianSpec(width, height, s, size).Ok?
    requires 0 <= x < width && 0 <= y < height && 0 <= k < ChannelCount(|s|, width, height)
    ensures width * height * ChannelCount(|s|, width, height) <= |s|
    ensures 0 <= Idx(x, y, k, width, ChannelCount(|s|, width, height)) < |s|
    ensures var c := ChannelCount(|s|, width, height);
      var out := MedianSpec(width, height, s, size).value.data;
      out[Idx(x, y, k, width, c)] ==
        if k < 3 && Inside(width, height, size, x, y) then MedianOf(WindowValues(s, width, height, c, size, x, y, k))
        else 0
  {
    var c := ChannelCount(|s|, width, height);
    PixelBytesFit(|s|, width, height);
    IdxBound(x, y, k, width, height, c);
    InteriorIdx(x, y, k, width, height, c, size / 2);
    assert MedianSpec(width, height, s, size).value.data == MedianStage(s, width, height, c, size);
    if k < 3 && Inside(width, height, size, x, y) {
      MedianStageAt(s, width, height, c, size, x, y, k);
    }
  }

  /** On an image whose bytes all equal v, every interior colour byte stays v. */
  lemma MedianFlat(width: int, height: int, s: seq<Byte>, size: int, v: Byte, x: int, y: int, k: int)
    requires width > 0 && height > 0 && size >= 2
    requires MedianSpec(width, height, s, size).Ok?
    requires forall q :: 0 <= q < |s| ==> s[q] == v
    requires Inside(width, height, size, x, y) && 0 <= k < 3
    ensures 0 <= Idx(x, y, k, width, ChannelCount(|s|, width, height)) < |s|
    ensures MedianSpec(width, height, s, size).value.data[Idx(x, y, k, width, ChannelCount(|s|, width, height))] == v
  {
    var c := ChannelCount(|s|, width, height);
    PixelBytesFit(|s|, width, height);
    MedianStageAt(s, width, height, c, size, x, y, k);
    WindowFlat(s, width, height, c, size, x, y, k, v);
    assert MedianSpec(width, height, s, size).value.data == MedianStage(s, width, height, c, size);
  }

  lemma WindowFlat(s: seq<Byte>, w: int, h: int, c: int, size: int, x: int, y: int, k: int, v: Byte)
    requires w > 0 && h > 0 && c > 0 && w * h * c <= |s|
    requires size >= 1 && Inside(w, h, size, x, y) && 0 <= k < c
    requires forall q :: 0 <= q < |s| ==> s[q] == v
    ensures MedianOf(WindowValues(s, w, h, c, size, x, y, k)) == v
  {
    var t := WindowValues(s, w, h, c, size, x, y, k);
    MulLe(1, size, size);
    forall m | 0 <= m < |t| ensures t[m] == v {
      NeighbourIdx(x, y, k, w, h, c, size, m);
    }
    MedianUniform(t, v);
  }
}
