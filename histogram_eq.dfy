/*
 * The histogram-equalisation extension: it counts the pixels of each
 * rounded grey level, turns the counts into a cumulative table of
 * truncated shares of 255, and then maps every colour byte through that
 * table, in place.
 */
module HistogramEq {
  import opened Core
  import opened Errors
  import opened Raster
  import opened Spatial
  import opened CCore

  /** The histogram bucket of a pixel: its grey value rounded to nearest, (1 + R + G + B) / 3. */
  function Bucket(p: Pixel3): (b: int)
    ensures 0 <= b < 256
    ensures 3 * b <= 1 + p.red + p.green + p.blue < 3 * b + 3
  {
    (1 + p.red as int + p.green as int + p.blue as int) / 3
  }

  /** 256 empty buckets, as `calloc` leaves them. */
  function Zeros(): (z: seq<int>)
    ensures |z| == 256 && forall v :: 0 <= v < 256 ==> z[v] == 0
  {
    seq(256, _ => 0)
  }

  /** The bucket counts of the pixels of `s`, read `c` bytes at a time from the left. */
  function Histogram(s: seq<Byte>, c: int): (h: seq<int>)
    requires c == 3 || c == 4
    ensures |h| == 256
    ensures forall v :: 0 <= v < 256 ==> h[v] >= 0
    decreases |s|
  {
    if |s| < c then Zeros()
    else
      var h := Histogram(s[..|s| - c], c);
      var b := Bucket(Pixel3(s[|s| - c], s[|s| - c + 1], s[|s| - c + 2]));
      h[b := h[b] + 1]
  }

  /** Counting one more pixel adds one to its bucket. */
  lemma HistogramSnoc(s: seq<Byte>, c: int, i: int)
    requires c == 3 || c == 4
    requires 0 <= i && i + c <= |s|
    ensures var b := Bucket(Pixel3(s[i], s[i + 1], s[i + 2]));
      Histogram(s[..i + c], c) == Histogram(s[..i], c)[b := Histogram(s[..i], c)[b] + 1]
  {
    assert s[..i + c][..i] == s[..i];
  }

  lemma {:induction false} SumZeros(n: nat)
    ensures Sum(seq(n, _ => 0)) == 0
  {
    if n > 0 {
      assert seq(n, _ => 0)[..n - 1] == seq(n - 1, _ => 0);
      SumZeros(n - 1);
    }
  }

  /** Adding one to an entry adds one to the sum. */
  lemma {:induction false} SumIncrement(t: seq<int>, b: int)
    requires 0 <= b < |t|
    ensures Sum(t[b := t[b] + 1]) == Sum(t) + 1
    decreases |t|
  {
    var t' := t[b := t[b] + 1];
    var n := |t|;
    if b == n - 1 {
      assert t'[..n - 1] == t[..n - 1];
    } else {
      assert t'[..n - 1] == t[..n - 1][b := t[b] + 1];
      SumIncrement(t[..n - 1], b);
    }
  }

  /** Every pixel is counted exactly once: the buckets sum to the number of pixels. */
  lemma {:induction false} HistogramTotal(s: seq<Byte>, c: int)
    requires c == 3 || c == 4
    requires Aligned(|s|, c)
    ensures Sum(Histogram(s, c)) * c == |s|
    decreases |s|
  {
    if |s| < c {
      if |s| > 0 {
        NextPixel(0, c, |s|);
      }
      SumZeros(256);
      assert Zeros() == seq(256, _ => 0);
    } else {
      var h := Histogram(s[..|s| - c], c);
      AlignedBack(|s|, c);
      HistogramTotal(s[..|s| - c], c);
      HistogramLast(s, c);
      CountOneMore(Sum(h), c, |s|);
    }
  }

  /** The last pixel adds one to the count of the pixels before it. */
  lemma HistogramLast(s: seq<Byte>, c: int)
    requires (c == 3 || c == 4) && c <= |s|
    ensures Sum(Histogram(s, c)) == Sum(Histogram(s[..|s| - c], c)) + 1
  {
    var b := Bucket(Pixel3(s[|s| - c], s[|s| - c + 1], s[|s| - c + 2]));
    SumIncremented(Histogram(s[..|s| - c], c), Histogram(s, c), b);
  }

  /** A table equal to `t` with one entry raised by one sums to one more. */
  lemma SumIncremented(t: seq<int>, u: seq<int>, b: int)
    requires 0 <= b < |t| && |u| == |t| && u[b] == t[b] + 1
    requires forall v :: 0 <= v < |t| && v != b ==> u[v] == t[v]
    ensures Sum(u) == Sum(t) + 1
  {
    assert u == t[b := t[b] + 1];
    SumIncrement(t, b);
  }

  lemma CountOneMore(k: int, c: int, n: int)
    requires k * c == n - c
    ensures (k + 1) * c == n
  {
  }

  /** The share of 255 a bucket earns: count * 255 / pixelcount, truncated. */
  function Shares(h: seq<int>, pixels: int): (r: seq<int>)
    requires pixels > 0 && forall v :: 0 <= v < |h| ==> h[v] >= 0
    ensures |r| == |h|
    ensures forall v :: 0 <= v < |h| ==> r[v] == h[v] * 255 / pixels
  {
    seq(|h|, v requires 0 <= v < |h| => h[v] * 255 / pixels)
  }

  /** A truncated share is non-negative and at most the exact one. */
  lemma ShareBound(a: int, pixels: int)
    requires a >= 0 && pixels > 0
    ensures 0 <= a * 255 / pixels && (a * 255 / pixels) * pixels <= a * 255
  {
  }

  /** `histogram_sum[v]`: the shares of buckets 0..v added up. */
  function Cumulative(h: seq<int>, pixels: int): (r: seq<int>)
    requires pixels > 0 && forall v :: 0 <= v < |h| ==> h[v] >= 0
    ensures |r| == |h|
  {
    seq(|h|, v requires 0 <= v < |h| => Sum(Shares(h, pixels)[..v + 1]))
  }

  /** Each entry is the previous one plus its own share. */
  lemma CumulativeStep(h: seq<int>, pixels: int, v: int)
    requires pixels > 0 && forall j :: 0 <= j < |h| ==> h[j] >= 0
    requires 0 <= v < |h|
    ensures Cumulative(h, pixels)[v] == (if v == 0 then 0 else Cumulative(h, pixels)[v - 1]) + h[v] * 255 / pixels
  {
    var t := Shares(h, pixels);
    assert Cumulative(h, pixels)[v] == Sum(t[..v + 1]);
    assert t[..v + 1][..v] == t[..v];
    if v == 0 {
      assert t[..1][..0] == [];
      assert Sum(t[..1]) == Sum(t[..1][..0]) + t[..1][0];
      assert Sum(t[..1]) == t[0];
    } else {
      assert Cumulative(h, pixels)[v - 1] == Sum(t[..v]);
    }
  }

  /** Sums of non-negative terms grow with the prefix. */
  lemma {:induction false} SumPrefixMonotone(t: seq<int>, i: int, j: int)
    requires 0 <= i <= j <= |t| && forall k :: 0 <= k < |t| ==> t[k] >= 0
    ensures Sum(t[..i]) <= Sum(t[..j])
    decreases j - i
  {
    if i < j {
      SumPrefixMonotone(t, i, j - 1);
      assert t[..j][..j - 1] == t[..j - 1];
    }
  }

  /** The truncated shares of a prefix never add up to more than its exact share. */
  lemma {:induction false} SharesBound(h: seq<int>, pixels: int, k: int)
    requires pixels > 0 && forall v :: 0 <= v < |h| ==> h[v] >= 0
    requires 0 <= k <= |h|
    ensures Sum(Shares(h, pixels)[..k]) * pixels <= Sum(h[..k]) * 255
  {
    var t := Shares(h, pixels);
    if k > 0 {
      SharesBound(h, pixels, k - 1);
      assert t[..k][..k - 1] == t[..k - 1];
      assert h[..k][..k - 1] == h[..k - 1];
      assert Sum(t[..k]) == Sum(t[..k - 1]) + t[k - 1];
      assert Sum(h[..k]) == Sum(h[..k - 1]) + h[k - 1];
      ShareBound(h[k - 1], pixels);
      assert t[k - 1] * pixels <= h[k - 1] * 255;
    }
  }

  /** The cumulative table is non-decreasing. */
  lemma CumulativeMonotone(h: seq<int>, pixels: int, i: int, j: int)
    requires pixels > 0 && forall v :: 0 <= v < |h| ==> h[v] >= 0
    requires 0 <= i <= j < |h|
    ensures 0 <= Cumulative(h, pixels)[i] <= Cumulative(h, pixels)[j]
  {
    var t := Shares(h, pixels);
    forall k | 0 <= k < |t| ensures t[k] >= 0 {
      ShareBound(h[k], pixels);
    }
    SumPrefixMonotone(t, 0, i + 1);
    SumPrefixMonotone(t, i + 1, j + 1);
    assert t[..0] == [];
  }

  /**
   * When the buckets count exactly `pixels` pixels the table never exceeds
   * 255: the truncated shares add up to at most the whole of 255.
   */
  lemma CumulativeBound(h: seq<int>, pixels: int, v: int)
    requires pixels > 0 && forall j :: 0 <= j < |h| ==> h[j] >= 0
    requires Sum(h) == pixels && 0 <= v < |h|
    ensures 0 <= Cumulative(h, pixels)[v] <= 255
  {
    CumulativeMonotone(h, pixels, v, |h| - 1);
    SharesBound(h, pixels, |h|);
    assert h[..|h|] == h;
    var total := Sum(Shares(h, pixels)[..|h|]);
    assert total * pixels <= pixels * 255;
    assert total <= 255 by {
      if total > 255 {
        MulLe(256, total, pixels);
      }
    }
  }

  lemma CumulativeBounds(h: seq<int>, pixels: int)
    requires pixels > 0 && forall j :: 0 <= j < |h| ==> h[j] >= 0
    requires Sum(h) == pixels
    ensures forall v :: 0 <= v < |h| ==> 0 <= Cumulative(h, pixels)[v] <= 255
  {
    forall v | 0 <= v < |h| ensures 0 <= Cumulative(h, pixels)[v] <= 255 {
      CumulativeBound(h, pixels, v);
    }
  }

  /** `histogram_sum` as bytes. */
  function EqualisationTable(h: seq<int>, pixels: int): (t: seq<Byte>)
    requires |h| == 256 && pixels > 0 && forall v :: 0 <= v < 256 ==> h[v] >= 0
    requires Sum(h) == pixels
    ensures |t| == 256 && forall v :: 0 <= v < 256 ==> t[v] == Cumulative(h, pixels)[v]
  {
    CumulativeBounds(h, pixels);
    seq(256, v requires 0 <= v < 256 => Cumulative(h, pixels)[v] as Byte)
  }

  /** Brighter bytes never map below darker ones. */
  lemma EqualisationMonotone(h: seq<int>, pixels: int, a: int, b: int)
    requires |h| == 256 && pixels > 0 && forall v :: 0 <= v < 256 ==> h[v] >= 0
    requires Sum(h) == pixels
    requires 0 <= a <= b < 256
    ensures EqualisationTable(h, pixels)[a] <= EqualisationTable(h, pixels)[b]
  {
    CumulativeMonotone(h, pixels, a, b);
  }

  /**
   * The buffer holds fewer than one pixel more than width * height pixels
   * when its channel count is valid. Both loops visit every whole pixel, so
   * with a surplus pixel the buckets would count more pixels than the
   * divisor, and the running sums could pass 255, which the `unsigned char`
   * table would keep only modulo 256.
   */
  predicate NoSurplusPixel(n: int, width: int, height: int)
    requires width > 0 && height > 0
  {
    var c := ChannelCount(n, width, height);
    3 <= c <= 4 ==> n < c * (width * height) + c
  }

  /** Where both loops stop: the end of the last whole pixel. */
  function WholeLength(n: int, c: int): (m: int)
    requires (c == 3 || c == 4) && n >= 0
    ensures 0 <= m <= n < m + c && Aligned(m, c)
  {
    if c == 3 then n / 3 * 3 else n / 4 * 4
  }

  /** A pixel start past the last whole pixel's start is where the loops stop. */
  lemma WholeLengthAt(n: int, c: int, i: int)
    requires (c == 3 || c == 4) && 0 <= i <= n && Aligned(i, c)
    ensures i + c <= n <==> i + c <= WholeLength(n, c)
    ensures n < i + c ==> i == WholeLength(n, c)
  {
    if c == 3 {} else {}
  }

  /** Without a surplus pixel the loops stop after exactly width * height pixels. */
  lemma NoSurplusWhole(n: int, width: int, height: int)
    requires width > 0 && height > 0 && n >= 0 && NoSurplusPixel(n, width, height)
    requires 3 <= ChannelCount(n, width, height) <= 4
    ensures var c := ChannelCount(n, width, height);
      WholeLength(n, c) == c * (width * height)
  {
    var c := ChannelCount(n, width, height);
    var m := c * (width * height);
    PixelBytesFit(n, width, height);
    assert Aligned(m, c) by { if c == 3 {} else {} }
    WholeLengthAt(n, c, m);
  }

  /** A buffer of exactly `pixels` whole pixels has `pixels` pixels counted. */
  lemma TotalPixels(s: seq<Byte>, c: int, pixels: int)
    requires (c == 3 || c == 4) && |s| == c * pixels
    ensures Sum(Histogram(s, c)) == pixels
  {
    assert Aligned(|s|, c) by { if c == 3 {} else {} }
    HistogramTotal(s, c);
    if c == 3 {} else {}
  }

  /** The table `execute` builds from the first width * height pixels of a buffer of c-byte pixels. */
  function TableOf(width: int, height: int, s: seq<Byte>, c: int): (t: seq<Byte>)
    requires width > 0 && height > 0 && (c == 3 || c == 4)
    requires c * (width * height) <= |s|
    ensures |t| == 256
  {
    var m := c * (width * height);
    TotalPixels(s[..m], c, width * height);
    EqualisationTable(Histogram(s[..m], c), width * height)
  }

  /**
   * `execute`: the channel check, then every colour byte of every whole
   * pixel mapped through the table; the bytes after the last whole pixel are
   * left alone.
   */
  function HistogramEqSpec(width: int, height: int, s: seq<Byte>): (r: Result<ImageData>)
    requires width > 0 && height > 0 && NoSurplusPixel(|s|, width, height)
    ensures r.Err? <==> CheckChannels(|s|, width, height).Err?
    ensures r.Err? ==> r.error == ValueError
    ensures r.Ok? ==> r.value.width == width && r.value.height == height && |r.value.data| == |s|
  {
    match CheckChannels(|s|, width, height)
    case Err(e) => Err(e)
    case Ok(channels) =>
      var m := channels * (width * height);
      var t := TableOf(width, height, s, channels);
      RecolourPreservesLength(Lookup(t), channels);
      MapPixelsLength(s[..m], channels, Recolour(Lookup(t)));
      Ok(ImageData(width, height, MapPixels(s[..m], channels, Recolour(Lookup(t))) + s[m..]))
  }

  /** The `calloc`ed bucket array. */
  method EmptyBuckets() returns (table: array<int>)
    ensures fresh(table) && table.Length == 256 && table[..] == Zeros()
  {
    table := new int[256](_ => 0);
  }

  /** One step of the counting loop: the bucket of the pixel at `i` gains one. */
  method CountPixel(table: array<int>, data: array<Byte>, channels: int, i: int)
    requires channels == 3 || channels == 4
    requires 0 <= i && i + channels <= data.Length
    requires table.Length == 256 && table[..] == Histogram(data[..i], channels)
    modifies table
    ensures table[..] == Histogram(data[..i + channels], channels)
  {
    HistogramSnoc(data[..], channels, i);
    var b := (1 + data[i] as int + data[i + 1] as int + data[i + 2] as int) / 3;
    assert b == Bucket(Pixel3(data[i], data[i + 1], data[i + 2]));
    table[b] := table[b] + 1;
  }

  /** The counting loop `i <= dataLen - channels`: one bucket incremented per whole pixel. */
  method CountBuckets(data: array<Byte>, channels: int) returns (table: array<int>)
    requires channels == 3 || channels == 4
    ensures table.Length == 256 && table[..] == Histogram(data[..WholeLength(data.Length, channels)], channels)
  {
    table := EmptyBuckets();
    var i := 0;
    assert data[..0] == [];
    while i <= data.Length - channels
      invariant 0 <= i <= data.Length && Aligned(i, channels)
      invariant table.Length == 256 && table[..] == Histogram(data[..i], channels)
      decreases data.Length - i
    {
      CountPixel(table, data, channels, i);
      AlignedNext(i, channels);
      i := i + channels;
    }
    WholeLengthAt(data.Length, channels, i);
  }

  /** The prefix loop: `histogram_sum[i] = share(i) + histogram_sum[i - 1]`. */
  method BuildTable(table: array<int>, pixels: int) returns (sums: array<Byte>)
    requires table.Length == 256 && pixels > 0
    requires forall v :: 0 <= v < 256 ==> table[v] >= 0
    requires Sum(table[..]) == pixels
    ensures sums.Length == 256 && sums[..] == EqualisationTable(table[..], pixels)
  {
    ghost var h := table[..];
    sums := new Byte[256];
    CumulativeStep(h, pixels, 0);
    CumulativeBound(h, pixels, 0);
    sums[0] := table[0] * 255 / pixels;
    for i := 1 to 256
      invariant forall j :: 0 <= j < i ==> sums[j] == Cumulative(h, pixels)[j]
    {
      CumulativeStep(h, pixels, i);
      CumulativeBound(h, pixels, i);
      sums[i] := table[i] * 255 / pixels + sums[i - 1];
    }
    assert sums[..] == EqualisationTable(h, pixels);
  }

  /** `execute` (histogramEq.c), in place. */
  method HistogramEqualise(width: int, height: int, data: array<Byte>) returns (r: Result<ImageData>)
    requires width > 0 && height > 0 && NoSurplusPixel(data.Length, width, height)
    modifies data
    ensures r == HistogramEqSpec(width, height, old(data[..]))
    ensures data[..] == if r.Ok? then r.value.data else old(data[..])
  {
    var channels := data.Length / (width * height);
    if channels < 3 || channels > 4 {
      return Err(ValueError);
    }
    NoSurplusWhole(data.Length, width, height);
    var pixelCount := width * height;
    var table := CountBuckets(data, channels);
    TotalPixels(data[..channels * pixelCount], channels, pixelCount);
    var sums := BuildTable(table, pixelCount);
    assert sums[..] == TableOf(width, height, data[..], channels);
    EqualiseLoop(data, channels, sums[..]);
    return Ok(ImageData(width, height, data[..]));
  }

  /** The mapping loop `i < dataLen - channels + 1`: the colour bytes of every whole pixel looked up in the table. */
  method EqualiseLoop(data: array<Byte>, channels: int, t: seq<Byte>)
    requires channels == 3 || channels == 4
    requires |t| == 256
    modifies data
    ensures var m := WholeLength(data.Length, channels);
      data[..] == MapPixels(old(data[..])[..m], channels, Recolour(Lookup(t))) + old(data[..])[m..]
  {
    ghost var s := data[..];
    ghost var m := WholeLength(data.Length, channels);
    var i := 0;
    while i < data.Length - channels + 1
      invariant i <= m
      invariant MappedUpTo(data[..], s, channels, Recolour(Lookup(t)), i)
      decreases data.Length - i
    {
      WholeLengthAt(data.Length, channels, i);
      assert data[i..i + 3] == s[i..i + 3];
      ghost var p := Lookup(t)(Pixel3(data[i], data[i + 1], data[i + 2]));
      assert p == Pixel3(t[data[i]], t[data[i + 1]], t[data[i + 2]]);
      RecolourStep(data[..], s, channels, Lookup(t), i, p);
      data[i] := t[data[i]];
      data[i + 1] := t[data[i + 1]];
      data[i + 2] := t[data[i + 2]];
      i := i + channels;
    }
    WholeLengthAt(data.Length, channels, i);
    assert data[..] == data[..i] + data[i..];
  }

  /** Each colour byte b of every whole pixel becomes table[b], indexed by the byte itself; alpha is kept. */
  lemma HistogramEqAt(width: int, height: int, s: seq<Byte>, i: int)
    requires width > 0 && height > 0 && NoSurplusPixel(|s|, width, height)
    requires HistogramEqSpec(width, height, s).Ok?
    requires 0 <= i && i + ChannelCount(|s|, width, height) <= |s| && Aligned(i, ChannelCount(|s|, width, height))
    ensures var c := ChannelCount(|s|, width, height);
      var t := TableOf(width, height, s, c);
      var out := HistogramEqSpec(width, height, s).value.data;
      && out[i] == t[s[i]] && out[i + 1] == t[s[i + 1]] && out[i + 2] == t[s[i + 2]]
      && (c == 4 ==> out[i + 3] == s[i + 3])
  {
    var c := ChannelCount(|s|, width, height);
    var m := c * (width * height);
    NoSurplusWhole(|s|, width, height);
    WholeLengthAt(|s|, c, i);
    var t := TableOf(width, height, s, c);
    RecolourAt(s[..m], c, Lookup(t), i);
    var mapped := MapPixels(s[..m], c, Recolour(Lookup(t)));
    assert HistogramEqSpec(width, height, s).value.data == mapped + s[m..];
    assert Pixel3At(s[..m], i) == Pixel3At(s, i);
    if c == 4 {
      assert s[..m][i + 3] == s[i + 3];
    }
  }

  /** The bytes after the last whole pixel, fewer than one pixel, are left as they were. */
  lemma HistogramEqSurplus(width: int, height: int, s: seq<Byte>)
    requires width > 0 && height > 0 && NoSurplusPixel(|s|, width, height)
    requires HistogramEqSpec(width, height, s).Ok?
    ensures var c := ChannelCount(|s|, width, height);
      var m := c * (width * height);
      && 0 <= m <= |s| < m + c
      && forall j :: m <= j < |s| ==> HistogramEqSpec(width, height, s).value.data[j] == s[j]
  {
    var c := ChannelCount(|s|, width, height);
    var m := c * (width * height);
    PixelBytesFit(|s|, width, height);
    var t := TableOf(width, height, s, c);
    var mapped := MapPixels(s[..m], c, Recolour(Lookup(t)));
    var out := HistogramEqSpec(width, height, s).value.data;
    assert out == mapped + s[m..];
    forall j | m <= j < |s| ensures out[j] == s[j] {
      assert out[j] == s[m..][j - m];
    }
  }
}
