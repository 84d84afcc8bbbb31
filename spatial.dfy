/*
 * `parseFilter` and `spatial` of the cCore extension: an odd-square integer
 * kernel is slid over the interior of the image; each colour byte becomes
 * the clipped magnitude of the weighted sum divided (truncating) by the
 * filter total. Bytes the kernel cannot reach stay 0 and alpha is copied.
 */
module Spatial {
  import opened Core
  import opened Errors
  import opened Raster
  import opened Window

  // --------------------------------------------------------------- parseFilter

  /** The integer square root: `(int)sqrt(n)`, taken as the exact floor. */
  function ISqrt(n: nat): (r: nat)
    ensures r * r <= n < (r + 1) * (r + 1)
    decreases n
  {
    if n == 0 then 0
    else
      var r := ISqrt(n - 1);
      if (r + 1) * (r + 1) <= n then r + 1 else r
  }

  /** The floor square root is unique: any r with r² <= n < (r + 1)² is it. */
  lemma ISqrtExact(n: nat, r: nat)
    requires r * r <= n < (r + 1) * (r + 1)
    ensures ISqrt(n) == r
  {
    var t := ISqrt(n);
    if t < r {
      MulLe(t + 1, r, t + 1);
      MulLe(t + 1, r, r);
    } else if t > r {
      MulLe(r + 1, t, r + 1);
      MulLe(r + 1, t, t);
    }
  }

  /**
   * The side of the square kernel `parseFilter` keeps from n values: the
   * integer square root, made odd by decrementing it when it is even.
   */
  function FilterSize(n: int): (size: int)
    requires n >= 1
    ensures size >= 1 && size % 2 == 1
    ensures size * size <= n < (size + 2) * (size + 2)
  {
    var r := ISqrt(n);
    assert r >= 1 && (r + 1) * (r + 1) < (r + 2) * (r + 2);
    assert (r - 1) * (r - 1) <= r * r;
    if r % 2 == 0 then r - 1 else r
  }

  /** `parseFilter` (cCore.c): copies the first size * size tuple entries into a zeroed buffer. */
  method ParseFilter(filter: seq<int>) returns (size: int, kernel: array<int>)
    requires |filter| >= 1
    ensures size == FilterSize(|filter|)
    ensures kernel.Length == size * size && kernel[..] == filter[..size * size]
  {
    size := ISqrt(|filter|);
    if size % 2 == 0 {
      size := size - 1;
    }
    assert size == FilterSize(|filter|);
    var numberOfFilterValues := size * size;
    assert 0 <= numberOfFilterValues <= |filter|;
    kernel := new int[numberOfFilterValues](_ => 0);
    for position := 0 to numberOfFilterValues
      invariant forall j :: 0 <= j < position ==> kernel[j] == filter[j]
    {
      kernel[position] := filter[position];
    }
    assert kernel[..] == filter[..numberOfFilterValues];
  }

  // ---------------------------------------------------------- filter total

  /** The sum of a kernel, accumulated front to back. */
  function Sum(t: seq<int>): int
    decreases |t|
  {
    if |t| == 0 then 0 else Sum(t[..|t| - 1]) + t[|t| - 1]
  }

  /** The sum of a concatenation is the sum of the parts. */
  lemma {:induction false} SumConcat(a: seq<int>, b: seq<int>)
    ensures Sum(a + b) == Sum(a) + Sum(b)
    decreases |b|
  {
    if |b| == 0 {
      assert a + b == a;
    } else {
      SumConcat(a, b[..|b| - 1]);
      assert (a + b)[..|a + b| - 1] == a + b[..|b| - 1];
    }
  }

  /** The sum of a three-entry kernel row. */
  lemma SumThree(p: int, q: int, r: int)
    ensures Sum([p, q, r]) == p + q + r
  {
    assert [p][..0] == [];
    assert Sum([p]) == p;
    assert [p, q][..1] == [p];
    assert Sum([p, q]) == p + q;
    assert [p, q, r][..2] == [p, q];
  }

  /** The sum of a five-entry kernel row. */
  lemma SumFive(p: int, q: int, r: int, t: int, u: int)
    ensures Sum([p, q, r, t, u]) == p + q + r + t + u
  {
    SumThree(r, t, u);
    SumConcat([p, q], [r, t, u]);
    assert [p, q, r, t, u] == [p, q] + [r, t, u];
    assert [p][..0] == [];
    assert Sum([p]) == p;
    assert [p, q][..1] == [p];
    assert Sum([p, q]) == p + q;
  }

  /** The `abs` of the C library. */
  function Abs(x: int): (r: nat)
    ensures r == x || r == -x
  {
    if x < 0 then -x else x
  }

  /** Scaling a sum one entry at a time. */
  lemma SumScaledStep(t: seq<int>, v: int)
    requires |t| > 0
    ensures v * Sum(t) == v * Sum(t[..|t| - 1]) + v * t[|t| - 1]
  {
    var a, b := Sum(t[..|t| - 1]), t[|t| - 1];
    assert v * (a + b) == v * a + v * b;
  }

  /** The C `/` operator on `int`: the quotient truncated toward zero. */
  function CDiv(a: int, b: int): int
    requires b != 0
  {
    if (a < 0) == (b < 0) then Abs(a) / Abs(b) else -(Abs(a) / Abs(b))
  }

  /** The magnitude of a truncated quotient is the quotient of the magnitudes. */
  lemma AbsCDiv(a: int, b: int)
    requires b != 0
    ensures Abs(CDiv(a, b)) == Abs(a) / Abs(b)
  {
  }

  /** The C division law: the remainder is smaller than the divisor and has the sign of the dividend. */
  lemma CDivRemainder(a: int, b: int)
    requires b != 0
    ensures var r := a - CDiv(a, b) * b; Abs(r) < Abs(b) && (r == 0 || (r < 0) == (a < 0))
  {
    var q := Abs(a) / Abs(b);
    var m := Abs(a) % Abs(b);
    assert Abs(a) == q * Abs(b) + m;
    if a >= 0 && b > 0 {
      assert a - CDiv(a, b) * b == m;
    } else if a >= 0 && b < 0 {
      assert CDiv(a, b) * b == q * Abs(b);
    } else if a < 0 && b > 0 {
      assert CDiv(a, b) * b == -(q * Abs(b));
    } else {
      assert CDiv(a, b) * b == -(q * Abs(b));
    }
  }

  /**
   * The divisor `spatial` uses: the supplied total when it is non-zero
   * (omitting it is passing 0), else the magnitude of the kernel's sum,
   * replaced by 1 when that is 0.
   */
  function Divisor(kernel: seq<int>, filterTotal: int): int
  {
    if filterTotal != 0 then filterTotal
    else if Abs(Sum(kernel)) == 0 then 1
    else Abs(Sum(kernel))
  }

  /** The divisor is never 0; a supplied total is used as it is; a computed one is positive. */
  lemma DivisorCases(kernel: seq<int>, filterTotal: int)
    ensures Divisor(kernel, filterTotal) != 0
    ensures filterTotal != 0 ==> Divisor(kernel, filterTotal) == filterTotal
    ensures filterTotal == 0 && Sum(kernel) != 0 ==> Divisor(kernel, filterTotal) == Abs(Sum(kernel))
    ensures filterTotal == 0 && Sum(kernel) == 0 ==> Divisor(kernel, filterTotal) == 1
  {
  }

  // ----------------------------------------------------------- the window

  /** Kernel entry m sits at row m / size and column m % size of the square. */
  lemma WindowOffsets(m: int, size: int)
    requires size >= 1 && 0 <= m < size * size
    ensures 0 <= m % size < size && 0 <= m / size < size
  {
    var d := m / size;
    assert m == d * size + m % size;
    if d >= size {
      MulLe(size, d, size);
    }
  }

  /** The kernel fits around pixel (x, y): it is at least size / 2 pixels from every side. */
  predicate Inside(w: int, h: int, size: int, x: int, y: int)
  {
    size / 2 <= x < w - size / 2 && size / 2 <= y < h - size / 2
  }

  /**
   * Every neighbour the convolution reads for an interior pixel lies in the
   * image: the byte offset the C code computes from `position` is byte k of
   * pixel (x + m % size - size / 2, y + m / size - size / 2).
   */
  lemma NeighbourIdx(x: int, y: int, k: int, w: int, h: int, c: int, size: int, m: int)
    requires w > 0 && h > 0 && c > 0 && size >= 1
    requires Inside(w, h, size, x, y) && 0 <= k < c
    requires 0 <= m < size * size
    ensures 0 <= x + m % size - size / 2 < w && 0 <= y + m / size - size / 2 < h
    ensures Idx(x, y, k, w, c) + (m / size - size / 2) * w * c + (m % size - size / 2) * c
         == Idx(x + m % size - size / 2, y + m / size - size / 2, k, w, c)
    ensures 0 <= Idx(x + m % size - size / 2, y + m / size - size / 2, k, w, c) < w * h * c
  {
    WindowOffsets(m, size);
    var e := size / 2;
    ShiftInside(x, y, w, h, e, m % size, m / size);
    IdxShift(x, y, k, w, c, m % size - e, m / size - e);
    IdxBound(x + m % size - e, y + m / size - e, k, w, h, c);
  }

  lemma ShiftInside(x: int, y: int, w: int, h: int, e: int, a: int, b: int)
    requires e <= x < w - e && e <= y < h - e
    requires 0 <= a < 2 * e + 1 && 0 <= b < 2 * e + 1
    ensures 0 <= x + a - e < w && 0 <= y + b - e < h
  {
  }

  /** Moving dx pixels right and dy pixels down moves the byte offset by dy rows and dx pixels. */
  lemma IdxShift(x: int, y: int, k: int, w: int, c: int, dx: int, dy: int)
    ensures Idx(x, y, k, w, c) + dy * w * c + dx * c == Idx(x + dx, y + dy, k, w, c)
  {
    assert (y + dy) * w == y * w + dy * w;
    assert (x + dx + (y * w + dy * w)) * c == x * c + dx * c + (y * w) * c + (dy * w) * c;
  }

  /** The weighted sum `tmp` over the first m kernel entries, for byte k of pixel (x, y). */
  function ConvSum(s: seq<Byte>, w: int, h: int, c: int, kernel: seq<int>, size: int, x: int, y: int, k: int, m: int): int
    requires w > 0 && h > 0 && c > 0 && w * h * c <= |s|
    requires size >= 1 && size % 2 == 1 && size * size <= |kernel|
    requires Inside(w, h, size, x, y) && 0 <= k < c && 0 <= m <= size * size
    decreases m
  {
    if m == 0 then 0
    else
      NeighbourIdx(x, y, k, w, h, c, size, m - 1);
      ConvSum(s, w, h, c, kernel, size, x, y, k, m - 1)
        + s[Idx(x + (m - 1) % size - size / 2, y + (m - 1) / size - size / 2, k, w, c)] * kernel[m - 1]
  }

  /** The byte `clip( abs( tmp / filterTotal ) )`. */
  function ConvByte(s: seq<Byte>, w: int, h: int, c: int, kernel: seq<int>, size: int, total: int, x: int, y: int, k: int): Byte
    requires w > 0 && h > 0 && c > 0 && w * h * c <= |s|
    requires size >= 1 && size % 2 == 1 && size * size <= |kernel| && total != 0
    requires Inside(w, h, size, x, y) && 0 <= k < c
  {
    Clip(Abs(CDiv(ConvSum(s, w, h, c, kernel, size, x, y, k, size * size), total)))
  }

  /** The output of the convolution loops alone: computed interior colour bytes, 0 elsewhere. */
  function Stage(s: seq<Byte>, w: int, h: int, c: int, kernel: seq<int>, size: int, total: int): (r: seq<Byte>)
    requires w > 0 && h > 0 && c > 0 && w * h * c <= |s|
    requires size >= 1 && size % 2 == 1 && size * size <= |kernel| && total != 0
    ensures |r| == |s| && ZeroOutside(r, w, h, c, size / 2)
  {
    seq(|s|, q requires 0 <= q < |s| =>
      if Interior(q, w, h, c, size / 2) then
        EncodeDecode(q, w, c);
        ConvByte(s, w, h, c, kernel, size, total, ColOf(q, w, c), RowOf(q, w, c), ChanOf(q, c))
      else 0)
  }

  lemma StageAt(s: seq<Byte>, w: int, h: int, c: int, kernel: seq<int>, size: int, total: int, x: int, y: int, k: int)
    requires w > 0 && h > 0 && c > 0 && w * h * c <= |s|
    requires size >= 1 && size % 2 == 1 && size * size <= |kernel| && total != 0
    requires Inside(w, h, size, x, y) && 0 <= k < 3 && k < c
    ensures 0 <= Idx(x, y, k, w, c) < |s|
    ensures Stage(s, w, h, c, kernel, size, total)[Idx(x, y, k, w, c)] == ConvByte(s, w, h, c, kernel, size, total, x, y, k)
  {
    IdxBound(x, y, k, w, h, c);
    InteriorIdx(x, y, k, w, h, c, size / 2);
    DecodeIdx(x, y, k, w, c);
  }

  /** The stage with every alpha byte of a four-channel buffer copied from the input. */
  function WithAlpha(stage: seq<Byte>, s: seq<Byte>, c: int): (r: seq<Byte>)
    requires |stage| == |s|
  {
    seq(|s|, q requires 0 <= q < |s| => if c == 4 && q % 4 == 3 then s[q] else stage[q])
  }

  /** `spatial`: the result of the call, errors included. */
  function SpatialSpec(width: int, height: int, s: seq<Byte>, filter: seq<int>, filterTotal: int): (r: Result<ImageData>)
    requires width > 0 && height > 0 && |filter| >= 1
    ensures r.Ok? ==> r.value.width == width && r.value.height == height && |r.value.data| == |s|
    ensures r.Err? ==> r.error == ValueError
  {
    var size := FilterSize(|filter|);
    var kernel := filter[..size * size];
    match CheckChannels(|s|, width, height)
    case Err(e) => Err(e)
    case Ok(c) =>
      PixelBytesFit(|s|, width, height);
      DivisorCases(kernel, filterTotal);
      var stage := Stage(s, width, height, c, kernel, size, Divisor(kernel, filterTotal));
      Ok(ImageData(width, height, WithAlpha(stage, s, c)))
  }

  // ------------------------------------------------------------- the loops

  /** The innermost loop of `spatial`: the weighted sum for one byte, then divide, abs and clip. */
  method ConvolveByte(data: array<Byte>, w: int, h: int, c: int, kernel: array<int>, size: int, total: int, x: int, y: int, k: int)
    returns (v: Byte)
    requires w > 0 && h > 0 && c > 0 && w * h * c <= data.Length
    requires size >= 1 && size % 2 == 1 && kernel.Length == size * size && total != 0
    requires Inside(w, h, size, x, y) && 0 <= k < c
    ensures v == ConvByte(data[..], w, h, c, kernel[..], size, total, x, y, k)
  {
    var edgeSize := size / 2;
    var position := Idx(x, y, k, w, c);
    var tmp := 0;
    for m := 0 to size * size
      invariant tmp == ConvSum(data[..], w, h, c, kernel[..], size, x, y, k, m)
    {
      NeighbourIdx(x, y, k, w, h, c, size, m);
      tmp := tmp + data[position + (m / size - edgeSize) * w * c + (m % size - edgeSize) * c] * kernel[m];
    }
    v := Clip(Abs(CDiv(tmp, total)));
  }

  /**
   * The nested loops of `spatial`: column x (the C loop steps the byte offset
   * x * channels), row y, then the three colour bytes of pixel (x, y).
   */
  method ConvolveInterior(data: array<Byte>, outdata: array<Byte>, w: int, h: int, c: int, kernel: array<int>, size: int, total: int)
    requires outdata != data && outdata.Length == data.Length
    requires forall q :: 0 <= q < outdata.Length ==> outdata[q] == 0
    requires w > 0 && h > 0 && (c == 3 || c == 4) && w * h * c <= data.Length
    requires size >= 1 && size % 2 == 1 && kernel.Length == size * size && total != 0
    modifies outdata
    ensures outdata[..] == Stage(data[..], w, h, c, kernel[..], size, total)
  {
    ghost var spec := Stage(data[..], w, h, c, kernel[..], size, total);
    var edgeSize := size / 2;
    WindowStart(outdata[..], spec, w, h, c, edgeSize);
    var x := edgeSize;
    while x < w - edgeSize
      invariant edgeSize <= x && (x <= w - edgeSize || x == edgeSize)
      invariant Filled(outdata[..], spec, w, c, x, edgeSize, 0)
      decreases w - x
    {
      var y := edgeSize;
      while y < h - edgeSize
        invariant edgeSize <= y && (y <= h - edgeSize || y == edgeSize)
        invariant Filled(outdata[..], spec, w, c, x, y, 0)
        decreases h - y
      {
        for k := 0 to 3
          invariant Filled(outdata[..], spec, w, c, x, y, k)
        {
          var v := ConvolveByte(data, w, h, c, kernel, size, total, x, y, k);
          StageAt(data[..], w, h, c, kernel[..], size, total, x, y, k);
          FilledStep(outdata[..], spec, w, c, x, y, k);
          outdata[Idx(x, y, k, w, c)] := v;
        }
        WindowNextRow(outdata[..], spec, w, h, c, edgeSize, x, y);
        y := y + 1;
      }
      WindowNextColumn(outdata[..], spec, w, h, c, edgeSize, x, y);
      x := x + 1;
    }
    WindowDone(outdata[..], spec, w, h, c, edgeSize, x);
  }

  /** The alpha loop of `spatial`: byte 3 of every four is copied from the input. */
  method CopyAlpha(data: array<Byte>, outdata: array<Byte>)
    requires outdata != data && outdata.Length == data.Length
    modifies outdata
    ensures outdata[..] == WithAlpha(old(outdata[..]), data[..], 4)
  {
    ghost var stage := outdata[..];
    var i := 3;
    while i < data.Length
      invariant i % 4 == 3 && i >= 3
      invariant forall q :: 0 <= q < data.Length ==> outdata[q] == if q % 4 == 3 && q < i then data[q] else stage[q]
      decreases data.Length - i
    {
      outdata[i] := data[i];
      i := i + 4;
    }
  }

  /** `spatial` (cCore.c): convolves into a fresh zeroed buffer; the input is not modified. */
  method Spatial(width: int, height: int, data: array<Byte>, filter: seq<int>, filterTotal: int) returns (r: Result<ImageData>)
    requires width > 0 && height > 0 && |filter| >= 1
    ensures r == SpatialSpec(width, height, data[..], filter, filterTotal)
  {
    var filterSize, kernel := ParseFilter(filter);
    var numberOfElements := filterSize * filterSize;
    var channels := data.Length / (width * height);
    if channels < 3 || channels > 4 {
      return Err(ValueError);
    }
    PixelBytesFit(data.Length, width, height);
    var outdata := new Byte[data.Length](_ => 0);
    var total := filterTotal;
    if total == 0 {
      for i := 0 to numberOfElements
        invariant total == Sum(kernel[..i])
      {
        assert kernel[..i + 1][..i] == kernel[..i];
        total := total + kernel[i];
      }
      assert kernel[..numberOfElements] == kernel[..];
      total := Abs(total);
    }
    if total == 0 {
      total := 1;
    }
    assert total == Divisor(kernel[..], filterTotal);
    ConvolveInterior(data, outdata, width, height, channels, kernel, filterSize, total);
    if channels == 4 {
      CopyAlpha(data, outdata);
    } else {
      assert outdata[..] == WithAlpha(outdata[..], data[..], channels);
    }
    return Ok(ImageData(width, height, outdata[..]));
  }

  // ----------------------------------------------------------- properties

  /**
   * Each byte of the result: alpha is the input's alpha; a colour byte of a
   * pixel the kernel fits around is |sum| / |divisor| clipped to 255; every
   * other colour byte is 0.
   */
  lemma SpatialAt(width: int, height: int, s: seq<Byte>, filter: seq<int>, filterTotal: int, x: int, y: int, k: int)
    requires width > 0 && height > 0 && |filter| >= 1
    requires SpatialSpec(width, height, s, filter, filterTotal).Ok?
    requires 0 <= x < width && 0 <= y < height && 0 <= k < ChannelCount(|s|, width, height)
    ensures width * height * ChannelCount(|s|, width, height) <= |s|
    ensures 0 <= Idx(x, y, k, width, ChannelCount(|s|, width, height)) < |s|
    ensures var c := ChannelCount(|s|, width, height);
      var size := FilterSize(|filter|);
      var kernel := filter[..size * size];
      var out := SpatialSpec(width, height, s, filter, filterTotal).value.data;
      var q := Idx(x, y, k, width, c);
      out[q] == if k == 3 then s[q]
                else if Inside(width, height, size, x, y) then
                  Clip(Abs(ConvSum(s, width, height, c, kernel, size, x, y, k, size * size)) / Abs(Divisor(kernel, filterTotal)))
                else 0
  {
    var c := ChannelCount(|s|, width, height);
    var size := FilterSize(|filter|);
    var kernel := filter[..size * size];
    var total := Divisor(kernel, filterTotal);
    var q := Idx(x, y, k, width, c);
    SpatialData(width, height, s, filter, filterTotal);
    IdxBound(x, y, k, width, height, c);
    DecodeIdx(x, y, k, width, c);
    var stage := Stage(s, width, height, c, kernel, size, total);
    assert WithAlpha(stage, s, c)[q] == if c == 4 && q % 4 == 3 then s[q] else stage[q];
    if k < 3 {
      if Inside(width, height, size, x, y) {
        StageAt(s, width, height, c, kernel, size, total, x, y, k);
        AbsCDiv(ConvSum(s, width, height, c, kernel, size, x, y, k, size * size), total);
      } else {
        InteriorIdx(x, y, k, width, height, c, size / 2);
      }
    }
  }

  /** The data of a successful call, named by its two stages. */
  lemma SpatialData(width: int, height: int, s: seq<Byte>, filter: seq<int>, filterTotal: int)
    requires width > 0 && height > 0 && |filter| >= 1
    requires SpatialSpec(width, height, s, filter, filterTotal).Ok?
    ensures width * height * ChannelCount(|s|, width, height) <= |s|
    ensures Divisor(filter[..FilterSize(|filter|) * FilterSize(|filter|)], filterTotal) != 0
    ensures var c := ChannelCount(|s|, width, height);
      var size := FilterSize(|filter|);
      var kernel := filter[..size * size];
      SpatialSpec(width, height, s, filter, filterTotal).value.data
        == WithAlpha(Stage(s, width, height, c, kernel, size, Divisor(kernel, filterTotal)), s, c)
  {
    PixelBytesFit(|s|, width, height);
    var size := FilterSize(|filter|);
    DivisorCases(filter[..size * size], filterTotal);
  }

  /** On a buffer whose bytes all equal v, the weighted sum is v times the kernel's sum. */
  lemma {:induction false} ConvUniform(s: seq<Byte>, w: int, h: int, c: int, kernel: seq<int>, size: int, x: int, y: int, k: int, m: int, v: int)
    requires w > 0 && h > 0 && c > 0 && w * h * c <= |s|
    requires size >= 1 && size % 2 == 1 && size * size <= |kernel|
    requires Inside(w, h, size, x, y) && 0 <= k < c && 0 <= m <= size * size
    requires forall q :: 0 <= q < |s| ==> s[q] == v
    ensures ConvSum(s, w, h, c, kernel, size, x, y, k, m) == v * Sum(kernel[..m])
    decreases m
  {
    if m > 0 {
      ConvUniform(s, w, h, c, kernel, size, x, y, k, m - 1, v);
      NeighbourIdx(x, y, k, w, h, c, size, m - 1);
      var q := Idx(x + (m - 1) % size - size / 2, y + (m - 1) / size - size / 2, k, w, c);
      assert s[q] == v;
      SumScaledStep(kernel[..m], v);
      assert kernel[..m][..m - 1] == kernel[..m - 1];
    }
  }

  /** On a uniform buffer every computed colour byte is |v * sum| / |divisor|, clipped. */
  lemma SpatialUniform(width: int, height: int, s: seq<Byte>, filter: seq<int>, filterTotal: int, v: int, x: int, y: int, k: int)
    requires width > 0 && height > 0 && |filter| >= 1
    requires SpatialSpec(width, height, s, filter, filterTotal).Ok?
    requires forall q :: 0 <= q < |s| ==> s[q] == v
    requires 0 <= x < width && 0 <= y < height && 0 <= k < 3
    ensures 0 <= Idx(x, y, k, width, ChannelCount(|s|, width, height)) < |s|
    ensures var size := FilterSize(|filter|);
      var kernel := filter[..size * size];
      var out := SpatialSpec(width, height, s, filter, filterTotal).value.data;
      out[Idx(x, y, k, width, ChannelCount(|s|, width, height))]
        == if Inside(width, height, size, x, y) then Clip(Abs(v * Sum(kernel)) / Abs(Divisor(kernel, filterTotal))) else 0
  {
    var c := ChannelCount(|s|, width, height);
    var size := FilterSize(|filter|);
    var kernel := filter[..size * size];
    SpatialAt(width, height, s, filter, filterTotal, x, y, k);
    if Inside(width, height, size, x, y) {
      PixelBytesFit(|s|, width, height);
      ConvUniform(s, width, height, c, kernel, size, x, y, k, size * size, v);
      assert kernel[..size * size] == kernel;
    }
  }

  /** Byte k of pixel (x, y) of an image whose pixels lie in the buffer. */
  function Pixel(s: seq<Byte>, w: int, h: int, c: int, x: int, y: int, k: int): Byte
    requires w > 0 && h > 0 && c > 0 && w * h * c <= |s|
    requires 0 <= x < w && 0 <= y < h && 0 <= k < c
  {
    IdxBound(x, y, k, w, h, c);
    s[Idx(x, y, k, w, c)]
  }

  /** With a 3 x 3 kernel the weighted sum has nine terms, one per neighbour, row by row. */
  lemma ConvSumNine(s: seq<Byte>, w: int, h: int, c: int, kernel: seq<int>, x: int, y: int, k: int)
    requires w > 0 && h > 0 && c > 0 && w * h * c <= |s|
    requires 9 <= |kernel| && Inside(w, h, 3, x, y) && 0 <= k < c
    ensures ConvSum(s, w, h, c, kernel, 3, x, y, k, 9)
         == Pixel(s, w, h, c, x - 1, y - 1, k) * kernel[0] + Pixel(s, w, h, c, x, y - 1, k) * kernel[1]
          + Pixel(s, w, h, c, x + 1, y - 1, k) * kernel[2] + Pixel(s, w, h, c, x - 1, y, k) * kernel[3]
          + Pixel(s, w, h, c, x, y, k) * kernel[4] + Pixel(s, w, h, c, x + 1, y, k) * kernel[5]
          + Pixel(s, w, h, c, x - 1, y + 1, k) * kernel[6] + Pixel(s, w, h, c, x, y + 1, k) * kernel[7]
          + Pixel(s, w, h, c, x + 1, y + 1, k) * kernel[8]
  {
    assert ConvSum(s, w, h, c, kernel, 3, x, y, k, 1) == Pixel(s, w, h, c, x - 1, y - 1, k) * kernel[0];
    assert ConvSum(s, w, h, c, kernel, 3, x, y, k, 2)
        == ConvSum(s, w, h, c, kernel, 3, x, y, k, 1) + Pixel(s, w, h, c, x, y - 1, k) * kernel[1];
    assert ConvSum(s, w, h, c, kernel, 3, x, y, k, 3)
        == ConvSum(s, w, h, c, kernel, 3, x, y, k, 2) + Pixel(s, w, h, c, x + 1, y - 1, k) * kernel[2];
    assert ConvSum(s, w, h, c, kernel, 3, x, y, k, 4)
        == ConvSum(s, w, h, c, kernel, 3, x, y, k, 3) + Pixel(s, w, h, c, x - 1, y, k) * kernel[3];
    assert ConvSum(s, w, h, c, kernel, 3, x, y, k, 5)
        == ConvSum(s, w, h, c, kernel, 3, x, y, k, 4) + Pixel(s, w, h, c, x, y, k) * kernel[4];
    assert ConvSum(s, w, h, c, kernel, 3, x, y, k, 6)
        == ConvSum(s, w, h, c, kernel, 3, x, y, k, 5) + Pixel(s, w, h, c, x + 1, y, k) * kernel[5];
    assert ConvSum(s, w, h, c, kernel, 3, x, y, k, 7)
        == ConvSum(s, w, h, c, kernel, 3, x, y, k, 6) + Pixel(s, w, h, c, x - 1, y + 1, k) * kernel[6];
    assert ConvSum(s, w, h, c, kernel, 3, x, y, k, 8)
        == ConvSum(s, w, h, c, kernel, 3, x, y, k, 7) + Pixel(s, w, h, c, x, y + 1, k) * kernel[7];
  }
}
