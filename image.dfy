/*
 * The Image container of image.py: a width, a height, the interleaved
 * bytes and a channel count fixed when the image is made, with strided
 * views of single channels.
 */
module ImageContainer {
  import opened Core
  import opened Errors

  // ------------------------------------------------------------ helpers

  /** Python's `a // b` for a non-negative a: the quotient rounded down. */
  function FloorDiv(a: int, b: int): (q: int)
    requires a >= 0 && b != 0
    ensures b > 0 ==> q == a / b
    ensures b < 0 ==> q <= 0
    ensures q * b <= a < q * b + b || q * b + b < a <= q * b
  {
    if b > 0 then a / b
    else
      var d := -b;
      var t := (a + d - 1) / d;
      assert a + d - 1 == t * d + (a + d - 1) % d;
      -t
  }

  /** `s[start::step]`: every step-th element from start on. */
  function Strided(s: seq<Byte>, start: nat, step: nat): (r: seq<Byte>)
    requires step >= 1
    ensures start >= |s| ==> |r| == 0
    ensures start < |s| ==> StrideLength(|s|, start, step, |r|)
    ensures StrideElements(s, start, step, r)
    decreases |s| - start
  {
    if start >= |s| then []
    else
      var rest := Strided(s, start + step, step);
      StridedCons(s, start, step, rest);
      [s[start]] + rest
  }

  /** A view of len entries is exactly as long as a buffer of n bytes allows. */
  predicate StrideLength(n: nat, start: nat, step: nat, len: nat)
  {
    start + (len - 1) * step < n <= start + len * step
  }

  /** Entry j of the view is byte start + j * step. */
  predicate StrideElements(s: seq<Byte>, start: nat, step: nat, r: seq<Byte>)
  {
    forall j {:trigger r[j]} :: 0 <= j < |r| ==> start + j * step < |s| && r[j] == s[start + j * step]
  }

  /** Prepending byte start extends the view that starts one step further on. */
  lemma StridedCons(s: seq<Byte>, start: nat, step: nat, rest: seq<Byte>)
    requires step >= 1 && start < |s|
    requires start + step >= |s| ==> |rest| == 0
    requires start + step < |s| ==> StrideLength(|s|, start + step, step, |rest|)
    requires StrideElements(s, start + step, step, rest)
    ensures StrideLength(|s|, start, step, |rest| + 1)
    ensures StrideElements(s, start, step, [s[start]] + rest)
  {
    var r := [s[start]] + rest;
    assert start + step + (|rest| - 1) * step == start + |rest| * step;
    assert start + step + |rest| * step == start + (|rest| + 1) * step;
    if start + step >= |s| {
      assert |r| == 1 && (|r| - 1) * step == 0;
    }
    forall j | 1 <= j < |r|
      ensures start + j * step < |s| && r[j] == s[start + j * step]
    {
      assert r[j] == rest[j - 1];
      assert start + step + (j - 1) * step == start + j * step;
    }
  }

  /** Multiplying by a non-negative factor keeps the order. */
  lemma MulMono(a: int, b: int, c: int)
    requires a <= b && c >= 0
    ensures a * c <= b * c
  {
    assert b * c - a * c == (b - a) * c;
  }

  /** Every byte k + j * step with k < step lies in the view starting at k, at entry j. */
  lemma StridedAt(s: seq<Byte>, step: nat, k: nat, j: nat)
    requires step >= 1 && k < step && k + j * step < |s|
    ensures j < |Strided(s, k, step)| && Strided(s, k, step)[j] == s[k + j * step]
  {
    var r := Strided(s, k, step);
    if j >= |r| {
      MulMono(|r|, j, step);
      assert false;
    }
  }

  /** Byte i of the buffer is entry i / step of the view starting at i % step. */
  lemma StridedCovers(s: seq<Byte>, step: nat, i: int)
    requires step >= 1 && 0 <= i < |s|
    ensures i / step < |Strided(s, i % step, step)| && Strided(s, i % step, step)[i / step] == s[i]
  {
    var k, j := i % step, i / step;
    assert i == k + j * step;
    StridedAt(s, step, k, j);
  }
  /** A view of a buffer of p * c bytes with 0 <= k < c has p entries. */
  lemma StridedLength(s: seq<Byte>, k: nat, c: nat, p: nat)
    requires 0 <= k < c && |s| == p * c
    ensures |Strided(s, k, c)| == p
  {
    var r := Strided(s, k, c);
    if p == 0 {
      assert k >= |s|;
    } else if |r| > p {
      MulMono(p, |r| - 1, c);
      assert false;
    } else if |r| < p {
      MulMono(|r|, p - 1, c);
      assert false;
    }
  }

  // ------------------------------------------------------------ channels

  /**
   * The channel count `__init__` settles on, or the exception that escapes.
   * Empty data means 3 channels. Otherwise the count is len // (w * h), and
   * a count other than 3 or 4 should raise ValueError, but the message is
   * formatted with `%` applied to the count alone, so the formatting raises
   * TypeError first. A zero area divides by zero.
   */
  function InitChannels(width: int, height: int, n: nat): (r: Result<int>)
    ensures n == 0 ==> r == Ok(3)
    ensures n > 0 && width * height == 0 ==> r == Err(ZeroDivisionError)
    ensures r.Ok? ==> r.value == 3 || r.value == 4
    ensures n > 0 && width * height > 0 ==> (r.Ok? <==> 3 <= n / (width * height) <= 4)
    ensures n > 0 && width * height < 0 ==> r == Err(TypeError)
    ensures r.Err? ==> r.error == ZeroDivisionError || r.error == TypeError
  {
    if n == 0 then Ok(3)
    else if width * height == 0 then Err(ZeroDivisionError)
    else
      var c := FloorDiv(n, width * height);
      if c == 3 || c == 4 then Ok(c) else Err(TypeError)
  }

  /** The check with the message formatted as evidently intended: ValueError. */
  function InitChannelsIntended(width: int, height: int, n: nat): (r: Result<int>)
    ensures r.Ok? <==> InitChannels(width, height, n).Ok?
    ensures r.Ok? ==> r.value == InitChannels(width, height, n).value
    ensures r.Err? ==> r.error == (if n > 0 && width * height == 0 then ZeroDivisionError else ValueError)
  {
    match InitChannels(width, height, n)
    case Ok(c) => Ok(c)
    case Err(e) => if e == TypeError then Err(ValueError) else Err(e)
  }

  /** A 1 x 1 image with five bytes escapes with TypeError, not the intended ValueError. */
  lemma InitRaisesTypeError()
    ensures InitChannels(1, 1, 5) == Err(TypeError)
    ensures InitChannelsIntended(1, 1, 5) == Err(ValueError)
  {
  }

  /** The data an image is evidently meant to hold: a black RGB buffer when none is given. */
  function InitDataIntended(width: int, height: int, data: seq<Byte>): (r: seq<Byte>)
    requires width >= 0 && height >= 0
    ensures |data| > 0 ==> r == data
    ensures |data| == 0 ==> |r| == width * height * 3 && forall i :: 0 <= i < |r| ==> r[i] == 0
  {
    if |data| > 0 then data else seq(width * height * 3, _ => 0)
  }

  // --------------------------------------------------------------- class

  class Image {
    var width: int
    var height: int
    var data: seq<Byte>
    var channels: int

    /** The channel count is the one `__init__` derived from the data it was given. */
    ghost predicate Valid()
      reads this
    {
      InitChannels(width, height, |data|) == Ok(channels)
    }

    constructor Make(width: int, height: int, data: seq<Byte>, channels: int)
      ensures this.width == width && this.height == height && this.data == data && this.channels == channels
    {
      this.width := width;
      this.height := height;
      this.data := data;
      this.channels := channels;
    }

    /**
     * `Image(width, height, data)`. The black buffer made for empty data is
     * bound to a local name, so the image keeps the empty data.
     */
    static method Create(width: int, height: int, data: seq<Byte>) returns (r: Result<Image>)
      ensures r.Err? <==> InitChannels(width, height, |data|).Err?
      ensures r.Err? ==> r.error == InitChannels(width, height, |data|).error
      ensures r.Ok? ==> fresh(r.value) && r.value.Valid()
      ensures r.Ok? ==> r.value.width == width && r.value.height == height && r.value.data == data
      ensures r.Ok? ==> r.value.channels == InitChannels(width, height, |data|).value
    {
      var channels := 3;
      if |data| > 0 {
        if width * height == 0 {
          return Err(ZeroDivisionError);
        }
        channels := FloorDiv(|data|, width * height);
        if !(channels == 3 || channels == 4) {
          return Err(TypeError);
        }
      }
      var image := new Image.Make(width, height, data, channels);
      return Ok(image);
    }

    /** `copy()`: a new image over a copy of the bytes; it cannot fail for a made image. */
    method Copy() returns (r: Result<Image>)
      requires Valid()
      ensures r.Ok? && fresh(r.value) && r.value.Valid()
      ensures r.value.width == width && r.value.height == height
      ensures r.value.data == data && r.value.channels == channels
    {
      r := Create(width, height, data);
    }

    /** `hasAlpha()`: four channels, RGBA. */
    function HasAlpha(): (r: bool)
      reads this
      ensures r <==> channels == 4
    {
      channels == 4
    }

    /**
     * `getAlpha()`: False (None here) without an alpha channel, otherwise
     * `data[::4]`, every fourth byte from byte 0, which is the red channel.
     */
    function GetAlpha(): (r: Option<seq<Byte>>)
      reads this
      ensures r.None? <==> !HasAlpha()
      ensures r.Some? ==> r.value == Strided(data, 0, 4)
    {
      if !HasAlpha() then None else Some(Strided(data, 0, 4))
    }

    /** The alpha channel as evidently intended: `data[3::4]`. */
    function AlphaChannel(): (r: Option<seq<Byte>>)
      reads this
      ensures r.None? <==> !HasAlpha()
      ensures r.Some? ==> forall j :: 0 <= j < |r.value| ==> 4 * j + 3 < |data| && r.value[j] == data[4 * j + 3]
    {
      if !HasAlpha() then None else Some(Strided(data, 3, 4))
    }

    /** `getRed()`: `data[::channels]`. */
    function GetRed(): (r: seq<Byte>)
      reads this
      requires Valid()
      ensures r == Strided(data, 0, channels)
    {
      Strided(data, 0, channels)
    }

    /** `getGreen()`: `data[1::channels]`. */
    function GetGreen(): (r: seq<Byte>)
      reads this
      requires Valid()
      ensures r == Strided(data, 1, channels)
    {
      Strided(data, 1, channels)
    }

    /** `getBlue()`: `data[2::channels]`. */
    function GetBlue(): (r: seq<Byte>)
      reads this
      requires Valid()
      ensures r == Strided(data, 2, channels)
    {
      Strided(data, 2, channels)
    }

    /** `getSize()`: the pair (width, height). */
    function GetSize(): (r: (int, int))
      reads this
      ensures r.0 == width && r.1 == height
    {
      (width, height)
    }

    /**
     * `setData(data)`: the check reads the names `width` and `height`, which
     * are bound neither in the method nor in the module, so every call
     * raises NameError and the image is left as it was.
     */
    method SetData(newData: seq<Byte>) returns (r: Result<bool>)
      ensures r == Err(NameError)
    {
      return Err(NameError);
    }

    /** `setData` as evidently intended: the check on the image's own sides, then the new bytes. */
    method SetDataIntended(newData: seq<Byte>) returns (r: Result<bool>)
      requires width * height > 0
      modifies this
      ensures r.Ok? <==> 3 <= |newData| / (old(width) * old(height)) <= 4
      ensures r.Ok? ==> r.value && data == newData
      ensures r.Err? ==> r.error == ValueError && data == old(data)
      ensures width == old(width) && height == old(height) && channels == old(channels)
    {
      var c := |newData| / (width * height);
      if !(c == 3 || c == 4) {
        return Err(ValueError);
      }
      data := newData;
      return Ok(true);
    }
  }

  // ----------------------------------------------------------- properties

  /** Alpha as written is the red view: for an RGBA image the two are the same bytes. */
  lemma AlphaIsRed(image: Image)
    requires image.Valid() && image.HasAlpha()
    ensures image.GetAlpha() == Some(image.GetRed())
  {
  }

  /** A one-pixel RGBA image (1, 2, 3, 4): getAlpha gives [1], the alpha byte is 4. */
  lemma AlphaCounterexample(image: Image)
    requires image.data == [1, 2, 3, 4] && image.channels == 4
    ensures image.GetAlpha() == Some([1])
    ensures image.AlphaChannel() == Some([4])
  {
    var red, alpha := Strided(image.data, 0, 4), Strided(image.data, 3, 4);
    assert |red| == 1 && red[0] == 1;
    assert |alpha| == 1 && alpha[0] == 4;
    assert red == [1] && alpha == [4];
  }

  /**
   * The views partition the bytes: byte i is entry i / channels of the view
   * for channel i % channels (red, green, blue, and for RGBA the intended alpha).
   */
  lemma ViewsCoverData(image: Image, i: int)
    requires image.Valid() && 0 <= i < |image.data|
    ensures var k, j := i % image.channels, i / image.channels;
      (k == 0 ==> j < |image.GetRed()| && image.GetRed()[j] == image.data[i])
      && (k == 1 ==> j < |image.GetGreen()| && image.GetGreen()[j] == image.data[i])
      && (k == 2 ==> j < |image.GetBlue()| && image.GetBlue()[j] == image.data[i])
      && (k == 3 ==> j < |image.AlphaChannel().value| && image.AlphaChannel().value[j] == image.data[i])
  {
    StridedCovers(image.data, image.channels, i);
  }

  /** For a whole buffer of w * h pixels each view has one entry per pixel. */
  lemma ViewLengths(image: Image, k: nat)
    requires image.Valid() && k < image.channels && image.width > 0 && image.height > 0
    requires |image.data| == image.width * image.height * image.channels
    ensures |Strided(image.data, k, image.channels)| == image.width * image.height
  {
    MulPositive(image.width, image.height);
    StridedLength(image.data, k, image.channels, image.width * image.height);
  }

  /** An image made with no data has 3 channels but keeps no bytes, so its views are empty. */
  lemma EmptyImageHasNoPixels(width: int, height: int)
    requires width > 0 && height > 0
    ensures InitChannels(width, height, 0) == Ok(3)
    ensures |Strided([], 0, 3)| == 0
    ensures |InitDataIntended(width, height, [])| == width * height * 3
  {
    MulPositive(width, height);
  }

  lemma MulPositive(a: int, b: int)
    requires a > 0 && b > 0
    ensures a * b > 0
  {
  }
}
