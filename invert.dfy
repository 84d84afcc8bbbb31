/*
 * The invert extension: every colour byte of every pixel but the last is
 * XORed with 0xff, in place. The loop stops one pixel early because its
 * bound is `dataLen - channels`.
 */
module Invert {
  import opened Core
  import opened Errors
  import opened Raster

  /**
   * `v ^ 0xff` on an unsigned char flips all eight bits; on the byte's value
   * that is subtraction from 255 (XorFF states the bit-level fact).
   */
  function FlipByte(v: Byte): (r: Byte)
    ensures r + v == 255
  {
    255 - v
  }

  /** XOR with 0xff is the eight-bit complement 0xff - b. */
  lemma XorFF(b: bv8)
    ensures b ^ 0xFF == 0xFF - b
    ensures (b ^ 0xFF) ^ 0xFF == b
  {
  }

  /** The colour map of `invert`: each colour byte flipped. */
  function Flip(p: Pixel3): Pixel3
  {
    Pixel3(FlipByte(p.red), FlipByte(p.green), FlipByte(p.blue))
  }

  /** Flipping twice is the identity. */
  lemma FlipFlip(p: Pixel3)
    ensures Flip(Flip(p)) == p
  {
  }

  /** A valid channel count leaves room for at least one pixel: the loop bound is not negative. */
  lemma LastPixelStart(n: int, width: int, height: int)
    requires width > 0 && height > 0 && n >= 0
    requires CheckChannels(n, width, height).Ok?
    ensures ChannelCount(n, width, height) <= n
  {
    var c := ChannelCount(n, width, height);
    PixelBytesFit(n, width, height);
    MulLe(1, width * height, c);
  }

  /**
   * Where the loop `for (i = 0; i < dataLen - channels; i += channels)`
   * stops: the first pixel start at or past dataLen - channels. Every pixel
   * before it is whole.
   */
  function FlipEnd(n: int, c: int): (e: int)
    requires (c == 3 || c == 4) && n >= c
    ensures 0 <= e && Aligned(e, c) && n - c <= e < n
  {
    if c == 3 then
      var q := (n - 1) / 3;
      assert 3 * q <= n - 1 < 3 * q + 3 && (3 * q) % 3 == 0;
      q * 3
    else
      var q := (n - 1) / 4;
      assert 4 * q <= n - 1 < 4 * q + 4 && (4 * q) % 4 == 0;
      q * 4
  }

  /** A pixel start is below FlipEnd exactly when the loop visits it, and FlipEnd is the one pixel start in the last c bytes. */
  lemma FlipEndVisits(n: int, c: int, i: int)
    requires (c == 3 || c == 4) && n >= c
    requires 0 <= i && Aligned(i, c)
    ensures i < n - c <==> i + c <= FlipEnd(n, c)
    ensures n - c <= i < n ==> i == FlipEnd(n, c)
  {
    if c == 3 {} else {}
  }

  /** The buffer with every pixel the loop visits flipped and the bytes from FlipEnd on kept. */
  function AllButLast(s: seq<Byte>, c: int): (r: seq<Byte>)
    requires (c == 3 || c == 4) && c <= |s|
    ensures |r| == |s|
  {
    var e := FlipEnd(|s|, c);
    RecolourPreservesLength(Flip, c);
    MapPixelsLength(s[..e], c, Recolour(Flip));
    MapPixels(s[..e], c, Recolour(Flip)) + s[e..]
  }

  /** Each colour byte of a pixel the loop visits becomes 255 - v; its alpha is kept. */
  lemma AllButLastAt(s: seq<Byte>, c: int, i: int)
    requires (c == 3 || c == 4) && c <= |s|
    requires 0 <= i < |s| - c && Aligned(i, c)
    ensures var out := AllButLast(s, c);
      && out[i] == 255 - s[i] && out[i + 1] == 255 - s[i + 1] && out[i + 2] == 255 - s[i + 2]
      && (c == 4 ==> out[i + 3] == s[i + 3])
  {
    var e := FlipEnd(|s|, c);
    var t := s[..e];
    FlipEndVisits(|s|, c, i);
    RecolourAt(t, c, Flip, i);
    var m := MapPixels(t, c, Recolour(Flip));
    AllButLastFront(s, c);
    assert Pixel3At(t, i) == Pixel3At(s, i);
    assert m[i] == FlipByte(s[i]) && m[i + 1] == FlipByte(s[i + 1]) && m[i + 2] == FlipByte(s[i + 2]);
    if c == 4 {
      assert t[i + 3] == s[i + 3];
    }
  }

  /** Before FlipEnd the output is the flipped prefix. */
  lemma AllButLastFront(s: seq<Byte>, c: int)
    requires (c == 3 || c == 4) && c <= |s|
    ensures var e := FlipEnd(|s|, c);
      |MapPixels(s[..e], c, Recolour(Flip))| == e
      && forall j :: 0 <= j < e ==> AllButLast(s, c)[j] == MapPixels(s[..e], c, Recolour(Flip))[j]
  {
    var e := FlipEnd(|s|, c);
    RecolourPreservesLength(Flip, c);
    MapPixelsLength(s[..e], c, Recolour(Flip));
    assert AllButLast(s, c) == MapPixels(s[..e], c, Recolour(Flip)) + s[e..];
  }

  /** The bytes from FlipEnd on are the input's. */
  lemma AllButLastTail(s: seq<Byte>, c: int)
    requires (c == 3 || c == 4) && c <= |s|
    ensures forall j :: FlipEnd(|s|, c) <= j < |s| ==> AllButLast(s, c)[j] == s[j]
  {
    var e := FlipEnd(|s|, c);
    var m := MapPixels(s[..e], c, Recolour(Flip));
    var out := AllButLast(s, c);
    assert out == m + s[e..];
    forall j | e <= j < |s| ensures out[j] == s[j] {
      assert out[j] == s[e..][j - e];
    }
  }

  /** Flipping every pixel of a buffer twice restores it. */
  lemma FlipTwice(s: seq<Byte>, c: int)
    requires c == 3 || c == 4
    ensures MapPixels(MapPixels(s, c, Recolour(Flip)), c, Recolour(Flip)) == s
  {
    var id := (p: Pixel3) => p;
    forall p: Pixel3 ensures id(p) == Flip(Flip(p)) {
      FlipFlip(p);
    }
    RecolourCompose(s, c, Flip, Flip, id);
    RecolourIdentity(s, c, id);
  }

  /** The same pixels are flipped both times, so two passes restore the buffer. */
  lemma AllButLastTwice(s: seq<Byte>, c: int)
    requires (c == 3 || c == 4) && c <= |s|
    ensures AllButLast(AllButLast(s, c), c) == s
  {
    var e := FlipEnd(|s|, c);
    var m := MapPixels(s[..e], c, Recolour(Flip));
    var once := AllButLast(s, c);
    assert once == m + s[e..];
    assert once[..e] == m && once[e..] == s[e..];
    FlipTwice(s[..e], c);
    assert s == s[..e] + s[e..];
  }

  /** `invert_execute` as written: the channel check, then the pixels before dataLen - channels flipped. */
  function InvertSpec(width: int, height: int, s: seq<Byte>): (r: Result<ImageData>)
    requires width > 0 && height > 0
    ensures r.Err? <==> CheckChannels(|s|, width, height).Err?
    ensures r.Err? ==> r.error == ValueError
    ensures r.Ok? ==> r.value.width == width && r.value.height == height && |r.value.data| == |s|
  {
    match CheckChannels(|s|, width, height)
    case Err(e) => Err(e)
    case Ok(channels) =>
      LastPixelStart(|s|, width, height);
      Ok(ImageData(width, height, AllButLast(s, channels)))
  }

  /** `invert_execute` (invert.c), in place; its loop never leaves the buffer, whatever the length. */
  method Invert(width: int, height: int, data: array<Byte>) returns (r: Result<ImageData>)
    requires width > 0 && height > 0
    modifies data
    ensures r == InvertSpec(width, height, old(data[..]))
    ensures data[..] == if r.Ok? then r.value.data else old(data[..])
  {
    var channels := data.Length / (width * height);
    if channels < 3 || channels > 4 {
      return Err(ValueError);
    }
    LastPixelStart(data.Length, width, height);
    FlipLoop(data, channels);
    return Ok(ImageData(width, height, data[..]));
  }

  /** The XOR loop of `invert_execute`: it stops before the last pixel. */
  method FlipLoop(data: array<Byte>, channels: int)
    requires (channels == 3 || channels == 4) && channels <= data.Length
    modifies data
    ensures data[..] == AllButLast(old(data[..]), channels)
  {
    ghost var s := data[..];
    ghost var e := FlipEnd(data.Length, channels);
    var i := 0;
    while i < data.Length - channels
      invariant i <= e
      invariant MappedUpTo(data[..], s, channels, Recolour(Flip), i)
      decreases data.Length - i
    {
      FlipEndVisits(data.Length, channels, i);
      assert data[i..i + 3] == s[i..i + 3];
      var p := Flip(Pixel3(data[i], data[i + 1], data[i + 2]));
      RecolourStep(data[..], s, channels, Flip, i, p);
      data[i] := p.red;
      data[i + 1] := p.green;
      data[i + 2] := p.blue;
      i := i + channels;
    }
    FlipEndVisits(data.Length, channels, i);
    assert data[..] == data[..i] + data[i..];
  }

  /** Each colour byte of every pixel starting before dataLen - channels becomes 255 - v; alpha is kept. */
  lemma InvertAt(width: int, height: int, s: seq<Byte>, i: int)
    requires width > 0 && height > 0
    requires InvertSpec(width, height, s).Ok?
    requires 0 <= i < |s| - ChannelCount(|s|, width, height) && Aligned(i, ChannelCount(|s|, width, height))
    ensures var out := InvertSpec(width, height, s).value.data;
      && out[i] == 255 - s[i] && out[i + 1] == 255 - s[i + 1] && out[i + 2] == 255 - s[i + 2]
      && (ChannelCount(|s|, width, height) == 4 ==> out[i + 3] == s[i + 3])
  {
    var c := ChannelCount(|s|, width, height);
    LastPixelStart(|s|, width, height);
    AllButLastAt(s, c, i);
    assert InvertSpec(width, height, s).value.data == AllButLast(s, c);
  }

  /**
   * The pixel starting at or past dataLen - channels is never visited: it and
   * every byte after it, alpha included, come out as they went in.
   */
  lemma InvertLastPixel(width: int, height: int, s: seq<Byte>, i: int)
    requires width > 0 && height > 0
    requires InvertSpec(width, height, s).Ok?
    requires |s| - ChannelCount(|s|, width, height) <= i < |s| && Aligned(i, ChannelCount(|s|, width, height))
    ensures forall j :: i <= j < |s| ==> InvertSpec(width, height, s).value.data[j] == s[j]
  {
    LastPixelStart(|s|, width, height);
    var c := ChannelCount(|s|, width, height);
    FlipEndVisits(|s|, c, i);
    AllButLastTail(s, c);
    assert InvertSpec(width, height, s).value.data == AllButLast(s, c);
  }

  /** Inverting twice restores the buffer. */
  lemma InvertInvolution(width: int, height: int, s: seq<Byte>)
    requires width > 0 && height > 0
    requires InvertSpec(width, height, s).Ok?
    ensures var once := InvertSpec(width, height, s).value.data;
      InvertSpec(width, height, once) == Ok(ImageData(width, height, s))
  {
    var c := ChannelCount(|s|, width, height);
    LastPixelStart(|s|, width, height);
    var once := AllButLast(s, c);
    assert InvertSpec(width, height, s).value.data == once;
    assert ChannelCount(|once|, width, height) == c;
    AllButLastTwice(s, c);
  }

  /** `invert_execute` as evidently intended: every pixel flipped, the last one included. */
  function InvertAllSpec(width: int, height: int, s: seq<Byte>): (r: Result<ImageData>)
    requires width > 0 && height > 0
    ensures r.Err? <==> CheckChannels(|s|, width, height).Err?
    ensures r.Ok? ==> r.value.width == width && r.value.height == height && |r.value.data| == |s|
  {
    match CheckChannels(|s|, width, height)
    case Err(e) => Err(e)
    case Ok(channels) =>
      RecolourPreservesLength(Flip, channels);
      MapPixelsLength(s, channels, Recolour(Flip));
      Ok(ImageData(width, height, MapPixels(s, channels, Recolour(Flip))))
  }

  /** The intended inversion flips every pixel whose colour bytes lie in the buffer, the last one included. */
  lemma InvertAllAt(width: int, height: int, s: seq<Byte>, i: int)
    requires width > 0 && height > 0
    requires InvertAllSpec(width, height, s).Ok?
    requires 0 <= i && i + 2 < |s| && Aligned(i, ChannelCount(|s|, width, height))
    ensures var out := InvertAllSpec(width, height, s).value.data;
      && out[i] == 255 - s[i] && out[i + 1] == 255 - s[i + 1] && out[i + 2] == 255 - s[i + 2]
      && (ChannelCount(|s|, width, height) == 4 && i + 3 < |s| ==> out[i + 3] == s[i + 3])
  {
    var c := ChannelCount(|s|, width, height);
    RecolourAt(s, c, Flip, i);
    var out := InvertAllSpec(width, height, s).value.data;
    assert out == MapPixels(s, c, Recolour(Flip));
    assert Pixel3At(out, i) == Flip(Pixel3At(s, i));
  }

  /** The intended inversion undoes itself. */
  lemma InvertAllInvolution(width: int, height: int, s: seq<Byte>)
    requires width > 0 && height > 0
    requires InvertAllSpec(width, height, s).Ok?
    ensures var once := InvertAllSpec(width, height, s).value.data;
      InvertAllSpec(width, height, once) == Ok(ImageData(width, height, s))
  {
    FlipTwice(s, ChannelCount(|s|, width, height));
  }

  /** A single black pixel: the loop never runs, so it stays black instead of turning white. */
  lemma InvertSkipsOnlyPixel()
    ensures InvertSpec(1, 1, [0, 0, 0]) == Ok(ImageData(1, 1, [0, 0, 0]))
    ensures InvertAllSpec(1, 1, [0, 0, 0]) == Ok(ImageData(1, 1, [255, 255, 255]))
  {
    var s: seq<Byte> := [0, 0, 0];
    assert CheckChannels(3, 1, 1) == Ok(3);
    assert s[..0] == [] && s[0..] == s;
    assert MapPixels([], 3, Recolour(Flip)) == [];
    assert ChannelCount(3, 1, 1) == 3;
    assert InvertSpec(1, 1, s).Ok?;
    assert InvertSpec(1, 1, s).value.data == MapPixels(s[..0], 3, Recolour(Flip)) + s[0..];
    assert MapPixels(s[..0], 3, Recolour(Flip)) + s[0..] == s;
    InvertAllAt(1, 1, s, 0);
    var out := InvertAllSpec(1, 1, s).value.data;
    assert out == [out[0], out[1], out[2]];
  }

  /**
   * A buffer that is not a whole number of pixels: 1 x 2 with 7 bytes has 3
   * channels, the loop visits offsets 0 and 3 (both below 7 - 3), and the
   * trailing byte is kept.
   */
  lemma InvertPartialBuffer()
    ensures InvertSpec(1, 2, [0, 0, 0, 0, 0, 0, 0]) == Ok(ImageData(1, 2, [255, 255, 255, 255, 255, 255, 0]))
  {
    var s: seq<Byte> := [0, 0, 0, 0, 0, 0, 0];
    assert CheckChannels(7, 1, 2) == Ok(3);
    assert FlipEnd(7, 3) == 6;
    InvertAt(1, 2, s, 0);
    InvertAt(1, 2, s, 3);
    InvertLastPixel(1, 2, s, 6);
    var out := InvertSpec(1, 2, s).value.data;
    assert out == [out[0], out[1], out[2], out[3], out[4], out[5], out[6]];
  }
}
