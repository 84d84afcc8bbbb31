/*
 * The colour extension: greyscale, per-channel brightness and the
 * sixteen-colour pseudocolour map. Each rewrites the three colour bytes of
 * every pixel of the caller's buffer in place and leaves an alpha byte alone.
 */
module Color {
  import opened Core
  import opened Errors
  import opened Raster

  // ------------------------------------------------------------ toGrey

  /** The grey value of a pixel: the truncated mean of its three colours. */
  function GreyLevel(p: Pixel3): (v: Byte)
    ensures Min(Min(p.red, p.green), p.blue) <= v <= Max(Max(p.red, p.green), p.blue)
  {
    (p.red as int + p.green as int + p.blue as int) / 3
  }

  /** A pixel with all three colours set to its grey value. */
  function Grey(p: Pixel3): Pixel3
  {
    var v := GreyLevel(p);
    Pixel3(v, v, v)
  }

  /** A grey pixel is its own grey value, so greying twice is greying once. */
  lemma GreyOfGrey(p: Pixel3)
    ensures GreyLevel(Grey(p)) == GreyLevel(p)
    ensures Grey(Grey(p)) == Grey(p)
  {
    var v := GreyLevel(p);
    assert (v as int + v as int + v as int) / 3 == v;
  }

  /** `toGrey`: the channel check, then every pixel replaced by its grey. */
  function ToGreySpec(width: int, height: int, s: seq<Byte>): (r: Result<ImageData>)
    requires width > 0 && height > 0
    ensures r.Err? <==> CheckChannels(|s|, width, height).Err?
    ensures r.Err? ==> r.error == ValueError
    ensures r.Ok? ==> r.value.width == width && r.value.height == height && |r.value.data| == |s|
  {
    match CheckChannels(|s|, width, height)
    case Err(e) => Err(e)
    case Ok(channels) =>
      RecolourPreservesLength(Grey, channels);
      MapPixelsLength(s, channels, Recolour(Grey));
      Ok(ImageData(width, height, MapPixels(s, channels, Recolour(Grey))))
  }

  /** `toGrey` (color.c), in place. */
  method ToGrey(width: int, height: int, data: array<Byte>) returns (r: Result<ImageData>)
    requires width > 0 && height > 0 && ColourBytesFit(data.Length, width, height)
    modifies data
    ensures r == ToGreySpec(width, height, old(data[..]))
    ensures data[..] == if r.Ok? then r.value.data else old(data[..])
  {
    var channels := data.Length / (width * height);
    if channels < 3 || channels > 4 {
      return Err(ValueError);
    }
    RecolourLoop(data, channels, Grey);
    return Ok(ImageData(width, height, data[..]));
  }

  /** Each pixel the loop starts, a trailing partial one included, has its three colours all set to floor((R + G + B) / 3); alpha is kept. */
  lemma ToGreyAt(width: int, height: int, s: seq<Byte>, i: int)
    requires width > 0 && height > 0 && ColourBytesFit(|s|, width, height)
    requires ToGreySpec(width, height, s).Ok?
    requires 0 <= i < |s| && Aligned(i, ChannelCount(|s|, width, height))
    ensures i + 2 < |s|
    ensures var out := ToGreySpec(width, height, s).value.data;
      && out[i] == (s[i] as int + s[i + 1] as int + s[i + 2] as int) / 3
      && out[i + 1] == out[i] && out[i + 2] == out[i]
      && (ChannelCount(|s|, width, height) == 4 && i + 3 < |s| ==> out[i + 3] == s[i + 3])
  {
    var c := ChannelCount(|s|, width, height);
    StrideByte(|s|, c, 2, i);
    RecolourAt(s, c, Grey, i);
    var out := ToGreySpec(width, height, s).value.data;
    assert out == MapPixels(s, c, Recolour(Grey));
    var v := GreyLevel(Pixel3At(s, i));
    assert Pixel3At(out, i) == Pixel3(v, v, v);
  }

  /** Greying a grey image changes nothing. */
  lemma ToGreyIdempotent(width: int, height: int, s: seq<Byte>)
    requires width > 0 && height > 0
    requires ToGreySpec(width, height, s).Ok?
    ensures var once := ToGreySpec(width, height, s).value.data;
      ToGreySpec(width, height, once) == ToGreySpec(width, height, s)
  {
    var c := ChannelCount(|s|, width, height);
    forall p: Pixel3 ensures Grey(p) == Grey(Grey(p)) {
      GreyOfGrey(p);
    }
    RecolourCompose(s, c, Grey, Grey, Grey);
  }

  // ------------------------------------------------------------ channelBrightness

  /** The colour map of `channelBrightness`: each channel shifted by its offset and clipped. */
  function Brighten(r: int, g: int, b: int): Pixel3 -> Pixel3
  {
    (p: Pixel3) => Pixel3(Clip(p.red + r), Clip(p.green + g), Clip(p.blue + b))
  }

  /** `channelBrightness`: the channel check, then every pixel brightened. */
  function ChannelBrightnessSpec(width: int, height: int, s: seq<Byte>, r: int, g: int, b: int): (res: Result<ImageData>)
    requires width > 0 && height > 0
    ensures res.Err? <==> CheckChannels(|s|, width, height).Err?
    ensures res.Err? ==> res.error == ValueError
    ensures res.Ok? ==> res.value.width == width && res.value.height == height && |res.value.data| == |s|
  {
    match CheckChannels(|s|, width, height)
    case Err(e) => Err(e)
    case Ok(channels) =>
      RecolourPreservesLength(Brighten(r, g, b), channels);
      MapPixelsLength(s, channels, Recolour(Brighten(r, g, b)));
      Ok(ImageData(width, height, MapPixels(s, channels, Recolour(Brighten(r, g, b)))))
  }

  /** `channelBrightness` (color.c), in place. */
  method ChannelBrightness(width: int, height: int, data: array<Byte>, r: int, g: int, b: int) returns (res: Result<ImageData>)
    requires width > 0 && height > 0 && ColourBytesFit(data.Length, width, height)
    modifies data
    ensures res == ChannelBrightnessSpec(width, height, old(data[..]), r, g, b)
    ensures data[..] == if res.Ok? then res.value.data else old(data[..])
  {
    var channels := data.Length / (width * height);
    if channels < 3 || channels > 4 {
      return Err(ValueError);
    }
    RecolourLoop(data, channels, Brighten(r, g, b));
    return Ok(ImageData(width, height, data[..]));
  }

  /** Each colour byte of each pixel the loop starts becomes clip(byte + its channel's offset); alpha is kept. */
  lemma ChannelBrightnessAt(width: int, height: int, s: seq<Byte>, r: int, g: int, b: int, i: int)
    requires width > 0 && height > 0 && ColourBytesFit(|s|, width, height)
    requires ChannelBrightnessSpec(width, height, s, r, g, b).Ok?
    requires 0 <= i < |s| && Aligned(i, ChannelCount(|s|, width, height))
    ensures i + 2 < |s|
    ensures var out := ChannelBrightnessSpec(width, height, s, r, g, b).value.data;
      && out[i] == Clip(s[i] as int + r) && out[i + 1] == Clip(s[i + 1] as int + g) && out[i + 2] == Clip(s[i + 2] as int + b)
      && (ChannelCount(|s|, width, height) == 4 && i + 3 < |s| ==> out[i + 3] == s[i + 3])
  {
    var c := ChannelCount(|s|, width, height);
    StrideByte(|s|, c, 2, i);
    BrightenPixel(s, c, r, g, b, i);
    assert ChannelBrightnessSpec(width, height, s, r, g, b).value.data == MapPixels(s, c, Recolour(Brighten(r, g, b)));
  }

  /** ChannelBrightnessAt on the pixel traversal itself. */
  lemma BrightenPixel(s: seq<Byte>, c: int, r: int, g: int, b: int, i: int)
    requires c == 3 || c == 4
    requires 0 <= i && Aligned(i, c) && i + 2 < |s|
    ensures var out := MapPixels(s, c, Recolour(Brighten(r, g, b)));
      && |out| == |s|
      && out[i] == Clip(s[i] as int + r) && out[i + 1] == Clip(s[i + 1] as int + g) && out[i + 2] == Clip(s[i + 2] as int + b)
      && (c == 4 && i + 3 < |s| ==> out[i + 3] == s[i + 3])
  {
    RecolourAt(s, c, Brighten(r, g, b), i);
    var p := Brighten(r, g, b)(Pixel3At(s, i));
    assert p == Pixel3(Clip(s[i] as int + r), Clip(s[i + 1] as int + g), Clip(s[i + 2] as int + b));
  }

  /** Offsets (0, 0, 0) leave the image as it was. */
  lemma ChannelBrightnessZero(width: int, height: int, s: seq<Byte>)
    requires width > 0 && height > 0
    requires ChannelBrightnessSpec(width, height, s, 0, 0, 0).Ok?
    ensures ChannelBrightnessSpec(width, height, s, 0, 0, 0).value.data == s
  {
    var c := ChannelCount(|s|, width, height);
    RecolourIdentity(s, c, Brighten(0, 0, 0));
  }

  /** Two shifts in the same direction saturate like one shift by their sum. */
  lemma ClipShift(v: Byte, a: int, b: int)
    requires (a >= 0 && b >= 0) || (a <= 0 && b <= 0)
    ensures Clip(Clip(v + a) + b) == Clip(v + a + b)
  {
  }

  /**
   * Brightening twice with offsets of the same sign per channel is
   * brightening once with the summed offsets.
   */
  lemma ChannelBrightnessCompose(width: int, height: int, s: seq<Byte>, r1: int, g1: int, b1: int, r2: int, g2: int, b2: int)
    requires width > 0 && height > 0
    requires ChannelBrightnessSpec(width, height, s, r1, g1, b1).Ok?
    requires (r1 >= 0 && r2 >= 0) || (r1 <= 0 && r2 <= 0)
    requires (g1 >= 0 && g2 >= 0) || (g1 <= 0 && g2 <= 0)
    requires (b1 >= 0 && b2 >= 0) || (b1 <= 0 && b2 <= 0)
    ensures var once := ChannelBrightnessSpec(width, height, s, r1, g1, b1).value.data;
      ChannelBrightnessSpec(width, height, once, r2, g2, b2) == ChannelBrightnessSpec(width, height, s, r1 + r2, g1 + g2, b1 + b2)
  {
    var c := ChannelCount(|s|, width, height);
    forall p: Pixel3
      ensures Brighten(r1 + r2, g1 + g2, b1 + b2)(p) == Brighten(r2, g2, b2)(Brighten(r1, g1, b1)(p))
    {
      ClipShift(p.red, r1, r2);
      ClipShift(p.green, g1, g2);
      ClipShift(p.blue, b1, b2);
    }
    RecolourCompose(s, c, Brighten(r1, g1, b1), Brighten(r2, g2, b2), Brighten(r1 + r2, g1 + g2, b1 + b2));
  }

  // ------------------------------------------------------------ pseudocolor

  /** The palette slot of a pixel: its grey value shifted right by four bits. */
  function PaletteIndex(p: Pixel3): (k: int)
    ensures 0 <= k < 16
    ensures 16 * k <= GreyLevel(p) < 16 * k + 16
  {
    GreyLevel(p) / 16
  }

  /** The colour map of `pseudocolor`: every pixel becomes the palette entry of its slot. */
  function Paint(palette: seq<Byte>): Pixel3 -> Pixel3
    requires |palette| == 48
  {
    (p: Pixel3) => PaletteEntry(palette, PaletteIndex(p))
  }

  /**
   * `pseudocolor`: the channel check, then a palette of other than 48 bytes
   * is a ValueError, then every pixel painted.
   */
  function PseudocolorSpec(width: int, height: int, s: seq<Byte>, palette: seq<Byte>): (r: Result<ImageData>)
    requires width > 0 && height > 0
    ensures r.Err? <==> CheckChannels(|s|, width, height).Err? || |palette| != 48
    ensures r.Err? ==> r.error == ValueError
    ensures r.Ok? ==> r.value.width == width && r.value.height == height && |r.value.data| == |s|
  {
    match CheckChannels(|s|, width, height)
    case Err(e) => Err(e)
    case Ok(channels) =>
      if |palette| != 48 then Err(ValueError)
      else
        RecolourPreservesLength(Paint(palette), channels);
        MapPixelsLength(s, channels, Recolour(Paint(palette)));
        Ok(ImageData(width, height, MapPixels(s, channels, Recolour(Paint(palette)))))
  }

  /** `pseudocolor` (color.c), in place. */
  method Pseudocolor(width: int, height: int, data: array<Byte>, palette: seq<Byte>) returns (r: Result<ImageData>)
    requires width > 0 && height > 0 && ColourBytesFit(data.Length, width, height)
    modifies data
    ensures r == PseudocolorSpec(width, height, old(data[..]), palette)
    ensures data[..] == if r.Ok? then r.value.data else old(data[..])
  {
    var channels := data.Length / (width * height);
    if channels < 3 || channels > 4 {
      return Err(ValueError);
    }
    if |palette| != 48 {
      return Err(ValueError);
    }
    RecolourLoop(data, channels, Paint(palette));
    return Ok(ImageData(width, height, data[..]));
  }

  /**
   * The colours of each pixel the loop starts become palette entry floor((R + G + B) / 3) >> 4,
   * one of the sixteen; alpha is kept.
   */
  lemma PseudocolorAt(width: int, height: int, s: seq<Byte>, palette: seq<Byte>, i: int)
    requires width > 0 && height > 0 && ColourBytesFit(|s|, width, height)
    requires PseudocolorSpec(width, height, s, palette).Ok?
    requires 0 <= i < |s| && Aligned(i, ChannelCount(|s|, width, height))
    ensures i + 2 < |s|
    ensures var k := (s[i] as int + s[i + 1] as int + s[i + 2] as int) / 3 / 16;
      && 0 <= k < 16
      && Pixel3At(PseudocolorSpec(width, height, s, palette).value.data, i) == PaletteEntry(palette, k)
    ensures ChannelCount(|s|, width, height) == 4 && i + 3 < |s| ==>
      PseudocolorSpec(width, height, s, palette).value.data[i + 3] == s[i + 3]
  {
    var c := ChannelCount(|s|, width, height);
    StrideByte(|s|, c, 2, i);
    RecolourAt(s, c, Paint(palette), i);
    var out := PseudocolorSpec(width, height, s, palette).value.data;
    assert out == MapPixels(s, c, Recolour(Paint(palette)));
    var px := Pixel3At(s, i);
    assert Paint(palette)(px) == PaletteEntry(palette, PaletteIndex(px));
    assert PaletteIndex(px) == (s[i] as int + s[i + 1] as int + s[i + 2] as int) / 3 / 16;
  }

  /** Pseudocolour depends only on the grey value: painting a greyed image paints the original. */
  lemma PseudocolorOfGrey(width: int, height: int, s: seq<Byte>, palette: seq<Byte>)
    requires width > 0 && height > 0
    requires PseudocolorSpec(width, height, s, palette).Ok?
    ensures ToGreySpec(width, height, s).Ok?
    ensures var grey := ToGreySpec(width, height, s).value.data;
      PseudocolorSpec(width, height, grey, palette) == PseudocolorSpec(width, height, s, palette)
  {
    var c := ChannelCount(|s|, width, height);
    forall p: Pixel3 ensures Paint(palette)(p) == Paint(palette)(Grey(p)) {
      GreyOfGrey(p);
    }
    RecolourCompose(s, c, Grey, Paint(palette), Paint(palette));
  }
}
