/*
 * The general-purpose entry points of the cCore extension: string copy,
 * channel swap, substitution table, RGB/RGBA coercion and the
 * nearest-neighbour scale. The convolution lives in module Spatial.
 */
module CCore {
  import opened Core
  import opened Errors
  import opened Raster

  // ---------------------------------------------------------------- stringCopy

  /** `stringCopy`: a fresh buffer holding the same bytes, so later in-place edits do not reach the original. */
  method StringCopy(data: array<Byte>) returns (out: array<Byte>)
    ensures fresh(out)
    ensures out[..] == data[..]
  {
    out := new Byte[data.Length];
    forall i | 0 <= i < data.Length {
      out[i] := data[i];
    }
  }

  // -------------------------------------------------------------- swapChannels

  /** Exchanges bytes c1 and c2 of one pixel. */
  function SwapPixel(c1: int, c2: int): seq<Byte> -> seq<Byte>
  {
    (px: seq<Byte>) => if 0 <= c1 < |px| && 0 <= c2 < |px| then px[c1 := px[c2]][c2 := px[c1]] else px
  }

  lemma SwapPixelPreservesLength(c1: int, c2: int, c: int)
    ensures PreservesLength(SwapPixel(c1, c2), c)
  {
  }

  /** The bound check as the C code writes it: a channel equal to the channel count passes. */
  predicate SwapGuardAsWritten(channels: int, channel1: int, channel2: int)
  {
    !(channel1 > channels || channel2 > channels)
  }

  /** The bound check that keeps every access inside its own pixel. */
  predicate SwapGuard(channels: int, channel1: int, channel2: int)
  {
    !(channel1 >= channels || channel2 >= channels)
  }

  /**
   * The off-by-one: for every whole-pixel buffer the written guard lets channel
   * number `channels` through, and for the last pixel the loop then touches
   * byte `dataLen`, one past the end.
   */
  lemma SwapGuardAdmitsOutOfBounds(n: int, channels: int)
    requires channels == 3 || channels == 4
    requires n >= channels && Aligned(n, channels)
    ensures SwapGuardAsWritten(channels, channels, 0)
    ensures !SwapGuard(channels, channels, 0)
    ensures Aligned(n - channels, channels) && (n - channels) + channels == n
  {
    if channels == 3 {} else {}
  }

  /**
   * The swap loop touches bytes channel1 and channel2 of every pixel it
   * starts; this is when it stays inside the buffer.
   */
  predicate SwapBytesFit(n: int, width: int, height: int, channel1: int, channel2: int)
    requires width > 0 && height > 0
  {
    var c := ChannelCount(n, width, height);
    3 <= c <= 4 && 0 <= channel1 < c && 0 <= channel2 < c ==> StrideFits(n, c, Max(channel1, channel2))
  }

  /** With the corrected guard both swapped bytes of every pixel the loop starts lie inside that pixel and the buffer. */
  lemma SwapGuardKeepsInPixel(n: int, channels: int, channel1: int, channel2: int, i: int)
    requires channels == 3 || channels == 4
    requires channel1 >= 0 && channel2 >= 0 && SwapGuard(channels, channel1, channel2)
    requires StrideFits(n, channels, Max(channel1, channel2)) && 0 <= i < n && Aligned(i, channels)
    ensures i <= i + channel1 < i + channels && i + channel1 < n
    ensures i <= i + channel2 < i + channels && i + channel2 < n
  {
    StrideByte(n, channels, Max(channel1, channel2), i);
  }

  /** `swapChannels`: the result of the call, errors included. */
  function SwapChannelsSpec(width: int, height: int, s: seq<Byte>, channel1: int, channel2: int): (r: Result<ImageData>)
    requires width > 0 && height > 0
    ensures r.Ok? ==> r.value.width == width && r.value.height == height && |r.value.data| == |s|
  {
    match CheckChannels(|s|, width, height)
    case Err(e) => Err(e)
    case Ok(channels) =>
      if channel1 < 0 || channel2 < 0 then Err(IndexError)
      else if !SwapGuard(channels, channel1, channel2) then Err(IndexError)
      else
        SwapPixelPreservesLength(channel1, channel2, channels);
        MapPixelsLength(s, channels, SwapPixel(channel1, channel2));
        Ok(ImageData(width, height, MapPixels(s, channels, SwapPixel(channel1, channel2))))
  }

  lemma SwapStep(d: seq<Byte>, s: seq<Byte>, c: int, c1: int, c2: int, i: int)
    requires c == 3 || c == 4
    requires 0 <= c1 < c && 0 <= c2 < c
    requires MappedUpTo(d, s, c, SwapPixel(c1, c2), i) && i + c1 < |s| && i + c2 < |s|
    ensures MappedUpTo(d[i + c1 := d[i + c2]][i + c2 := d[i + c1]], s, c, SwapPixel(c1, c2), i + c)
  {
    var d' := d[i + c1 := d[i + c2]][i + c2 := d[i + c1]];
    assert d[i..] == s[i..];
    if i + c <= |s| {
      assert d[i..i + c] == s[i..i + c];
      assert d'[i..i + c] == SwapPixel(c1, c2)(s[i..i + c]);
    } else {
      assert d'[i..] == SwapPixel(c1, c2)(s[i..]);
    }
    MapStep(d, d', s, c, SwapPixel(c1, c2), i);
  }

  /** `swapChannels` (cCore.c), in place; the bound check is the corrected one. */
  method SwapChannels(width: int, height: int, data: array<Byte>, channel1: int, channel2: int) returns (r: Result<ImageData>)
    requires width > 0 && height > 0 && SwapBytesFit(data.Length, width, height, channel1, channel2)
    modifies data
    ensures r == SwapChannelsSpec(width, height, old(data[..]), channel1, channel2)
    ensures data[..] == if r.Ok? then r.value.data else old(data[..])
  {
    var channels := data.Length / (width * height);
    if channels < 3 || channels > 4 {
      return Err(ValueError);
    }
    if channel1 < 0 || channel2 < 0 {
      return Err(IndexError);
    }
    if channel1 >= channels || channel2 >= channels {
      return Err(IndexError);
    }
    SwapLoop(data, channels, channel1, channel2);
    return Ok(ImageData(width, height, data[..]));
  }

  /** The pixel loop of `swapChannels`: exchanges two bytes of every pixel through a temporary. */
  method SwapLoop(data: array<Byte>, channels: int, channel1: int, channel2: int)
    requires channels == 3 || channels == 4
    requires 0 <= channel1 < channels && 0 <= channel2 < channels
    requires StrideFits(data.Length, channels, Max(channel1, channel2))
    modifies data
    ensures data[..] == MapPixels(old(data[..]), channels, SwapPixel(channel1, channel2))
  {
    ghost var s := data[..];
    var i := 0;
    while i < data.Length
      invariant MappedUpTo(data[..], s, channels, SwapPixel(channel1, channel2), i)
      decreases data.Length - i
    {
      StrideByte(data.Length, channels, Max(channel1, channel2), i);
      SwapStep(data[..], s, channels, channel1, channel2, i);
      var tmp := data[i + channel1];
      data[i + channel1] := data[i + channel2];
      data[i + channel2] := tmp;
      i := i + channels;
    }
    MappedDone(data[..], s, channels, SwapPixel(channel1, channel2), i);
  }

  lemma SwappedByte(out: seq<Byte>, s: seq<Byte>, channel1: int, channel2: int, i: int, e: int, k: int)
    requires 0 <= i <= e <= |s| && |out| == |s|
    requires 0 <= channel1 < e - i && 0 <= channel2 < e - i && 0 <= k < e - i
    requires out[i..e] == SwapPixel(channel1, channel2)(s[i..e])
    ensures out[i + k] == if k == channel1 then s[i + channel2] else if k == channel2 then s[i + channel1] else s[i + k]
  {
    assert out[i + k] == out[i..e][k];
  }

  lemma SwapPixelsAt(s: seq<Byte>, c: int, channel1: int, channel2: int, i: int, k: int)
    requires c == 3 || c == 4
    requires 0 <= channel1 < c && 0 <= channel2 < c && 0 <= k < c
    requires 0 <= i && Aligned(i, c) && i + k < |s| && i + channel1 < |s| && i + channel2 < |s|
    ensures |MapPixels(s, c, SwapPixel(channel1, channel2))| == |s|
    ensures MapPixels(s, c, SwapPixel(channel1, channel2))[i + k]
      == if k == channel1 then s[i + channel2] else if k == channel2 then s[i + channel1] else s[i + k]
  {
    SwapPixelPreservesLength(channel1, channel2, c);
    var out := MapPixels(s, c, SwapPixel(channel1, channel2));
    if i + c <= |s| {
      MapPixelsAt(s, c, SwapPixel(channel1, channel2), i);
      SwappedByte(out, s, channel1, channel2, i, i + c, k);
    } else {
      MapPixelsLastAt(s, c, SwapPixel(channel1, channel2), i);
      assert s[i..] == s[i..|s|] && out[i..] == out[i..|s|];
      SwappedByte(out, s, channel1, channel2, i, |s|, k);
    }
  }

  /**
   * Each pixel the loop starts has its two channels exchanged and every other
   * byte kept; a trailing partial pixel included, since the loop reaches it.
   */
  lemma SwapChannelsAt(width: int, height: int, s: seq<Byte>, channel1: int, channel2: int, i: int, k: int)
    requires width > 0 && height > 0 && SwapBytesFit(|s|, width, height, channel1, channel2)
    requires SwapChannelsSpec(width, height, s, channel1, channel2).Ok?
    requires 0 <= i < |s| && Aligned(i, ChannelCount(|s|, width, height))
    requires 0 <= k < ChannelCount(|s|, width, height) && i + k < |s|
    ensures i + channel1 < |s| && i + channel2 < |s|
    ensures var out := SwapChannelsSpec(width, height, s, channel1, channel2).value.data;
      out[i + k] == if k == channel1 then s[i + channel2] else if k == channel2 then s[i + channel1] else s[i + k]
  {
    var c := ChannelCount(|s|, width, height);
    StrideByte(|s|, c, Max(channel1, channel2), i);
    SwapPixelsAt(s, c, channel1, channel2, i, k);
  }

  /** Swapping the same two channels twice restores the buffer. */
  lemma SwapChannelsInvolution(width: int, height: int, s: seq<Byte>, channel1: int, channel2: int)
    requires width > 0 && height > 0
    requires SwapChannelsSpec(width, height, s, channel1, channel2).Ok?
    ensures var once := SwapChannelsSpec(width, height, s, channel1, channel2).value.data;
      SwapChannelsSpec(width, height, once, channel1, channel2) == Ok(ImageData(width, height, s))
  {
    var c := ChannelCount(|s|, width, height);
    var g := SwapPixel(channel1, channel2);
    var id := (px: seq<Byte>) => px;
    SwapPixelPreservesLength(channel1, channel2, c);
    MapPixelsCompose(s, c, g, g, id);
    MapPixelsIdentity(s, c, id);
  }

  /** Swapping a channel with itself changes nothing. */
  lemma SwapChannelsSame(width: int, height: int, s: seq<Byte>, channel: int)
    requires width > 0 && height > 0
    requires SwapChannelsSpec(width, height, s, channel, channel).Ok?
    ensures SwapChannelsSpec(width, height, s, channel, channel).value.data == s
  {
    var c := ChannelCount(|s|, width, height);
    MapPixelsIdentity(s, c, SwapPixel(channel, channel));
  }

  /** The three ways `swapChannels` refuses a call, and that it refuses nothing else. */
  lemma SwapChannelsErrors(width: int, height: int, s: seq<Byte>, channel1: int, channel2: int)
    requires width > 0 && height > 0
    ensures var r := SwapChannelsSpec(width, height, s, channel1, channel2);
      var c := |s| / (width * height);
      && (r == Err(ValueError) <==> !(3 <= c <= 4))
      && (r == Err(IndexError) <==> 3 <= c <= 4 && (channel1 < 0 || channel2 < 0 || channel1 >= c || channel2 >= c))
      && (r.Ok? <==> 3 <= c <= 4 && 0 <= channel1 < c && 0 <= channel2 < c)
  {
  }

  // --------------------------------------------------------------------- table

  /** Every entry fits an unsigned char (the C code rejects entries above 255 as unsigned values, so negatives too). */
  predicate ValidTable(t: seq<int>)
  {
    forall i :: 0 <= i < |t| ==> 0 <= t[i] <= 255
  }

  function TableBytes(t: seq<int>): (b: seq<Byte>)
    requires ValidTable(t)
    ensures |b| == |t| && forall i :: 0 <= i < |t| ==> b[i] == t[i]
  {
    seq(|t|, i requires 0 <= i < |t| => t[i] as Byte)
  }

  /** The colour map of a 256-entry substitution table. */
  function Lookup(t: seq<Byte>): Pixel3 -> Pixel3
    requires |t| == 256
  {
    (p: Pixel3) => Pixel3(t[p.red], t[p.green], t[p.blue])
  }

  /**
   * `table`: a tuple of other than 256 ints fails argument parsing (TypeError);
   * then the channel check; then any entry outside 0..255 is a ValueError,
   * before any byte is touched.
   */
  function TableSpec(width: int, height: int, s: seq<Byte>, subTable: seq<int>): (r: Result<ImageData>)
    requires width > 0 && height > 0
    ensures r.Ok? ==> r.value.width == width && r.value.height == height && |r.value.data| == |s|
  {
    if |subTable| != 256 then Err(TypeError)
    else match CheckChannels(|s|, width, height)
      case Err(e) => Err(e)
      case Ok(channels) =>
        if !ValidTable(subTable) then Err(ValueError)
        else
          RecolourPreservesLength(Lookup(TableBytes(subTable)), channels);
          MapPixelsLength(s, channels, Recolour(Lookup(TableBytes(subTable))));
          Ok(ImageData(width, height, MapPixels(s, channels, Recolour(Lookup(TableBytes(subTable))))))
  }

  /** `table` (cCore.c), in place. */
  method Table(width: int, height: int, data: array<Byte>, subTable: seq<int>) returns (r: Result<ImageData>)
    requires width > 0 && height > 0 && ColourBytesFit(data.Length, width, height)
    modifies data
    ensures r == TableSpec(width, height, old(data[..]), subTable)
    ensures data[..] == if r.Ok? then r.value.data else old(data[..])
  {
    if |subTable| != 256 {
      return Err(TypeError);
    }
    var channels := data.Length / (width * height);
    if channels < 3 || channels > 4 {
      return Err(ValueError);
    }
    for i := 0 to 256
      invariant forall j :: 0 <= j < i ==> 0 <= subTable[j] <= 255
    {
      if subTable[i] < 0 || subTable[i] > 255 {
        return Err(ValueError);
      }
    }
    RecolourLoop(data, channels, Lookup(TableBytes(subTable)));
    return Ok(ImageData(width, height, data[..]));
  }

  /** Colour byte v of every pixel the loop starts becomes entry v of the table; alpha is kept. */
  lemma TableAt(width: int, height: int, s: seq<Byte>, subTable: seq<int>, i: int)
    requires width > 0 && height > 0 && ColourBytesFit(|s|, width, height)
    requires TableSpec(width, height, s, subTable).Ok?
    requires 0 <= i < |s| && Aligned(i, ChannelCount(|s|, width, height))
    ensures i + 2 < |s|
    ensures var out := TableSpec(width, height, s, subTable).value.data;
      && out[i] == subTable[s[i]] && out[i + 1] == subTable[s[i + 1]] && out[i + 2] == subTable[s[i + 2]]
      && (ChannelCount(|s|, width, height) == 4 && i + 3 < |s| ==> out[i + 3] == s[i + 3])
  {
    var c := ChannelCount(|s|, width, height);
    var t := TableBytes(subTable);
    StrideByte(|s|, c, 2, i);
    RecolourAt(s, c, Lookup(t), i);
    assert TableSpec(width, height, s, subTable).value.data == MapPixels(s, c, Recolour(Lookup(t)));
  }

  /** The identity table changes nothing. */
  lemma TableIdentity(width: int, height: int, s: seq<Byte>, subTable: seq<int>)
    requires width > 0 && height > 0
    requires |subTable| == 256 && forall v :: 0 <= v < 256 ==> subTable[v] == v
    requires 3 <= ChannelCount(|s|, width, height) <= 4
    ensures TableSpec(width, height, s, subTable) == Ok(ImageData(width, height, s))
  {
    var c := ChannelCount(|s|, width, height);
    RecolourIdentity(s, c, Lookup(TableBytes(subTable)));
  }

  /** Two table passes are one pass with the composed table. */
  lemma TableCompose(width: int, height: int, s: seq<Byte>, t1: seq<int>, t2: seq<int>, t3: seq<int>)
    requires width > 0 && height > 0
    requires TableSpec(width, height, s, t1).Ok? && TableSpec(width, height, s, t2).Ok?
    requires |t3| == 256 && forall v :: 0 <= v < 256 ==> t3[v] == t2[t1[v]]
    ensures var once := TableSpec(width, height, s, t1).value.data;
      TableSpec(width, height, once, t2) == TableSpec(width, height, s, t3)
  {
    var c := ChannelCount(|s|, width, height);
    var b1, b2 := TableBytes(t1), TableBytes(t2);
    assert ValidTable(t3) by {
      forall v | 0 <= v < 256 ensures 0 <= t3[v] <= 255 {
        assert 0 <= t1[v] <= 255;
      }
    }
    var b3 := TableBytes(t3);
    RecolourCompose(s, c, Lookup(b1), Lookup(b2), Lookup(b3));
  }

  // ------------------------------------------------------------ toRGB / toRGBA

  /** The first three bytes of each of the first `count` four-byte pixels. */
  function StripAlpha(s: seq<Byte>, count: nat): (r: seq<Byte>)
    requires 4 * count <= |s|
    ensures |r| == 3 * count
  {
    if count == 0 then [] else StripAlpha(s, count - 1) + s[4 * (count - 1)..4 * (count - 1) + 3]
  }

  /** Each of the first `count` three-byte pixels followed by an opaque alpha byte. */
  function AddAlpha(s: seq<Byte>, count: nat): (r: seq<Byte>)
    requires 3 * count <= |s|
    ensures |r| == 4 * count
  {
    if count == 0 then [] else AddAlpha(s, count - 1) + s[3 * (count - 1)..3 * (count - 1) + 3] + [255]
  }

  /** `toRGB`: 3-channel input is returned as it is, 4-channel input loses its alpha bytes. */
  function ToRGBSpec(width: int, height: int, s: seq<Byte>): (r: Result<ImageData>)
    requires width > 0 && height > 0
    ensures r.Ok? ==> r.value.width == width && r.value.height == height
  {
    match CheckChannels(|s|, width, height)
    case Err(e) => Err(e)
    case Ok(channels) =>
      if channels == 3 then Ok(ImageData(width, height, s))
      else Ok(ImageData(width, height, StripAlpha(s, width * height)))
  }

  /** `toRGBA`: 4-channel input is returned as it is, 3-channel input gains alpha 255. */
  function ToRGBASpec(width: int, height: int, s: seq<Byte>): (r: Result<ImageData>)
    requires width > 0 && height > 0
    ensures r.Ok? ==> r.value.width == width && r.value.height == height
  {
    match CheckChannels(|s|, width, height)
    case Err(e) => Err(e)
    case Ok(channels) =>
      if channels == 4 then Ok(ImageData(width, height, s))
      else Ok(ImageData(width, height, AddAlpha(s, width * height)))
  }

  /** `toRGB` (cCore.c): 3-channel input is handed back, 4-channel input is copied without its alpha bytes. */
  method ToRGB(width: int, height: int, data: array<Byte>) returns (r: Result<ImageData>)
    requires width > 0 && height > 0
    ensures r == ToRGBSpec(width, height, data[..])
  {
    var channels := data.Length / (width * height);
    if channels < 3 || channels > 4 {
      return Err(ValueError);
    }
    if channels == 3 {
      return Ok(ImageData(width, height, data[..]));
    }
    PixelBytesFit(data.Length, width, height);
    var newData := StripAlphaLoop(data, width * height);
    return Ok(ImageData(width, height, newData[..]));
  }

  /** The copy loop of `toRGB`: three bytes out for every four bytes in. */
  method StripAlphaLoop(data: array<Byte>, pixelCount: nat) returns (newData: array<Byte>)
    requires 4 * pixelCount <= data.Length
    ensures newData[..] == StripAlpha(data[..], pixelCount)
  {
    newData := new Byte[pixelCount * 3];
    for i := 0 to pixelCount
      invariant newData[..3 * i] == StripAlpha(data[..], i)
    {
      ghost var before := newData[..];
      newData[i * 3] := data[i * 4];
      newData[i * 3 + 1] := data[i * 4 + 1];
      newData[i * 3 + 2] := data[i * 4 + 2];
      StripAlphaStep(before, newData[..], data[..], i);
    }
    assert newData[..] == newData[..3 * pixelCount];
  }

  /** `toRGBA` (cCore.c): 4-channel input is handed back, 3-channel input is copied with an alpha byte of 255 added. */
  method ToRGBA(width: int, height: int, data: array<Byte>) returns (r: Result<ImageData>)
    requires width > 0 && height > 0
    ensures r == ToRGBASpec(width, height, data[..])
  {
    var channels := data.Length / (width * height);
    if channels < 3 || channels > 4 {
      return Err(ValueError);
    }
    if channels == 4 {
      return Ok(ImageData(width, height, data[..]));
    }
    PixelBytesFit(data.Length, width, height);
    var newData := AddAlphaLoop(data, width * height);
    return Ok(ImageData(width, height, newData[..]));
  }

  /** The copy loop of `toRGBA`: four bytes out, the last one 255, for every three bytes in. */
  method AddAlphaLoop(data: array<Byte>, pixelCount: nat) returns (newData: array<Byte>)
    requires 3 * pixelCount <= data.Length
    ensures newData[..] == AddAlpha(data[..], pixelCount)
  {
    newData := new Byte[pixelCount * 4];
    for i := 0 to pixelCount
      invariant newData[..4 * i] == AddAlpha(data[..], i)
    {
      ghost var before := newData[..];
      newData[i * 4] := data[i * 3];
      newData[i * 4 + 1] := data[i * 3 + 1];
      newData[i * 4 + 2] := data[i * 3 + 2];
      newData[i * 4 + 3] := 255;
      AddAlphaStep(before, newData[..], data[..], i);
    }
    assert newData[..] == newData[..4 * pixelCount];
  }

  lemma StripAlphaStep(before: seq<Byte>, after: seq<Byte>, s: seq<Byte>, i: nat)
    requires 4 * i + 4 <= |s| && 3 * i + 3 <= |before| == |after|
    requires before[..3 * i] == StripAlpha(s, i)
    requires forall j :: 0 <= j < 3 * i ==> after[j] == before[j]
    requires after[3 * i] == s[4 * i] && after[3 * i + 1] == s[4 * i + 1] && after[3 * i + 2] == s[4 * i + 2]
    ensures after[..3 * (i + 1)] == StripAlpha(s, i + 1)
  {
    assert after[..3 * i] == before[..3 * i];
    assert after[..3 * (i + 1)] == after[..3 * i] + s[4 * i..4 * i + 3];
  }

  lemma AddAlphaStep(before: seq<Byte>, after: seq<Byte>, s: seq<Byte>, i: nat)
    requires 3 * i + 3 <= |s| && 4 * i + 4 <= |before| == |after|
    requires before[..4 * i] == AddAlpha(s, i)
    requires forall j :: 0 <= j < 4 * i ==> after[j] == before[j]
    requires after[4 * i] == s[3 * i] && after[4 * i + 1] == s[3 * i + 1] && after[4 * i + 2] == s[3 * i + 2]
    requires after[4 * i + 3] == 255
    ensures after[..4 * (i + 1)] == AddAlpha(s, i + 1)
  {
    assert after[..4 * i] == before[..4 * i];
    assert after[..4 * (i + 1)] == after[..4 * i] + s[3 * i..3 * i + 3] + [255];
  }

  lemma {:induction false} StripAlphaAt(s: seq<Byte>, count: nat, p: nat, k: int)
    requires 4 * count <= |s| && p < count && 0 <= k < 3
    ensures StripAlpha(s, count)[3 * p + k] == s[4 * p + k]
  {
    if p < count - 1 {
      StripAlphaAt(s, count - 1, p, k);
    }
  }

  lemma {:induction false} AddAlphaAt(s: seq<Byte>, count: nat, p: nat)
    requires 3 * count <= |s| && p < count
    ensures AddAlpha(s, count)[4 * p .. 4 * p + 4] == s[3 * p .. 3 * p + 3] + [255]
  {
    if p < count - 1 {
      AddAlphaAt(s, count - 1, p);
    }
  }

  /** `toRGB` output: w*h three-byte pixels, each the colour bytes of the same input pixel. */
  lemma ToRGBShape(width: int, height: int, s: seq<Byte>, p: int, k: int)
    requires width > 0 && height > 0
    requires ToRGBSpec(width, height, s).Ok? && |s| == width * height * ChannelCount(|s|, width, height)
    requires 0 <= p < width * height && 0 <= k < 3
    ensures var out := ToRGBSpec(width, height, s).value.data;
      |out| == width * height * 3 && out[3 * p + k] == s[ChannelCount(|s|, width, height) * p + k]
  {
    if ChannelCount(|s|, width, height) == 4 {
      StripAlphaAt(s, width * height, p, k);
    }
  }

  /** `toRGBA` output: w*h four-byte pixels, the colour bytes of the input pixel then 255. */
  lemma ToRGBAShape(width: int, height: int, s: seq<Byte>, p: int)
    requires width > 0 && height > 0
    requires ToRGBASpec(width, height, s).Ok? && ChannelCount(|s|, width, height) == 3
    requires 0 <= p < width * height
    ensures var out := ToRGBASpec(width, height, s).value.data;
      |out| == width * height * 4 && out[4 * p..4 * p + 4] == s[3 * p..3 * p + 3] + [255]
  {
    AddAlphaAt(s, width * height, p);
  }

  lemma {:induction false} StripAddAlpha(s: seq<Byte>, count: nat)
    requires 3 * count <= |s|
    ensures StripAlpha(AddAlpha(s, count), count) == s[..3 * count]
  {
    if count > 0 {
      var a := AddAlpha(s, count);
      StripAddAlpha(s, count - 1);
      assert a[..4 * (count - 1)] == AddAlpha(s, count - 1);
      StripAlphaPrefix(a, a[..4 * (count - 1)], count - 1);
      assert a[4 * (count - 1)..4 * (count - 1) + 3] == s[3 * (count - 1)..3 * count];
      assert s[..3 * count] == s[..3 * (count - 1)] + s[3 * (count - 1)..3 * count];
    }
  }

  lemma {:induction false} StripAlphaPrefix(a: seq<Byte>, b: seq<Byte>, count: nat)
    requires 4 * count <= |b| <= |a| && b == a[..|b|]
    ensures StripAlpha(a, count) == StripAlpha(b, count)
  {
    if count > 0 {
      StripAlphaPrefix(a, b, count - 1);
      assert a[4 * (count - 1)..4 * (count - 1) + 3] == b[4 * (count - 1)..4 * (count - 1) + 3];
    }
  }

  /** Adding an opaque alpha channel and dropping it again gives back the w*h*3 colour bytes. */
  lemma ToRGBAThenToRGB(width: int, height: int, s: seq<Byte>)
    requires width > 0 && height > 0
    requires ChannelCount(|s|, width, height) == 3
    ensures ToRGBASpec(width, height, s).Ok?
    ensures var rgba := ToRGBASpec(width, height, s).value.data;
      ToRGBSpec(width, height, rgba) == Ok(ImageData(width, height, s[..width * height * 3]))
  {
    var p := width * height;
    assert 3 * p <= |s|;
    var rgba := AddAlpha(s, p);
    assert |rgba| == p * 4;
    assert |rgba| / p == 4;
    StripAddAlpha(s, p);
  }
  // ---------------------------------------------------------------- quickScale

  /**
   * The source column (or row) of output column i: `(int)( i * xRatio )` with
   * `xRatio = width / newWidth`, taken here as the exact floor(i * width / newWidth).
   */
  function Nearest(i: int, size: int, newSize: int): (r: int)
    requires 0 <= i < newSize && size > 0
    ensures 0 <= r < size
    ensures r * newSize <= i * size < (r + 1) * newSize
  {
    NearestBounds(i, size, newSize);
    i * size / newSize
  }

  lemma NearestBounds(i: int, size: int, newSize: int)
    requires 0 <= i < newSize && size > 0
    ensures 0 <= i * size / newSize < size
    ensures (i * size / newSize) * newSize <= i * size < (i * size / newSize + 1) * newSize
  {
    var q := i * size;
    var r := q / newSize;
    MulLe(0, i, size);
    assert 0 <= q && 0 <= r;
    assert q == r * newSize + q % newSize && 0 <= q % newSize < newSize;
    assert (r + 1) * newSize == r * newSize + newSize;
    MulLe(i, newSize - 1, size);
    assert q < newSize * size;
    if r >= size {
      MulLe(size, r, newSize);
    }
  }

  /** At scale 1 every column is its own nearest source column. */
  lemma NearestSame(i: int, size: int)
    requires 0 <= i < size
    ensures Nearest(i, size, size) == i
  {
    DivModUnique(i * size, size, i, 0);
  }

  /** Byte q of the scaled image: the same channel of the nearest source pixel. */
  function ScaledByte(s: seq<Byte>, width: int, height: int, c: int, newWidth: int, newHeight: int, q: int): Byte
    requires width > 0 && height > 0 && c > 0 && width * height * c <= |s|
    requires newWidth > 0 && newHeight >= 0 && 0 <= q < newWidth * newHeight * c
  {
    EncodeDecode(q, newWidth, c);
    RowBound(q, newWidth, newHeight, c);
    var x := Nearest(ColOf(q, newWidth, c), width, newWidth);
    var y := Nearest(RowOf(q, newWidth, c), height, newHeight);
    IdxBound(x, y, ChanOf(q, c), width, height, c);
    s[Idx(x, y, ChanOf(q, c), width, c)]
  }

  /** The newWidth x newHeight image sampled from `s`. */
  function Scaled(s: seq<Byte>, width: int, height: int, c: int, newWidth: int, newHeight: int): (r: seq<Byte>)
    requires width > 0 && height > 0 && c > 0 && width * height * c <= |s|
    requires newWidth >= 0 && newHeight >= 0
    ensures |r| == newWidth * newHeight * c
  {
    var n := newWidth * newHeight * c;
    seq(n, q requires 0 <= q < n => ScaledByte(s, width, height, c, newWidth, newHeight, q))
  }

  lemma ScaledAt(s: seq<Byte>, width: int, height: int, c: int, newWidth: int, newHeight: int, i: int, j: int, k: int)
    requires width > 0 && height > 0 && c > 0 && width * height * c <= |s|
    requires 0 <= i < newWidth && 0 <= j < newHeight && 0 <= k < c
    ensures 0 <= Idx(i, j, k, newWidth, c) < newWidth * newHeight * c
    ensures 0 <= Idx(Nearest(i, width, newWidth), Nearest(j, height, newHeight), k, width, c) < width * height * c
    ensures Scaled(s, width, height, c, newWidth, newHeight)[Idx(i, j, k, newWidth, c)]
      == s[Idx(Nearest(i, width, newWidth), Nearest(j, height, newHeight), k, width, c)]
  {
    IdxBound(i, j, k, newWidth, newHeight, c);
    DecodeIdx(i, j, k, newWidth, c);
    IdxBound(Nearest(i, width, newWidth), Nearest(j, height, newHeight), k, width, height, c);
  }

  /** `quickScale`: a newWidth x newHeight image sampled from the nearest source pixels. */
  function QuickScaleSpec(width: int, height: int, s: seq<Byte>, newWidth: int, newHeight: int): (r: Result<ImageData>)
    requires width > 0 && height > 0 && newWidth >= 0 && newHeight >= 0
    ensures r.Ok? ==> r.value.width == newWidth && r.value.height == newHeight
    ensures r.Ok? ==> |r.value.data| == newWidth * newHeight * ChannelCount(|s|, width, height)
  {
    match CheckChannels(|s|, width, height)
    case Err(e) => Err(e)
    case Ok(c) => Ok(ImageData(newWidth, newHeight, Scaled(s, width, height, c, newWidth, newHeight)))
  }

  /** `quickScale` (cCore.c): fills a fresh buffer column by column. */
  method QuickScale(width: int, height: int, data: array<Byte>, newWidth: int, newHeight: int) returns (r: Result<ImageData>)
    requires width > 0 && height > 0 && newWidth >= 0 && newHeight >= 0
    ensures r == QuickScaleSpec(width, height, data[..], newWidth, newHeight)
  {
    var channels := data.Length / (width * height);
    if channels < 3 || channels > 4 {
      return Err(ValueError);
    }
    var newData := new Byte[newWidth * newHeight * channels];
    ghost var spec := Scaled(data[..], width, height, channels, newWidth, newHeight);
    if newWidth == 0 {
      assert newData[..] == spec;
      return Ok(ImageData(newWidth, newHeight, newData[..]));
    }
    for i := 0 to newWidth
      invariant FilledWeak(newData[..], spec, newWidth, channels, i, 0, 0)
    {
      for j := 0 to newHeight
        invariant FilledWeak(newData[..], spec, newWidth, channels, i, j, 0)
      {
        var newPosition := (i + j * newWidth) * channels;
        var oldPosition := (Nearest(i, width, newWidth) + Nearest(j, height, newHeight) * width) * channels;
        for k := 0 to channels
          invariant FilledWeak(newData[..], spec, newWidth, channels, i, j, k)
        {
          ScaledAt(data[..], width, height, channels, newWidth, newHeight, i, j, k);
          FilledWeakStep(newData[..], spec, newWidth, channels, i, j, k);
          newData[newPosition + k] := data[oldPosition + k];
        }
        FilledWeakNextRow(newData[..], spec, newWidth, channels, i, j);
      }
      FilledWeakNextColumn(newData[..], spec, newWidth, newHeight, channels, i);
    }
    FilledWeakDone(newData[..], spec, newWidth, channels);
    return Ok(ImageData(newWidth, newHeight, newData[..]));
  }

  /** Output pixel (i, j) is a byte-for-byte copy of source pixel (floor(i*w/newW), floor(j*h/newH)). */
  lemma QuickScaleAt(width: int, height: int, s: seq<Byte>, newWidth: int, newHeight: int, i: int, j: int, k: int)
    requires width > 0 && height > 0 && newWidth >= 0 && newHeight >= 0
    requires QuickScaleSpec(width, height, s, newWidth, newHeight).Ok?
    requires 0 <= i < newWidth && 0 <= j < newHeight && 0 <= k < ChannelCount(|s|, width, height)
    ensures var c := ChannelCount(|s|, width, height);
      var out := QuickScaleSpec(width, height, s, newWidth, newHeight).value.data;
      0 <= Idx(i, j, k, newWidth, c) < |out| &&
      0 <= Idx(Nearest(i, width, newWidth), Nearest(j, height, newHeight), k, width, c) < |s| &&
      out[Idx(i, j, k, newWidth, c)] == s[Idx(Nearest(i, width, newWidth), Nearest(j, height, newHeight), k, width, c)]
  {
    ScaledAt(s, width, height, ChannelCount(|s|, width, height), newWidth, newHeight, i, j, k);
  }

  /** Scaling to the same size is the identity on the w*h*c image bytes. */
  lemma QuickScaleSameSize(width: int, height: int, s: seq<Byte>)
    requires width > 0 && height > 0
    requires QuickScaleSpec(width, height, s, width, height).Ok?
    ensures QuickScaleSpec(width, height, s, width, height).value.data == s[..width * height * ChannelCount(|s|, width, height)]
  {
    var c := ChannelCount(|s|, width, height);
    var out := QuickScaleSpec(width, height, s, width, height).value.data;
    forall q | 0 <= q < width * height * c ensures out[q] == s[q] {
      EncodeDecode(q, width, c);
      RowBound(q, width, height, c);
      NearestSame(ColOf(q, width, c), width);
      NearestSame(RowOf(q, width, c), height);
    }
  }
}
