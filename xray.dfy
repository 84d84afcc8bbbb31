/*
 * The X-ray plugin: greyscale, then the invert extension on the grey buffer.
 */
module XRay {
  import opened Core
  import opened Errors
  import opened Raster
  import opened Color
  import opened Invert

  /** `execute`: `invert(*to_grey(width, height, data))`. */
  function Execute(width: int, height: int, data: seq<Byte>): (r: Result<ImageData>)
    requires width > 0 && height > 0
    ensures r.Err? <==> CheckChannels(|data|, width, height).Err?
    ensures r.Err? ==> r.error == ValueError
    ensures r.Ok? ==> r.value.width == width && r.value.height == height && |r.value.data| == |data|
  {
    match ToGreySpec(width, height, data)
    case Err(e) => Err(e)
    case Ok(grey) => InvertSpec(grey.width, grey.height, grey.data)
  }

  /**
   * Every pixel starting before dataLen - channels ends with
   * R = G = B = 255 - floor((R + G + B) / 3); alpha is kept.
   */
  lemma ExecuteAt(width: int, height: int, s: seq<Byte>, i: int)
    requires width > 0 && height > 0 && ColourBytesFit(|s|, width, height)
    requires Execute(width, height, s).Ok?
    requires 0 <= i < |s| - ChannelCount(|s|, width, height) && Aligned(i, ChannelCount(|s|, width, height))
    ensures var out := Execute(width, height, s).value.data;
      && out[i] == 255 - (s[i] as int + s[i + 1] as int + s[i + 2] as int) / 3
      && out[i + 1] == out[i] && out[i + 2] == out[i]
      && (ChannelCount(|s|, width, height) == 4 ==> out[i + 3] == s[i + 3])
  {
    var grey := ToGreySpec(width, height, s).value.data;
    ToGreyAt(width, height, s, i);
    InvertAt(width, height, grey, i);
  }

  /** The pixel starting at or past dataLen - channels comes out grey but not inverted; its alpha is kept. */
  lemma ExecuteLastPixel(width: int, height: int, s: seq<Byte>, i: int)
    requires width > 0 && height > 0 && ColourBytesFit(|s|, width, height)
    requires Execute(width, height, s).Ok?
    requires |s| - ChannelCount(|s|, width, height) <= i < |s| && Aligned(i, ChannelCount(|s|, width, height))
    ensures i + 2 < |s|
    ensures var out := Execute(width, height, s).value.data;
      && out[i] == (s[i] as int + s[i + 1] as int + s[i + 2] as int) / 3
      && out[i + 1] == out[i] && out[i + 2] == out[i]
      && (ChannelCount(|s|, width, height) == 4 && i + 3 < |s| ==> out[i + 3] == s[i + 3])
  {
    LastPixelStart(|s|, width, height);
    var grey := ToGreySpec(width, height, s).value.data;
    ToGreyAt(width, height, s, i);
    InvertLastPixel(width, height, grey, i);
    assert Execute(width, height, s).value.data == InvertSpec(width, height, grey).value.data;
  }
}
