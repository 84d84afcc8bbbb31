/*
 * The "Green <-> Blue" plugin: a channel-count guard in Python, then
 * `swapChannels` on channels 1 and 2; any other channel count yields None,
 * which the editor treats as "no change".
 */
module SwapGreenBlue {
  import opened Core
  import opened Errors
  import opened Raster
  import opened CCore

  /** `execute`: swaps green and blue of a 3- or 4-channel image, None for any other input. */
  function Execute(width: int, height: int, data: seq<Byte>): (r: Option<ImageData>)
    requires width > 0 && height > 0
    ensures r.Some? <==> 3 <= |data| / (width * height) <= 4
    ensures r.Some? ==> r.value.width == width && r.value.height == height && |r.value.data| == |data|
  {
    var channels := |data| / (width * height);
    if channels == 3 || channels == 4 then
      SwapChannelsErrors(width, height, data, 1, 2);
      Some(SwapChannelsSpec(width, height, data, 1, 2).value)
    else
      None
  }

  /** Green and blue of every pixel the loop starts change places; red and alpha are kept. */
  lemma ExecuteAt(width: int, height: int, s: seq<Byte>, i: int)
    requires width > 0 && height > 0 && ColourBytesFit(|s|, width, height)
    requires Execute(width, height, s).Some?
    requires 0 <= i < |s| && Aligned(i, ChannelCount(|s|, width, height))
    ensures i + 2 < |s|
    ensures var out := Execute(width, height, s).value.data;
      && out[i] == s[i] && out[i + 1] == s[i + 2] && out[i + 2] == s[i + 1]
      && (ChannelCount(|s|, width, height) == 4 && i + 3 < |s| ==> out[i + 3] == s[i + 3])
  {
    var c := ChannelCount(|s|, width, height);
    SwapChannelsErrors(width, height, s, 1, 2);
    assert SwapBytesFit(|s|, width, height, 1, 2);
    SwapChannelsAt(width, height, s, 1, 2, i, 0);
    SwapChannelsAt(width, height, s, 1, 2, i, 1);
    SwapChannelsAt(width, height, s, 1, 2, i, 2);
    if c == 4 && i + 3 < |s| {
      SwapChannelsAt(width, height, s, 1, 2, i, 3);
    }
  }

  /** Applying the plugin twice restores the image. */
  lemma ExecuteInvolution(width: int, height: int, s: seq<Byte>)
    requires width > 0 && height > 0
    requires Execute(width, height, s).Some?
    ensures Execute(width, height, Execute(width, height, s).value.data) == Some(ImageData(width, height, s))
  {
    SwapChannelsErrors(width, height, s, 1, 2);
    SwapChannelsInvolution(width, height, s, 1, 2);
  }
}
