/*
 * The "Red <-> Blue" plugin: a channel-count guard in Python, then
 * `swapChannels` on channels 0 and 2.
 */
module SwapRedBlue {
  import opened Core
  import opened Errors
  import opened Raster
  import opened CCore

  /** `execute`: swaps red and blue of a 3- or 4-channel image, returns any other input as it came. */
  function Execute(width: int, height: int, data: seq<Byte>): (r: ImageData)
    requires width > 0 && height > 0
    ensures r.width == width && r.height == height && |r.data| == |data|
    ensures !(3 <= |data| / (width * height) <= 4) ==> r.data == data
  {
    var channels := |data| / (width * height);
    if channels == 3 || channels == 4 then
      SwapChannelsErrors(width, height, data, 0, 2);
      SwapChannelsSpec(width, height, data, 0, 2).value
    else
      ImageData(width, height, data)
  }

  /** Red and blue of every pixel the loop starts change places; green and alpha are kept. */
  lemma ExecuteAt(width: int, height: int, s: seq<Byte>, i: int)
    requires width > 0 && height > 0 && ColourBytesFit(|s|, width, height)
    requires 3 <= ChannelCount(|s|, width, height) <= 4
    requires 0 <= i < |s| && Aligned(i, ChannelCount(|s|, width, height))
    ensures i + 2 < |s|
    ensures var out := Execute(width, height, s).data;
      && out[i] == s[i + 2] && out[i + 1] == s[i + 1] && out[i + 2] == s[i]
      && (ChannelCount(|s|, width, height) == 4 && i + 3 < |s| ==> out[i + 3] == s[i + 3])
  {
    var c := ChannelCount(|s|, width, height);
    SwapChannelsErrors(width, height, s, 0, 2);
    assert SwapBytesFit(|s|, width, height, 0, 2);
    SwapChannelsAt(width, height, s, 0, 2, i, 0);
    SwapChannelsAt(width, height, s, 0, 2, i, 1);
    SwapChannelsAt(width, height, s, 0, 2, i, 2);
    if c == 4 && i + 3 < |s| {
      SwapChannelsAt(width, height, s, 0, 2, i, 3);
    }
  }

  /** Applying the plugin twice restores the image. */
  lemma ExecuteInvolution(width: int, height: int, s: seq<Byte>)
    requires width > 0 && height > 0
    ensures Execute(width, height, Execute(width, height, s).data) == ImageData(width, height, s)
  {
    var c := |s| / (width * height);
    if c == 3 || c == 4 {
      SwapChannelsErrors(width, height, s, 0, 2);
      SwapChannelsInvolution(width, height, s, 0, 2);
    }
  }
}
