# The PIMP image editor: pixel transforms, image container, undo history and the BMP codec

This project models the core of The Python Image Manipulation Project
("pimp") in Dafny and proves properties of that model.

An image is three values: a width, a height and a flat byte buffer. The
buffer holds 3 bytes per pixel (red, green, blue) or 4 (red, green, blue,
alpha), row after row. Every transform infers the channel count as
`len(data) / (width * height)`. It rejects any count other than 3 or 4
with `ValueError`. Seven entry points (`toRGB`, `toRGBA`, `toGrey`,
`channelBrightness`, `pseudocolor`, `invert`, `histogramEq`) store that
count in an `unsigned char`, so they check it modulo 256; their spec
functions use the intended check (see "## Findings").

The buffer length need not be a multiple of the channel count. The stride
loops start a pixel at every multiple of `channels` that their bounds
admit, from the front, so a short trailing pixel is handled exactly as the
C loop handles it: rewritten when the loop reaches it, or left alone when
the loop stops first. Where the C loop would write past the buffer, the
method requires that it does not (see "## Left out").

The model covers five parts.

* **The C extension modules** (`cCore`, `color`, `invert`, `histogramEq`,
  `median_filter`, `nintendize`, `moduleTest`).
  * Each entry point is specified by a function on byte sequences,
    `XSpec(width, height, data, ...) : Result<ImageData>`. The function
    includes the error cases.
  * The C loops are modelled by a method with the same loops over an
    `array<Byte>`. Its `ensures` ties its result to `XSpec`.
  * The buffer Python passes in is treated as writable, because the C code
    writes into it. Transforms that change it in place (`swapChannels`,
    `table`, `toGrey`, `channelBrightness`, `pseudocolor`, `invert`,
    `histogramEq`) are methods with `modifies data`.
  * Transforms that allocate a new buffer (`spatial`, `quickScale`,
    `toRGB`, `toRGBA`, `median_filter`, `nintendize`, `stringCopy`,
    `reverse`) leave it unchanged.
  * Lemmas about the spec functions state what each transform does to
    every pixel. Further lemmas give the algebra: involutions,
    composition, identities, monotonicity, medians as ranks, and
    block-constant output.
* **The Python filter plugins** (`canny_edge`, `gaussian`, `edge_detect`,
  `laplacian_edge`, `thermal`, `xray`, `swap_red_blue`, `swapGreenBlue`).
  Each is a pure function over the C spec functions, with its kernel or
  palette as a constant.
* **`image.py`'s `Image` class**. It is modelled as a class with
  `width`, `height`, `data` and `channels` fields.
* **The editor's undo/redo history and file dispatch** (`editor.py`).
  * The frame is a class holding the current image and the two stacks.
  * The stack discipline is a pure `Session` value with its own lemmas.
* **The Windows bitmap codec** (`extensions/format/bmp.py`).
  * `Write` is specified by a function. `Decode` and `DecodeAsWritten` are
    two readings of `read`.
  * `Read`, `ReadRows24` and `ExpandNibbles` are the reader's loops.
  * A round trip `WriteThenRead` is proved.

Where the code fails in a way its authors evidently did not intend, the
model has both the code as written and the corrected behaviour. See
"## Findings".

Bytes are the subset type `Byte` (0..255) of `int`. C integer conversions
are written out where they matter:

* truncating division toward zero (`CDiv`);
* the `unsigned char` channel count of the seven entry points above
  (`CheckChannelsAsWritten`);
* `unsigned int` arguments (`AsUnsigned`);
* masks on `bv8`.

Python's floor division is modelled by `FloorDiv` and by clamped slicing
(`Slice`, `Take`, `Strided`). File and console I/O are not modelled:

* a file's contents are a byte-sequence parameter;
* a written file is a returned byte sequence;
* the result of a plugin or codec call is a parameter.

`editor.py` and the plugins are Python 3 code (f-strings at
`editor.py:73`). The C modules are mixed: `color`, `invert`,
`histogramEq`, `nintendize` and `median_filter` parse their buffers with
`"y#"`, which takes `bytes` (`src/color.c:48`), while `cCore`,
`moduleTest` and the older `medianFilter` are Python 2 modules (`"s#"`
at `src/cCore.c:96`, `PyInt_AsLong` at `src/cCore.c:261`,
`Py_InitModule3` at `src/cCore.c:650`). The model treats every buffer as
a byte sequence, whichever module receives it. The BMP codec is nonetheless read with
Python 2 string semantics, where `str` is a byte string, because that is
the only reading under which it works. Under Python 3, `fileHeader[:2]`
is `bytes` and never equals the `str` `'BM'`, so every read reaches the
undefined `log` (`bmp.py:96`) and raises NameError; and
`padding.join(data)` joins `bytes` rows with a `str` separator, so every
24-bit write raises TypeError (`bmp.py:200-202`). The module mixes `str` literals with file bytes (`'BM'`,
`"\x00"`, `ord(data[i])`), which only type-checks that way. The `struct`
formats use the native little-endian layout, which needs no padding for
`'I'`, `'IHHI'`, `'IIHHI'` and `'IIIHHIIIIII'`.

## Model

| member | source | states |
|---|---|---|
| Core.Clip | src/core.h:7 | the result is the input when it is a byte, 0 at or below 0, 255 at or above 255 |
| Core.ClipMonotone | src/core.h:7 | clipping preserves order |
| Core.Max | src/core.h:12 | the result is one of the two arguments and no smaller than either |
| Core.Min | src/core.h:17 | the result is one of the two arguments and no larger than either |
| Core.Pixel3At | src/core.h:30-34 | a `pixel3` read at byte offset i lays out as the three bytes i, i+1, i+2 in red, green, blue order |
| Core.Pixel3Layout | src/core.h:30-34 | reading a pixel back from its own three bytes gives the same pixel |
| Core.PaletteEntry | src/color.c:221 | entry k of a packed `pixel3` palette has the bytes 3k, 3k+1, 3k+2 as its red, green and blue |
| CCore.StringCopy | src/cCore.c:42-63 | the copy is a new buffer with the same bytes |
| CCore.SwapChannelsSpec | src/cCore.c:89-129 | an accepted call keeps width, height and buffer length |
| CCore.SwapChannels | src/cCore.c:89-129 | when every byte the loop touches lies in the buffer, the in-place loop leaves it equal to the spec's output on success and unchanged on error |
| CCore.SwapLoop | src/cCore.c:120-125 | the stride loop starts a pixel at every multiple of `channels` below the length, from the front, and exchanges the two channels in each, a short trailing pixel included; nothing else changes |
| CCore.SwapChannelsAt | src/cCore.c:120-125 | in every pixel the loop starts, channel1 gets channel2's byte and vice versa; the other channels keep theirs |
| CCore.SwapChannelsInvolution | src/cCore.c:120-125 | swapping the same two channels twice gives back the original image |
| CCore.SwapChannelsSame | src/cCore.c:120-125 | swapping a channel with itself changes nothing |
| CCore.SwapChannelsErrors | src/cCore.c:99-118 | ValueError exactly when the count is not 3 or 4; IndexError exactly when a channel lies outside 0..count-1; success otherwise |
| CCore.SwapGuardAdmitsOutOfBounds | src/cCore.c:114-118 | the written guard accepts channel == channels, although that index is one past the last pixel; the corrected guard rejects it |
| CCore.SwapGuardKeepsInPixel | src/cCore.c:114-125 | under the corrected guard, both bytes the loop exchanges lie inside the current pixel, and inside the buffer whenever it reaches the larger channel of its last pixel |
| CCore.TableSpec | src/cCore.c:153-227 | an accepted call keeps width, height and buffer length |
| CCore.Table | src/cCore.c:153-227 | when every colour byte the loop writes lies in the buffer, the in-place loop leaves it equal to the spec's output on success and unchanged on error |
| CCore.TableAt | src/cCore.c:216-221 | in every pixel the loop starts, each of the three colour bytes is replaced by its table entry; alpha, where present, is kept |
| CCore.TableIdentity | src/cCore.c:216-221 | the identity table leaves the image unchanged |
| CCore.TableCompose | src/cCore.c:216-221 | applying table t1 and then t2 equals applying their composition once |
| CCore.ToRGBSpec | src/cCore.c:527-570 | an accepted call keeps width and height |
| CCore.ToRGBASpec | src/cCore.c:587-631 | an accepted call keeps width and height |
| CCore.ToRGB | src/cCore.c:527-570 | the method's result equals the spec's result for the same buffer |
| CCore.ToRGBA | src/cCore.c:587-631 | the method's result equals the spec's result for the same buffer |
| CCore.StripAlphaLoop | src/cCore.c:545-566 | the new buffer holds the first three bytes of each of the pixels, in order |
| CCore.AddAlphaLoop | src/cCore.c:605-627 | the new buffer holds each pixel's three bytes followed by 255 |
| CCore.ToRGBShape | src/cCore.c:545-566 | the RGB output has 3 bytes per pixel, copied from the source pixel's first three channels |
| CCore.ToRGBAShape | src/cCore.c:605-627 | the RGBA output has 4 bytes per pixel: the source pixel and an opaque alpha |
| CCore.StripAddAlpha | src/cCore.c:605-627 | stripping the alpha that was just added gives back the RGB bytes |
| CCore.ToRGBAThenToRGB | src/cCore.c:587-631 | toRGBA then toRGB on an RGB image gives back its pixel bytes |
| CCore.Nearest | src/cCore.c:476-506 | the source coordinate is in range, and it is the one whose scaled interval contains the target coordinate |
| CCore.NearestSame | src/cCore.c:476-506 | at the same size every coordinate maps to itself |
| CCore.Scaled | src/cCore.c:476-506 | the scaled buffer has newWidth * newHeight * channels bytes |
| CCore.ScaledAt | src/cCore.c:476-506 | every output byte is the same channel of the nearest source pixel |
| CCore.QuickScaleSpec | src/cCore.c:464-510 | success gives the requested size and a buffer of that size |
| CCore.QuickScale | src/cCore.c:464-510 | the method's result equals the spec's result for the same buffer |
| CCore.QuickScaleAt | src/cCore.c:476-506 | each output byte copies the corresponding channel of the nearest source pixel |
| CCore.QuickScaleSameSize | src/cCore.c:476-506 | scaling to the same size returns the image's pixel bytes unchanged |
| Raster.CheckChannels | src/cCore.c:312-318 | success exactly when len/(w*h) is 3 or 4; the count then fits in the buffer; otherwise ValueError |
| Raster.CheckChannelsAsWritten | src/color.c:51-58 | the count stored in an `unsigned char` is checked modulo 256 |
| Raster.CheckChannelsAgree | src/color.c:51-58 | the truncated check and the intended one agree whenever the real count is below 256 |
| Raster.CheckChannelsAsWrittenAdmitsOverlong | src/invert.c:57-58 | a 1x1 image of 259 bytes passes the truncated check as 3 channels although it is not whole pixels |
| Raster.PixelBytesFit | src/cCore.c:312 | count * width * height never exceeds the buffer length |
| Raster.RecolourLoop | src/color.c:60-63 | the stride loop starts a pixel at every multiple of `channels` below the length and replaces its three colour bytes by the colour function's output, keeping alpha, a short trailing pixel included |
| Raster.MapPixelsAt | src/color.c:60-63 | a per-pixel map preserves the length, and every whole pixel of the output, counted from the front, is the map applied to the same pixel of the input |
| Raster.MapPixelsLastAt | src/color.c:60-63 | a short trailing pixel of the output is the map applied to the input's short trailing pixel |
| Raster.MapPixelsCompose | src/color.c:60-63 | mapping g then h pixel by pixel equals mapping their composition |
| Raster.RecolourAt | src/color.c:60-63 | at every pixel start whose three colour bytes lie in the buffer, the output pixel is the colour function of the input pixel; alpha, where present, is kept |
| Raster.RecolourCompose | src/color.c:60-63 | two recolourings equal one recolouring by the composed colour function |
| Raster.RecolourIdentity | src/color.c:60-63 | recolouring by the identity leaves the buffer unchanged |
| Raster.DecodeIdx | src/cCore.c:346 | the byte offset (x + y*w)*c + k decodes back to column x, row y and channel k |
| Raster.EncodeDecode | src/cCore.c:346 | every offset is the offset of its own column, row and channel |
| Raster.IdxBound | src/cCore.c:346 | the offset of an in-image pixel and channel lies inside the buffer |
| Spatial.ISqrt | src/cCore.c:249 | the result is the integer square root: r*r <= n < (r+1)*(r+1) |
| Spatial.ISqrtExact | src/cCore.c:249 | a perfect square's root is found exactly |
| Spatial.FilterSize | src/cCore.c:247-255 | the kernel side is odd, and it is the largest odd side whose square fits in the tuple |
| Spatial.ParseFilter | src/cCore.c:241-265 | the size is FilterSize of the tuple length, and the kernel is the first size*size entries |
| Spatial.AbsCDiv | src/cCore.c:355 | the absolute value of C's truncating quotient is the quotient of the absolute values |
| Spatial.CDivRemainder | src/cCore.c:355 | C's truncating division leaves a remainder smaller than the divisor with the dividend's sign |
| Spatial.DivisorCases | src/cCore.c:326-337 | the divisor is never 0: the given total, or the absolute sum of the kernel, or 1 when both are 0 |
| Spatial.NeighbourIdx | src/cCore.c:353 | the window offset of kernel entry m from an interior pixel is the same channel of the pixel shifted by (m%size - size/2, m/size - size/2), which lies inside the image |
| Spatial.SpatialSpec | src/cCore.c:289-401 | success keeps the size and the buffer length; the only error is ValueError |
| Spatial.ConvolveByte | src/cCore.c:349-355 | the inner loop computes the clipped, truncated, absolute convolution of one channel at one pixel |
| Spatial.ConvolveInterior | src/cCore.c:342-384 | the nested loops fill every interior colour byte with its convolution and leave the rest 0 |
| Spatial.CopyAlpha | src/cCore.c:387-393 | alpha bytes are copied from the input; every other byte is kept |
| Spatial.Spatial | src/cCore.c:289-401 | the method's result equals the spec's result for the same buffer |
| Spatial.SpatialAt | src/cCore.c:342-393 | each output byte is: alpha copied; the convolution for an interior colour byte; 0 on the border |
| Spatial.SpatialData | src/cCore.c:320-393 | the output is the interior convolution stage with the input's alpha copied over it |
| Spatial.ConvUniform | src/cCore.c:351-354 | over a flat region the window sum is the byte value times the kernel's partial sum |
| Spatial.SpatialUniform | src/cCore.c:342-355 | on a flat image each interior colour byte is clip(abs(v * sum(kernel)) / divisor), and border bytes are 0 |
| Spatial.ConvSumNine | src/cCore.c:349-354 | with a 3x3 kernel the window sum is the nine neighbours, row by row, each times its kernel entry |
| Window.WindowStart | src/cCore.c:342-344 | the interior loops start with nothing filled and nothing out of place |
| Window.WindowNextRow | src/cCore.c:344 | finishing one interior pixel keeps every filled byte right |
| Window.WindowNextColumn | src/cCore.c:342 | finishing one interior column keeps every filled byte right |
| Window.WindowDone | src/cCore.c:342-384 | when the loops end the buffer equals the specified stage |
| Window.InteriorIdx | src/cCore.c:342-347 | an offset is an interior colour byte exactly when its pixel is at least `edge` from every side and its channel is below 3 |
| Color.GreyLevel | src/color.c:62 | the grey level lies between the smallest and the largest of the three channels |
| Color.GreyOfGrey | src/color.c:62 | a grey pixel keeps its level; greying is idempotent per pixel |
| Color.ToGreySpec | src/color.c:41-67 | an error exactly when the channel check fails, and then ValueError; success keeps size and length |
| Color.ToGrey | src/color.c:41-67 | when every colour byte the loop writes lies in the buffer, the in-place loop leaves it equal to the spec's output on success and unchanged on error |
| Color.ToGreyAt | src/color.c:60-63 | in every pixel the loop starts, the three colour bytes become their truncated mean; alpha, where present, is kept |
| Color.ToGreyIdempotent | src/color.c:60-63 | converting to grey twice gives the same result as once |
| Color.ChannelBrightnessSpec | src/color.c:140-169 | an error exactly when the channel check fails, and then ValueError; success keeps size and length |
| Color.ChannelBrightness | src/color.c:140-169 | when every colour byte the loop writes lies in the buffer, the in-place loop leaves it equal to the spec's output on success and unchanged on error |
| Color.ChannelBrightnessAt | src/color.c:160-165 | in every pixel the loop starts, each colour byte is shifted by its own offset and clipped to 0..255; alpha, where present, is kept |
| Color.ChannelBrightnessZero | src/color.c:160-165 | zero offsets leave the image unchanged |
| Color.ChannelBrightnessCompose | src/color.c:160-165 | two brightness changes in the same direction equal one change by the summed offsets |
| Color.PaletteIndex | src/color.c:221 | the palette index is in 0..15, and it is the sixteenth of 0..255 that contains the grey level |
| Color.PseudocolorSpec | src/color.c:192-229 | an error exactly when the channel check fails or the palette is not 48 bytes, and then ValueError; success keeps size and length |
| Color.Pseudocolor | src/color.c:192-229 | when every colour byte the loop writes lies in the buffer, the in-place loop leaves it equal to the spec's output on success and unchanged on error |
| Color.PseudocolorAt | src/color.c:218-225 | every pixel the loop starts becomes the palette entry at its grey level divided by 16; alpha, where present, is kept |
| Color.PseudocolorOfGrey | src/color.c:218-225 | pseudocolouring depends only on the grey level: greying first changes nothing |
| Invert.FlipByte | src/invert.c:67 | XOR with 0xFF is 255 minus the byte |
| Invert.InvertSpec | src/invert.c:46-76 | an error exactly when the channel check fails, and then ValueError; success keeps size and length |
| Invert.Invert | src/invert.c:46-76 | for any buffer length, the in-place loop leaves the buffer equal to the spec's output on success and unchanged on error |
| Invert.FlipLoop | src/invert.c:65-70 | the loop inverts every pixel that starts below `dataLen - channels` and leaves every byte from the next pixel start on unchanged |
| Invert.InvertAt | src/invert.c:65-70 | every pixel that starts below `dataLen - channels` has its colour bytes inverted and its alpha kept |
| Invert.InvertLastPixel | src/invert.c:65 | the pixel that starts within the last `channels` bytes, and every byte after its start, is left unchanged |
| Invert.InvertInvolution | src/invert.c:65-70 | inverting twice gives back the original image |
| Invert.AllButLastTwice | src/invert.c:65-70 | the loop's effect is its own inverse |
| Invert.InvertAllSpec | src/invert.c:46-76 | the corrected inversion errs exactly when the channel check fails, and keeps size and length |
| Invert.InvertAllAt | src/invert.c:65-70 | the corrected inversion inverts the colour bytes of every pixel, the last included, and keeps alpha |
| Invert.InvertAllInvolution | src/invert.c:65-70 | the corrected inversion is an involution |
| Invert.InvertSkipsOnlyPixel | src/invert.c:65 | a 1x1 black image comes back black from `invert`, and white from the corrected inversion |
| Invert.InvertPartialBuffer | src/invert.c:65-70 | a 1x2 image of 7 bytes (3 channels) has both whole pixels inverted and its seventh byte kept, because the loop stops at the pixel start 6, past `7 - 3` |
| HistogramEq.Bucket | src/histogramEq.c:81 | a pixel's bucket is its rounded mean level, in 0..255 |
| HistogramEq.Histogram | src/histogramEq.c:79-82 | the histogram has 256 non-negative counts |
| HistogramEq.HistogramTotal | src/histogramEq.c:79-82 | the counts add up to the number of pixels |
| HistogramEq.Shares | src/histogramEq.c:88-90 | each bucket's share is its count times 255 divided by the pixel count, floored in exact arithmetic |
| HistogramEq.Cumulative | src/histogramEq.c:86-91 | the running sum of the floored shares, in exact arithmetic, has one entry per bucket |
| HistogramEq.CumulativeMonotone | src/histogramEq.c:86-91 | the cumulative table never decreases and is never negative |
| HistogramEq.CumulativeBounds | src/histogramEq.c:86-91 | every entry of the cumulative table fits in a byte |
| HistogramEq.EqualisationTable | src/histogramEq.c:86-91 | the byte table holds the cumulative sums, all 256 of them |
| HistogramEq.EqualisationMonotone | src/histogramEq.c:86-91 | equalisation preserves the order of levels |
| HistogramEq.HistogramEqSpec | src/histogramEq.c:46-109 | an error exactly when the channel check fails, and then ValueError; success keeps size and length |
| HistogramEq.CountBuckets | src/histogramEq.c:79-82 | the counting loop produces the histogram of the buffer's whole pixels, counted from the front |
| HistogramEq.BuildTable | src/histogramEq.c:86-91 | the summing loop produces the equalisation table |
| HistogramEq.HistogramEqualise | src/histogramEq.c:46-109 | for a buffer with no whole pixel beyond width * height, the in-place loops leave it equal to the spec's output on success and unchanged on error |
| HistogramEq.EqualiseLoop | src/histogramEq.c:93-98 | the mapping loop looks up the colour bytes of every whole pixel in the table and keeps alpha and every byte after the last whole pixel |
| HistogramEq.HistogramEqAt | src/histogramEq.c:93-98 | each colour byte of every whole pixel is replaced by its equalisation-table entry; alpha is kept |
| HistogramEq.HistogramEqSurplus | src/histogramEq.c:93-98 | the bytes after the last of the width * height pixels, fewer than one pixel, are left as they were |
| MedianFilter.Swap | src/median_filter.c:58-60 | two entries are exchanged and the multiset of values is kept |
| MedianFilter.Lowest | src/median_filter.c:52-57 | the index found holds the least value from position i onward |
| MedianFilter.Sort | src/median_filter.c:40-62 | the partial selection sort keeps the multiset and sorts the prefix that `findMedian` needs |
| MedianFilter.FindMedian | src/median_filter.c:76-88 | the result is the median of the list as it was before sorting |
| MedianFilter.SortedMedian | src/median_filter.c:84-86 | the median is the middle element of the sorted list, or the floored mean of the two middle ones |
| MedianFilter.MedianOddRank | src/median_filter.c:84-85 | for an odd count the median has exactly half the values strictly below it, and it is one of the values |
| MedianFilter.MedianEvenBetween | src/median_filter.c:86 | for an even count the median lies between the two middle ranks |
| MedianFilter.MedianUniform | src/median_filter.c:76-88 | the median of equal values is that value |
| MedianFilter.RankValueIsRank | src/median_filter.c:40-62 | every rank of a non-empty list has a value of that rank |
| MedianFilter.MedianSpec | src/median_filter.c:108-174 | an error exactly when the channel check fails, and then ValueError; success keeps size and length |
| MedianFilter.MedianByte | src/median_filter.c:157-165 | gathering a window and taking its median gives the median of the window's values |
| MedianFilter.MedianInterior | src/median_filter.c:152-170 | the nested loops fill every interior colour byte with its window median and leave the rest 0 |
| MedianFilter.Median | src/median_filter.c:108-174 | the method's result equals the spec's result for the same buffer |
| MedianFilter.MedianAt | src/median_filter.c:152-170 | each output byte is its window's median when interior, and 0 otherwise, alpha included |
| MedianFilter.MedianFlat | src/median_filter.c:152-170 | a flat image keeps its value at every interior colour byte |
| Nintendize.MaskBits | src/nintendize.c:74 | the mask keeps the top `level` bits; all 8 bits exactly when level is 8 |
| Nintendize.ReplicateBits | src/nintendize.c:117-122 | replication keeps the masked top bits and fills the low bits with copies of them |
| Nintendize.QuantizeFull | src/nintendize.c:112-122 | at 8 bits per channel a colour is kept |
| Nintendize.QuantizeTopBits | src/nintendize.c:112-122 | two colours quantize alike exactly when their top `level` bits agree |
| Nintendize.AsUnsigned | src/nintendize.c:60-65 | an `unsigned int` argument keeps non-negative values and turns negative ones into large ones |
| Nintendize.Level | src/nintendize.c:65 | the bit count is in 1..8: the argument capped at 8, and 8 for a negative argument |
| Nintendize.BlockSize | src/nintendize.c:67-70 | the block side is in 1..min(w,h): the shorter side over the resolution, or 1 when that is out of range |
| Nintendize.NintendizeSpec | src/nintendize.c:45-142 | an error exactly when the channel check fails, and then ValueError; success keeps size and length |
| Nintendize.Nintendize | src/nintendize.c:45-142 | the method's result equals the spec's result for the same buffer |
| Nintendize.FillBlocks | src/nintendize.c:91-137 | the block loops produce the specified stage |
| Nintendize.Pixellate | src/nintendize.c:97-135 | one block is painted with its quantized average colour |
| Nintendize.BlockColour | src/nintendize.c:98-122 | the colour found is the block's average, quantized to `level` bits |
| Nintendize.BlockAverage | src/nintendize.c:98-110 | the loops sum each colour channel over the block's size*size pixels |
| Nintendize.Spread | src/nintendize.c:117-122 | the doubling loop replicates the kept bits into the low bits |
| Nintendize.LoopBound | src/nintendize.c:91-95 | the float loop bound admits exactly the whole blocks that fit |
| Nintendize.BlockUniform | src/nintendize.c:124-135 | every pixel of a whole block has the same colour, channel by channel |
| Nintendize.CoveredColour | src/nintendize.c:112-133 | a byte inside a whole block holds the quantized average of its channel over the block |
| Nintendize.FullColour | src/nintendize.c:112-133 | at 8 bits a covered byte is the block's plain average |
| Nintendize.StageUncovered | src/nintendize.c:84 | bytes outside the whole blocks, and alpha bytes, stay 0 |
| ModuleTest.Reversed | src/moduleTest.c:20-23 | byte i of the result is byte n-1-i of the input |
| ModuleTest.ReversedTwice | src/moduleTest.c:20-23 | reversing twice gives back the input |
| ModuleTest.ReversedConcat | src/moduleTest.c:20-23 | the reverse of a + b is reverse(b) + reverse(a) |
| ModuleTest.Reverse | src/moduleTest.c:10-27 | the new buffer is the reverse of the input |
| CannyEdge.Combine | extensions/menu/canny_edge.py:71 | each byte is the sum of the four edge responses, capped at 255 |
| CannyEdge.Threshold | extensions/menu/canny_edge.py:72 | the output is binary, 255 exactly where the combined response exceeds 64 |
| CannyEdge.Execute | extensions/menu/canny_edge.py:51-73 | it fails exactly when the Gaussian call fails; on success the size is kept and every byte is 0 or 255 |
| CannyEdge.DirectionalKernels | extensions/menu/canny_edge.py:35-49 | the four 3x3 kernels sum to 0, so `spatial` divides by 1 |
| Gaussian.Execute | extensions/menu/gaussian.py:52 | the plugin is `spatial` with the 5x5 kernel and keeps the image size |
| Gaussian.KernelShape | extensions/menu/gaussian.py:29-33 | the kernel is 5x5 and its weights total 159, which becomes the divisor |
| Gaussian.KernelSymmetric | extensions/menu/gaussian.py:29-33 | the kernel is symmetric under both mirrorings and transposition |
| Gaussian.UniformImage | extensions/menu/gaussian.py:52 | a flat image keeps its value at least two pixels from every side and is black on the border |
| EdgeDetect.Execute | extensions/menu/edge_detect.py:49 | the plugin is `spatial` with the 3x3 kernel and keeps the image size |
| EdgeDetect.KernelShape | extensions/menu/edge_detect.py:29-31 | the kernel is 3x3 and sums to 0, so the divisor is 1 |
| EdgeDetect.UniformImage | extensions/menu/edge_detect.py:49 | a flat image has no edges: every output byte is 0 |
| EdgeDetect.SobelSum | extensions/menu/edge_detect.py:29-31 | the window sum is the right column less the left column, the middle row weighted 2 |
| EdgeDetect.MirrorSum | extensions/menu/edge_detect.py:29-31 | mirroring the image left to right negates the window sum at the mirrored pixel |
| EdgeDetect.Mirror | extensions/menu/edge_detect.py:49 | mirroring the input left to right mirrors the output, every byte, alpha included |
| LaplacianEdge.Execute | extensions/menu/laplacian_edge.py:49 | the plugin is `spatial` with the Laplacian kernel and keeps the image size |
| LaplacianEdge.KernelShape | extensions/menu/laplacian_edge.py:29-31 | the kernel is -8 at the centre and 1 elsewhere, and sums to 0 |
| LaplacianEdge.UniformImage | extensions/menu/laplacian_edge.py:49 | a flat image has no edges: every output byte is 0 |
| LaplacianEdge.LaplacianSum | extensions/menu/laplacian_edge.py:29-31 | the window sum is the eight neighbours less eight times the centre |
| LaplacianEdge.ImpulseSum | extensions/menu/laplacian_edge.py:29-31 | for a single lit byte v on black, the window sum is -8v at that pixel, v at its eight neighbours and 0 elsewhere |
| LaplacianEdge.Impulse | extensions/menu/laplacian_edge.py:49 | a single lit byte v on black gives clip(8v) at that pixel, v at its eight neighbours and 0 everywhere else, the border included |
| Thermal.ColorsShape | extensions/menu/thermal.py:29-32 | the palette has 16 entries, from black to red |
| Thermal.ColorsPaired | extensions/menu/thermal.py:29-32 | every colour appears twice in a row |
| Thermal.Execute | extensions/menu/thermal.py:50 | it fails exactly when the channel check fails; success keeps size and length |
| Thermal.ExecuteAt | extensions/menu/thermal.py:50 | every pixel the loop starts becomes the palette colour for its grey level divided by 32; alpha, where present, is kept |
| XRay.Execute | extensions/menu/xray.py:47 | it fails exactly when the channel check fails; success keeps size and length |
| XRay.ExecuteAt | extensions/menu/xray.py:47 | every pixel that starts below `dataLen - channels` becomes the inverted grey level; alpha is kept |
| XRay.ExecuteLastPixel | extensions/menu/xray.py:47 | the pixel that starts within the last `channels` bytes stays grey and is not inverted; its alpha, if present, is kept |
| SwapRedBlue.Execute | extensions/menu/swap_red_blue.py:44-47 | the size is kept; a buffer whose channel count is not 3 or 4 is returned unchanged |
| SwapRedBlue.ExecuteAt | extensions/menu/swap_red_blue.py:46 | red and blue are exchanged in every pixel the loop starts; green and alpha, where present, are kept |
| SwapRedBlue.ExecuteInvolution | extensions/menu/swap_red_blue.py:44-47 | applying the plugin twice gives back the image |
| SwapGreenBlue.Execute | extensions/menu/swapGreenBlue.py:44-46 | it returns an image exactly when the channel count is 3 or 4, and None otherwise |
| SwapGreenBlue.ExecuteAt | extensions/menu/swapGreenBlue.py:46 | green and blue are exchanged in every pixel the loop starts; red and alpha, where present, are kept |
| SwapGreenBlue.ExecuteInvolution | extensions/menu/swapGreenBlue.py:44-46 | applying the plugin twice gives back the image |
| ImageContainer.FloorDiv | image.py:46 | Python's `//`: the quotient rounded toward minus infinity |
| ImageContainer.Strided | image.py:99 | `data[start::step]`: empty past the end; otherwise element j is data[start + j*step], and the length is the number of such indices |
| ImageContainer.StridedAt | image.py:117 | element j of a channel view is the byte at start + j*step |
| ImageContainer.StridedCovers | image.py:99-117 | every byte of the buffer appears in the view of its channel |
| ImageContainer.StridedLength | image.py:99-117 | for whole pixels each channel view has one byte per pixel |
| ImageContainer.InitChannels | image.py:45-52 | empty data gives 3 channels; zero area raises ZeroDivisionError; a count other than 3 or 4 raises TypeError (from the message formatting), never ValueError |
| ImageContainer.InitChannelsIntended | image.py:45-49 | the corrected constructor accepts the same inputs but raises ValueError for a bad count |
| ImageContainer.InitRaisesTypeError | image.py:48-49 | a 1x1 image of 5 bytes raises TypeError where ValueError was intended |
| ImageContainer.InitDataIntended | image.py:50-52 | the intended default buffer is width*height*3 zero bytes |
| ImageContainer.EmptyImageHasNoPixels | image.py:50-52 | an image made without data keeps an empty buffer, so its channel views are empty, where a black buffer of w*h*3 bytes was intended |
| ImageContainer.Image.Make | image.py:42-44 | the fields hold the given width, height, data and channel count |
| ImageContainer.Image.Create | image.py:30-52 | `Image(w, h, data)` fails exactly when the channel computation fails, with its error; otherwise a valid image holding the arguments |
| ImageContainer.Image.Copy | image.py:54-61 | the copy is a new valid image with the same size, bytes and channel count |
| ImageContainer.Image.HasAlpha | image.py:70 | true exactly for 4-channel images |
| ImageContainer.Image.GetAlpha | image.py:79-81 | None without alpha; otherwise `data[::4]`, every fourth byte from offset 0 |
| ImageContainer.Image.AlphaChannel | image.py:79-81 | the corrected view: None without alpha, otherwise byte 4j+3 at index j |
| ImageContainer.AlphaCounterexample | image.py:81 | for the 1x1 RGBA pixel (1,2,3,4), `getAlpha` returns [1] (the red byte) where [4] was intended |
| ImageContainer.Image.GetRed | image.py:117 | the red view is every `channels`-th byte from offset 0 |
| ImageContainer.Image.GetGreen | image.py:108 | the green view is every `channels`-th byte from offset 1 |
| ImageContainer.Image.GetBlue | image.py:99 | the blue view is every `channels`-th byte from offset 2 |
| ImageContainer.Image.GetSize | image.py:144 | the pair is (width, height) |
| ImageContainer.Image.SetData | image.py:146-156 | every call raises NameError, since `width` and `height` are unbound names |
| ImageContainer.Image.SetDataIntended | image.py:146-156 | the corrected setter succeeds exactly for a buffer of 3 or 4 channels, stores it and keeps the size; otherwise ValueError and the data is kept |
| ImageContainer.ViewsCoverData | image.py:99-117 | every byte is found in the red, green, blue or (corrected) alpha view, by its channel |
| Editor.UndoStep | editor.py:300-302 | with history, the top of the undo stack becomes current and the current image is pushed on the redo stack; without it nothing changes |
| Editor.RedoStep | editor.py:308-310 | the mirror image of undo, between the two stacks |
| Editor.Trim | editor.py:418-419 | trimming keeps the newest MAXIMUM_UNDO_LIMIT entries |
| Editor.FilterStacks | editor.py:415-419 | a filter clears the redo stack and pushes the current image on the trimmed undo stack |
| Editor.UndoKeepsBound | editor.py:300-302 | undo keeps the total history length and the undo-limit invariant |
| Editor.RedoKeepsBound | editor.py:308-310 | redo keeps the total history length and the undo-limit invariant |
| Editor.FilterBounded | editor.py:415-420 | after a filter the undo stack is within the limit and the redo stack is empty |
| Editor.UndoThenRedo | editor.py:300-310 | redo undoes an undo exactly |
| Editor.RedoThenUndo | editor.py:300-310 | undo undoes a redo exactly |
| Editor.UndoRevertsFilter | editor.py:415-420 | undo after a filter restores the image before it and offers the filtered image for redo |
| Editor.TrimDrop | editor.py:418-419 | dropping the oldest entry of an over-long stack does not change its trimmed form |
| Editor.IndexOf | editor.py:445 | `str.index`: None exactly when the character is absent; otherwise its first position |
| Editor.Lower | editor.py:445 | lower-casing maps A..Z to a..z and keeps every other character |
| Editor.LowerIdempotent | editor.py:445 | lower-casing twice is lower-casing once |
| Editor.Extension | editor.py:445 | ValueError exactly when the name has no dot |
| Editor.ExtensionOfName | editor.py:468 | the extension of stem.suffix is the lower-cased suffix when the stem has no dot |
| Editor.ReadDispatch | editor.py:468-497 | ValueError without a dot; UnsupportedImageTypeError without a reader; the codec's own error; the marker fallback; TypeError or ExtensionError for a result that is not three values; success exactly for a triple |
| Editor.WriteDispatch | editor.py:444-455 | success exactly when the extension names a registered writer, which receives the size and a copy of the bytes |
| Editor.DispatchIgnoresCase | editor.py:468 | an upper-case extension reaches the same reader as its lower-case form |
| Editor.ReadFile | editor.py:460-500 | a new valid Image exactly when the dispatch succeeds and its three values make an Image, holding those values; otherwise the first error raised |
| Editor.Frame.State | editor.py:296-310 | the session value reads the frame's image and two stacks |
| Editor.Frame.constructor | editor.py:98-114 | a new frame has no image and empty stacks |
| Editor.Frame.Undo | editor.py:296-302 | the frame's new state is UndoStep of the old one, keeping the bound |
| Editor.Frame.Redo | editor.py:304-310 | the frame's new state is RedoStep of the old one, keeping the bound |
| Editor.Frame.ApplyFilter | editor.py:405-420 | without an image or a triple nothing changes; otherwise the stacks change first, then the new Image is installed or its error is raised |
| Editor.Frame.OpenFile | editor.py:270-275 | an empty name does nothing; a failed read raises and changes nothing; success installs a new image holding the dispatched width, height and data, and clears both stacks |
| Bmp.LE16 | extensions/format/bmp.py:208 | the two packed bytes read back as the value |
| Bmp.LE32 | extensions/format/bmp.py:208 | the four packed bytes read back as the value |
| Bmp.U32Within | extensions/format/bmp.py:97 | a packed field inside a larger byte string reads back at its own offset |
| Bmp.Slice | extensions/format/bmp.py:142 | Python slicing clamps at the end of the data |
| Bmp.Take | extensions/format/bmp.py:98 | `read(n)` takes n bytes or up to EOF, and a negative n reads to EOF |
| Bmp.ReverseReverse | extensions/format/bmp.py:134 | reversing the row list twice restores it |
| Bmp.FlattenRows | extensions/format/bmp.py:199 | cutting data into rows and joining them again gives back the data |
| Bmp.RowsAtJoin | extensions/format/bmp.py:202 | rows joined by a separator are found back at the stride offsets |
| Bmp.Padding | extensions/format/bmp.py:200 | the padding is under 4 and makes each row a multiple of 4 bytes |
| Bmp.FileHeader | extensions/format/bmp.py:205-208 | 'BM', the file size and the data offset 54, in 14 bytes |
| Bmp.InfoHeaderFields | extensions/format/bmp.py:210 | the 40-byte Windows V3 header holds size 40, the sides, 1 plane, 24 bpp, no compression, the data size and 3937 pixels per metre |
| Bmp.Write | extensions/format/bmp.py:160-215 | the swap's error is passed on; a written file starts with 'BM', records its own length and the offset 54 |
| Bmp.WriteShape | extensions/format/bmp.py:194-213 | the file is the two headers and the swapped rows bottom-up, joined by padding |
| Bmp.WriteHeader | extensions/format/bmp.py:204-213 | every header field of a written file, and its length, 54 + h*w*3 + (h-1)*padding |
| Bmp.WrittenRows | extensions/format/bmp.py:196-202 | the rows found at the file's stride offsets are the image rows in reverse order |
| Bmp.PaletteRepeats | extensions/format/bmp.py:120-125 | the palette as written repeats cyan at indices 13 and 14 and has no magenta |
| Bmp.PaletteDistinct | extensions/format/bmp.py:120-125 | the corrected palette has 16 distinct colours |
| Bmp.Nibbles | extensions/format/bmp.py:130-132 | each byte expands into 6 bytes |
| Bmp.NibblesAt | extensions/format/bmp.py:132 | byte i expands into the palette colour of its high nibble, then that of its low nibble |
| Bmp.ExpandNibbles | extensions/format/bmp.py:129-132 | the loop's translation is the nibble expansion of the data |
| Bmp.Rows24 | extensions/format/bmp.py:139-147 | when read, the pixel data has h*w*3 bytes |
| Bmp.ReadRows24 | extensions/format/bmp.py:139-147 | the row loop's result is the specified row reading |
| Bmp.ParseInfoAsWritten | extensions/format/bmp.py:99-110 | a header size other than 24 or 40 is rejected; size 24 raises NameError (compression unbound); size 40 parses |
| Bmp.ParseInfo | extensions/format/bmp.py:99-110 | the corrected parse accepts the 12-byte OS/2 header (uncompressed, 16-bit sides) and the 40-byte V3 header exactly, and agrees with the written parse on V3 |
| Bmp.Pixels | extensions/format/bmp.py:113-153 | the sides come from the header; compression gives its error; a depth other than 4 or 24 gives its error |
| Bmp.DecodeAsWritten | extensions/format/bmp.py:80-156 | a file not starting with 'BM' raises NameError, because the logger is undefined |
| Bmp.Decode | extensions/format/bmp.py:80-156 | the corrected reader: a file shorter than the 14-byte header fails with struct.error |
| Bmp.Read | extensions/format/bmp.py:80-156 | the reader's loops compute the corrected decoding |
| Bmp.WrittenParses | extensions/format/bmp.py:97-106 | a written file's headers parse back to its sides, 24 bpp and no compression |
| Bmp.WrittenPixels | extensions/format/bmp.py:139-147 | a written file's rows read back as the swapped pixel data |
| Bmp.WriteThenRead | extensions/format/bmp.py:80-215 | reading a written file gives back its width, height and data, under both readings |
| Bmp.MarkerIgnored | extensions/format/bmp.py:95-97 | the corrected reader's result does not depend on the two marker bytes |
| Bmp.MisMarked | extensions/format/bmp.py:95-96 | changing the marker keeps the corrected result, but the written reader raises NameError |
| Bmp.MisMarkedFileRaises | extensions/format/bmp.py:95-96 | a written file with its first byte cleared reads back under the corrected reader but raises NameError as written |
| Bmp.ReadersAgree | extensions/format/bmp.py:113-153 | for a marked V3 file: compressed gives ImageReadError, corrected vs NameError as written; an unknown depth gives ImageFormatError vs NameError; a 24-bit file reads the same under both (the 4-bit path is Bmp.ReadersAgree4Bit) |
| Bmp.ReadersAgree4Bit | extensions/format/bmp.py:117-137 | for a marked 4-bit V3 file the reading as written equals the corrected reading of the file with every pixel nibble 13 (magenta) turned into 14 (cyan), so the two agree when no pixel byte holds a nibble 13 |

## Left out

- File, console and GUI I/O. wx dialogs, the menu system and bitmap display are not modelled. File contents are byte-sequence parameters, and a written file is a returned byte sequence.
- Plugin discovery (`glob`, `exec`, `__import__` in `editor.py`). The modules found are a `Registry` parameter. The value a plugin or codec returns, or the error it raises, is a parameter.
- Several plugins import names the C modules do not export: `string_copy` (canny_edge.py:23, editor.py:409 and 455), where `src/cCore.c:640` exports `stringCopy` and `extensions/lib/core.py` adds no wrapper; `swap_channels` (swap_red_blue.py:23), where cCore exports `swapChannels`; `to_grey` (xray.py:23), where `src/color.c:236` exports `toGrey`; and the module `median_filter`, where `src/build.py` builds `medianFilter`. As written these plugins raise ImportError when loaded, and the filter handler raises AttributeError at `string_copy`. The model treats each name as the exported C function it stands for.
- `editor.py` calls `get_width`, `get_height`, `get_data` and `get_size`, while `image.py` spells these `getWidth` and so on. The model treats them as the same accessors.
- The unfiltered `handler(1, 1, "\x00")` call in the filter handler when no image is open (editor.py:412). For a plugin that reaches a C module the call raises: `"y#"` rejects the `str`, and the `"s#"` modules see one byte, a channel count of 1, and raise ValueError. The exception leaves the handler before any state changes. The model only records that the image and the stacks stay as they were.
- `cCore.transform`, `gamma`, `sepia` and the other floating-point colour transforms. They are outside the core.
- CCore.QuickScale: the C code computes source coordinates with `float` ratios. The model uses the exact floor of `i * size / newSize`.
- HistogramEq.HistogramEqSpec: the equalisation table is computed in exact integer arithmetic. The C code keeps `pixelcount` as a `float` (src/histogramEq.c:55, 85) and computes each entry as `histogram_table[i]*255/pixelcount + histogram_sum[i-1]` in single precision before truncating it into an `unsigned char` (src/histogramEq.c:86-90). Float rounding can make a C entry one more than the model's. For example, a 512x512 image with 66822 pixels of level 0, 65793 of level 1 and 129529 of level 255 gives entry 1 as 129 in C and 128 in the model. The same holds for HistogramEq.Shares, HistogramEq.Cumulative, HistogramEq.EqualisationTable, HistogramEq.BuildTable and HistogramEq.HistogramEqualise.
- HistogramEq.HistogramEqSpec: requires the buffer to hold no whole pixel beyond width * height (a short trailing pixel is modelled). With a surplus pixel the buckets count more pixels than the divisor, the running sums can pass 255, and the `unsigned char` table keeps them modulo 256; that wrap is not modelled.
- The C transforms require `width > 0` and `height > 0`. C divides by `width * height`, and a zero divisor is undefined behaviour. Negative sides are excluded too, although the C code accepts them when their product is positive, as in `invert(-1, -3, <9 bytes>)`; the loops and offsets that follow are not modelled for them.
- CCore.SwapChannels, CCore.Table, Color.ToGrey, Color.ChannelBrightness and Color.Pseudocolor require every byte their stride loop writes to lie in the buffer (`SwapBytesFit`, `ColourBytesFit`). Each loop starts a pixel at every multiple of `channels` below `dataLen` and writes bytes i to i+2 (for `swapChannels`, bytes i+channel1 and i+channel2), so a short trailing pixel that stops before the last of them makes the C code write past the buffer, which is undefined behaviour. `invert` and `histogramEq` stop early enough and need no such condition.
- CCore.ToRGBSpec: uses the intended channel check; the C code keeps the count in an `unsigned char` (src/cCore.c:531, 537) and checks it modulo 256 (see "## Findings").
- CCore.ToRGBASpec: uses the intended channel check; the C code checks the count modulo 256 (src/cCore.c:591, 597).
- Color.ToGreySpec: uses the intended channel check; the C code checks the count modulo 256 (src/color.c:45, 51).
- Color.ChannelBrightnessSpec: uses the intended channel check; the C code checks the count modulo 256 (src/color.c:144, 152).
- Color.PseudocolorSpec: uses the intended channel check; the C code checks the count modulo 256 (src/color.c:196, 204).
- Invert.InvertSpec: uses the intended channel check; the C code checks the count modulo 256 (src/invert.c:51, 57).
- HistogramEq.HistogramEqSpec: uses the intended channel check; the C code checks the count modulo 256 (src/histogramEq.c:51, 62).
- Spatial.SpatialSpec: requires a filter of at least one entry. For an empty tuple `parseFilter` computes a side of -1 and reads item 0 of the empty tuple (src/cCore.c:247-260); what the C code does then is not modelled.
- Spatial.Spatial: requires a non-empty filter, for the same reason as Spatial.SpatialSpec.
- Spatial.SpatialAt: requires a non-empty filter, for the same reason as Spatial.SpatialSpec.
- CCore.QuickScaleSpec: requires a new width and height of at least 0. A negative size gives `malloc` a negative product (src/cCore.c:484), and the result is not modelled.
- CCore.QuickScale: requires a non-negative new size, for the same reason as CCore.QuickScaleSpec.
- 32-bit `int` overflow of `width * height` and of buffer offsets is not modelled. Integers are unbounded.
- MedianFilter.Median: requires a window side of at least 2. With side 1, `findMedian` reads one value past its list.
- MedianFilter.MedianSpec: requires a window side of at least 2, for the same reason as MedianFilter.Median.
- MedianFilter.Median and MedianFilter.MedianSpec: a side of 0 or less is excluded as well. The C code then allocates a list of `size * size` values and walks a window with a padding of `size / 2`, which is 0 or negative (src/median_filter.c:135-164); that behaviour is not modelled.
- Nintendize.Nintendize: resolution 0 (division by zero) and colour level 0 (an endless doubling loop) are excluded by a precondition.
- Nintendize.LoopBound: the C bound `(int)((float)width - (float)size/2)` (src/nintendize.c:91-92) is computed in single precision. The model uses exact arithmetic, which agrees with the float result only while the sides are at most 2^24.
- Nintendize.NintendizeSpec: through `Arguments`, excludes resolution 0 and colour level 0 for the same reasons as Nintendize.Nintendize, and keeps the sides, resolution and colour level within the C `int` range.
- `malloc`/`calloc` failure (MemoryError), the leaks in `stringCopy`, `moduleTest.reverse` and `spatial`, and Python reference counting are not modelled.
- `src/medianFilter.c` is the older copy of `src/median_filter.c`. Its loops are the same, so the same members model it.
- Bmp.ReadRows24: when a row is short, the source loops forever: `read` returns fewer bytes and the length never reaches `eof`. The model returns ImageReadError instead.
- Bmp.Decode: a zero width or height in the 24-bit branch makes `swapChannels` divide by zero. The model reports ZeroDivisionError.
- Sides of 2^32 or more are not modelled. `struct.pack('I')` raises `struct.error` for them, and the model's Write returns StructError.
- The 4-bit branch of `write` is dead code, because `bpp` is fixed at 24. It is not modelled.
- The 4-bit reading assumes no `IndexError`: every nibble indexes a 16-entry palette.
- `log` and the `ImageFormatError` and `ImageReadError` names are undefined in `bmp.py`. The as-written reader returns NameError wherever they are reached.
- In the read fallback (editor.py:478-493), `not file_marker not in ...` is a double negation. A file with an unknown marker therefore raises `KeyError`, and one with a known marker raises `UnsupportedImageTypeError`; the file is never re-read by marker. This behaviour is modelled as written. The model has no corrected version.
- Editor.Frame.OpenFile: the frame's file name and title are not modelled. `set_image_file` runs before `read` (editor.py:271-272), so a failed read still changes the name that `save_file` writes to (editor.py:281-282); the model's `State()` covers only the image and the two stacks.
- Editor.Frame.ApplyFilter: the undo and redo stacks change before `Image(...)` can raise, so a failed filter still leaves its entry in the history. This is modelled as written.
- Editor.Lower: only ASCII letters are lower-cased. Unicode case mapping is not modelled.

## Findings

| source | as written | input that shows it | evidently intended | confidence | as-written member | corrected member |
|---|---|---|---|---|---|---|
| src/cCore.c:114 | `channel1 > channels` lets channel == channels through | `swapChannels(1, 1, "\x00\x00\x00", 3, 0)` writes `data[3]`, one past the buffer | reject channel >= channels with IndexError | not executed | CCore.SwapGuardAdmitsOutOfBounds | CCore.SwapChannelsErrors |
| src/invert.c:57 | the channel count is stored in an `unsigned char`, so it is checked modulo 256; the same holds in `toRGB` (src/cCore.c:531, 537), `toRGBA` (src/cCore.c:591, 597), `toGrey` (src/color.c:45, 51), `channelBrightness` (src/color.c:144, 152), `pseudocolor` (src/color.c:196, 204), `invert` (src/invert.c:51, 57) and `histogramEq` (src/histogramEq.c:51, 62) | a 1x1 image of 259 bytes is accepted as 3 channels by all seven, and `toRGB(1, 1, 771 bytes)` likewise | reject any count other than 3 or 4 | not executed | Raster.CheckChannelsAsWrittenAdmitsOverlong | Raster.CheckChannels |
| src/invert.c:65 | `i < dataLen-channels` stops before the last pixel | `invert(1, 1, "\x00\x00\x00")` returns black | invert every pixel | not executed | Invert.InvertSkipsOnlyPixel | Invert.InvertAllInvolution |
| image.py:48-49 | `%` binds to `self._channels` alone, so formatting the message raises TypeError | `Image(1, 1, 5 bytes)` | raise ValueError with the message | not executed | ImageContainer.InitRaisesTypeError | ImageContainer.InitChannelsIntended |
| image.py:52 | the black buffer is assigned to a local `data`, not to `self._data` | `Image(2, 2)` keeps an empty buffer | store 12 zero bytes | not executed | ImageContainer.EmptyImageHasNoPixels | ImageContainer.InitDataIntended |
| image.py:81 | `self._data[::4]` takes every fourth byte from offset 0, the red bytes | a 1x1 RGBA pixel (1,2,3,4) gives `getAlpha() == [1]` | `self._data[3::4]`, giving [4] | not executed | ImageContainer.AlphaCounterexample | ImageContainer.Image.AlphaChannel |
| image.py:153 | `width` and `height` are unbound names | any `setData(...)` raises NameError | use the image's own width and height | not executed | ImageContainer.Image.SetData | ImageContainer.Image.SetDataIntended |
| extensions/format/bmp.py:124 | palette entries 253 and 254 are both cyan, and magenta is missing | a 4-bit pixel of index 13 or 14 reads back cyan | 16 distinct Windows colours, index 13 magenta | not executed | Bmp.PaletteRepeats | Bmp.PaletteDistinct |
| extensions/format/bmp.py:96 | `log` is undefined, so any file not starting with 'BM' raises NameError | a written file with its first byte set to 0 | warn and go on reading | not executed | Bmp.MisMarkedFileRaises | Bmp.MarkerIgnored |
| extensions/format/bmp.py:102 | the OS/2 header size is tested as 24, and `compression` is then unbound | a file whose info header is 24 bytes | accept the 12-byte OS/2 header as uncompressed | not executed | Bmp.ParseInfoAsWritten | Bmp.ParseInfo |
| extensions/format/bmp.py:113-153 | `ImageReadError` and `ImageFormatError` are not imported, and `depth` is unbound | a compressed V3 file, or one of 8 bpp, raises NameError | raise ImageReadError or ImageFormatError | not executed | Bmp.ReadersAgree | Bmp.Decode |
