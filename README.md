# grapho-bitplane pixel buffers in Dafny

This project models the pixel-buffer engine of the Rust crate grapho-bitplane. Each pixel buffer owns one byte store and interprets it through a layout:

- interleaved RGB with a fourcc tag that chooses the component order;
- fixed RGB and BGRA;
- grayscale with one, two or three bytes per pixel;
- 4:2:2 YUV, interleaved (fixed UYVY, or tag-driven) or planar;
- Y800 luma.

Every buffer has three constructors: `new` (a zero store), `new_with_data` (adopt bytes after a size check) and `new_with_background` (a filled store with zero row padding). It also has `set_pixel` and `get_pixel`, which do per-format offset arithmetic. The model also covers:

- the row-major iterators over the buffers;
- the `From` conversion loop, which copies one fixed RGB-family buffer into another.

The model reproduces the crate's behaviour as written, quirks included:

- `get_pixel`/`set_pixel` compare both coordinates with the width.
- Iterators report the coordinates after the step, not those of the pixel they read.
- The 4:2:2 interleaved `new_with_data` checks `width * 2` but stores a default stride of `width * 3`.
- The grayscale buffer writes at `x * len + y * stride` but reads at `x + y * stride`.
- On both 4:2:2 layouts a chroma write averages old and new instead of overwriting.

Structure:

- `pixels.dfy` holds the shared vocabulary:
  - bytes as a subset type of `int`;
  - the two error kinds, the iterator item and the colour records;
  - the width-only bounds test and the averaging rule;
  - the byte-sequence shapes every layout is built from.
- `row_major.dfy` holds the traversal shared by every iterator.
- Each buffer is a class with `const` dimensions and `const data: array<Byte>`:
  - `set_pixel` is a method that `modifies data` and states the whole new store through a pure function of the old one;
  - `get_pixel` is a method that reads;
  - lemmas prove round trips, frame properties and background contents about those functions.
- Each iterator is a class with fields `x` and `y`:
  - `Next` mutates them;
  - `Collect` drains the iterator with a loop and is proved to yield one report per remaining row-major position.
- `conversion.dfy` models the `From` loop. It proves which item makes the loop panic and what the destination holds at that point.

## Model

| member | source | states |
|---|---|---|
| Pixels.Average | src/yuv_interleaved/mod.rs:218-219 | `(old + new) >> 1` is the floor of the mean: twice the result is the sum or one less, and it lies between the two inputs |
| Pixels.BackgroundPadding | src/lib.rs:100-103 | in a padded background store, every byte of a row past the pixel bytes is zero |
| Pixels.BackgroundCell | src/lib.rs:100-103 | in a background store, the cell of pixel (x, y) at `x * len + y * stride` holds the repeated unit |
| Pixels.CellsDisjoint | src/rgb/mod.rs:212 | two different pixels of one image occupy disjoint byte ranges when the stride holds a row |
| RowMajor.Traversal | src/rgb.rs:31-50 | from (0, 0) the iterator visits `width * height` positions, position `k` being `(k % width, k / width)`; a zero-width buffer visits one position per row |
| RowMajor.PositionsInRange | src/rgb.rs:31-46 | every visited position has a row below the height and a column below the width |
| RowMajor.BoundsCheckPasses | src/grayscale/iter.rs:26 | an iterator that reads through `get_pixel` passes the width-only bounds check at every position if and only if height <= width |
| RowMajor.ReportedPositions | src/rgb/iter.rs:30-36 | the pixel read at the k-th position is reported at position number k + 1 |
| TaggedRGB.DecodeComponentOrder | src/rgb/mod.rs:26-35 | the tag table: three or four distinct components, red, green and blue always present; alpha present exactly for the four alpha tags; every tag except "BGR" and the alpha tags gives red, green, blue |
| TaggedRGB.Encode | src/rgb/mod.rs:212-217 | stored byte `i` is component `order[i]` of the colour |
| TaggedRGB.GatherEncode | src/rgb/mod.rs:227-233 | reading encoded bytes back fills each named component from its byte and leaves the default for the others |
| TaggedRGB.EncodeReadColor | src/rgb/mod.rs:227-233 | a store-and-read keeps the named components and gives 0 for missing colour components and 255 for a missing alpha |
| TaggedRGB.SetThenGet | src/rgb/mod.rs:207-234 | `get_pixel` after `set_pixel` at the same position returns the colour, with alpha 255 for three-byte tags |
| TaggedRGB.SetLeavesOthers | src/rgb/mod.rs:212-217 | a write leaves the colour of every other pixel unchanged |
| TaggedRGB.BackgroundColor | src/rgb/mod.rs:150-189 | every pixel of the store `new_with_background` builds, padded or packed, reads back as the fill colour (alpha 255 for three-byte tags) whenever the stride holds a row |
| TaggedRGB.RGBPixelBuffer.New | src/rgb/mod.rs:64-77 | tag defaults to "RGB", stride to `width * len`, store is `stride * height` zeros |
| TaggedRGB.RGBPixelBuffer.NewWithData | src/rgb/mod.rs:104-123 | fails with BufferTooSmall exactly when the bytes are fewer than `stride * height` (default stride `width * len`); otherwise keeps the bytes unchanged |
| TaggedRGB.RGBPixelBuffer.WithBackground | src/rgb/mod.rs:150-189 | the store is `BackgroundBytes`: the encoded colour per pixel, with zero row padding when the stride exceeds `width * len`, one repetition otherwise |
| TaggedRGB.RGBPixelBuffer.SetPixel | src/rgb/mod.rs:207-220 | fails with RequestOutOfBounds exactly when x or y is at least the width, leaving the store unchanged; otherwise overwrites `len` bytes at `x * len + y * stride` with the encoded colour and nothing else |
| TaggedRGB.RGBPixelBuffer.GetPixel | src/rgb/mod.rs:222-234 | fails exactly when x or y is at least the width; otherwise returns the colour gathered from the pixel's bytes |
| Grayscale.DecodeComponentOrder | src/grayscale/mod.rs:24-32 | the tag table: one to three slots, one slot unless the tag is "Yxx", "Yx" or "xY", three exactly for "Yxx", the value slot at index 1 for "xY" and 0 otherwise, all others ignored |
| Grayscale.WriteValue | src/grayscale/mod.rs:192-199 | a write keeps the store's length; what it writes is stated by Grayscale.WriteKeepsIgnored (no byte outside the value slots changes) and Grayscale.SetThenGet (the value reads back) |
| Grayscale.Representation | src/grayscale/mod.rs:146-153 | the background pixel holds the value under the value slot and 0 under ignored slots |
| Grayscale.SetThenGet | src/grayscale/mod.rs:188-221 | with a one-byte layout, `get_pixel` after `set_pixel` at the same position returns the written value |
| Grayscale.OffsetsDisagree | src/grayscale/mod.rs:193 | with a multi-byte layout the read offset is strictly below the write offset for every x > 0 |
| Grayscale.WriteNotReadBack | src/grayscale/mod.rs:210 | concrete case: with "Yx", a value written at (1, 0) is not what (1, 0) reads back |
| Grayscale.WriteKeepsIgnored | src/grayscale/mod.rs:195-198 | a write changes no byte outside the pixel's value slots |
| Grayscale.BackgroundCellAt | src/grayscale/mod.rs:140-170 | every pixel of a background store holds the representation at its write offset |
| Grayscale.BackgroundGet | src/grayscale/mod.rs:140-221 | with a one-byte layout, every pixel of a background store reads back as the fill value |
| Grayscale.GrayscalePixelBuffer.New | src/grayscale/mod.rs:58-71 | tag defaults to "Y", stride to `width * len`, store is `stride * height` zeros |
| Grayscale.GrayscalePixelBuffer.NewWithData | src/grayscale/mod.rs:96-115 | fails exactly when the bytes are fewer than `stride * height`, where the default stride is `width` for both the check and the stored stride; otherwise keeps the bytes |
| Grayscale.GrayscalePixelBuffer.WithBackground | src/grayscale/mod.rs:140-170 | the store is the representation per pixel, rows padded with zeros when the line width exceeds the width |
| Grayscale.GrayscalePixelBuffer.SetPixel | src/grayscale/mod.rs:188-202 | fails exactly when x or y is at least the width, leaving the store unchanged; otherwise writes the value under the value slots at `x * len + y * stride` and nothing else |
| Grayscale.GrayscalePixelBuffer.GetPixel | src/grayscale/mod.rs:204-221 | fails exactly when x or y is at least the width; otherwise returns the value slot read at `x + y * stride` |
| YUVInterleaved.DecodeComponentOrder | src/yuv_interleaved/mod.rs:28-47 | the two-list table: each list holds Y, U, V and Ignore once; U and V sit in the same slots in both lists; each list's Ignore sits at the other's Y; the first even slot is U for "UYVY", V for "VYUY" and Y otherwise; the second is U exactly for the tags other than "YVYU", "UYVY" and "VYUY" |
| YUVInterleaved.PickOnce | src/yuv_interleaved/mod.rs:238-246 | the read loop over a list leaves a component's variable holding the byte of that component's one slot |
| YUVInterleaved.WriteColor | src/yuv_interleaved/mod.rs:211-222 | a write keeps the store's length; what it writes is stated by YUVInterleaved.SetThenGet (new luma, averaged chroma) and YUVInterleaved.SetKeepsPartnerLuma (the partner pixel's luma is kept) |
| YUVInterleaved.MacroStart | src/yuv_interleaved/mod.rs:211 | `x * 2 + y * stride - (x % 2) * 2` is the start `(x / 2) * 4 + y * stride` of the pixel's macropixel |
| YUVInterleaved.SharedChroma | src/yuv_interleaved/mod.rs:232-250 | the two pixels of a macropixel read the same cb and cr |
| YUVInterleaved.SetThenGet | src/yuv_interleaved/mod.rs:206-251 | `get_pixel` after `set_pixel` at the same pixel returns the written luma and the old chroma averaged with the written chroma |
| YUVInterleaved.SetKeepsPartnerLuma | src/yuv_interleaved/mod.rs:216-221 | a write never changes the luma the other pixel of the macropixel reads |
| YUVInterleaved.Representation | src/yuv_interleaved/mod.rs:162-170 | the background macropixel is four bytes built from the even list |
| YUVInterleaved.ReadRepresentation | src/yuv_interleaved/mod.rs:162-170 | a macropixel holding the representation reads as the fill colour through either list |
| YUVInterleaved.BackgroundMacropixel | src/yuv_interleaved/mod.rs:156-188 | with an even width, the macropixel of every pixel of a background store holds the representation |
| YUVInterleaved.BackgroundGet | src/yuv_interleaved/mod.rs:156-251 | with an even width, every pixel of a background store reads back as the fill colour, for every tag |
| YUVInterleaved.YUV422iPixelBuffer.New | src/yuv_interleaved/mod.rs:74-87 | tag defaults to "YUV422", stride to `width * 2`, store is `stride * height` zeros |
| YUVInterleaved.YUV422iPixelBuffer.NewWithData | src/yuv_interleaved/mod.rs:112-131 | fails exactly when the bytes are fewer than `stride.unwrap_or(width * 2) * height`; otherwise keeps the bytes and stores a default stride of `width * 3` |
| YUVInterleaved.YUV422iPixelBuffer.WithBackground | src/yuv_interleaved/mod.rs:156-188 | tag defaults to "RGB"; the store is `width / 2` representations per row with zero padding |
| YUVInterleaved.YUV422iPixelBuffer.SetPixel | src/yuv_interleaved/mod.rs:206-225 | fails exactly when x or y is at least the width, leaving the store unchanged; otherwise rewrites the macropixel through the parity list: Y overwritten, U and V averaged, other bytes kept |
| YUVInterleaved.YUV422iPixelBuffer.GetPixel | src/yuv_interleaved/mod.rs:227-251 | fails exactly when x or y is at least the width; otherwise decodes y, cb, cr from the macropixel through the parity list |
| YUV422Planar.DecodeComponentOrder | src/yuv422p/mod.rs:19-26 | "YV21" and "YVU" give [V, U], every other tag [U, V] |
| YUV422Planar.WritePlanar | src/yuv422p/mod.rs:187-198 | a write keeps the store's length; what it writes is stated by YUV422Planar.ReadAfterWrite (new luma, averaged chroma, every other byte kept) |
| YUV422Planar.OffsetsDistinct | src/yuv422p/mod.rs:187-189 | the luma, first-plane and second-plane offsets of an in-image pixel are strictly increasing |
| YUV422Planar.ReadAfterWrite | src/yuv422p/mod.rs:182-226 | reading after a write at three distinct offsets gives the new luma and the averaged chroma, and no other byte changes |
| YUV422Planar.SetThenGet | src/yuv422p/mod.rs:182-226 | `get_pixel` after `set_pixel` at the same pixel returns the written luma and the old chroma averaged with the written chroma; every byte but the three is unchanged |
| YUV422Planar.SharedChroma | src/yuv422p/mod.rs:208-221 | pixels 2k and 2k + 1 of a row read the same cb and cr |
| YUV422Planar.PlaneOffsets | src/yuv422p/mod.rs:187-189 | with an even line width the plane offsets are sample `x / 2 + y * (stride / 2)` of a half-width plane after the luma plane, or after the luma plane and one chroma plane |
| YUV422Planar.BackgroundGet | src/yuv422p/mod.rs:129-164 | with an even width and an even line width at least the width, every pixel of a background store reads back as the fill colour |
| YUV422Planar.YUV422pPixelBuffer.New | src/yuv422p/mod.rs:51-64 | tag defaults to "YV12"; stores stride `width` but allocates `stride.unwrap_or(width * 2) * height` zeros |
| YUV422Planar.YUV422pPixelBuffer.NewWithData | src/yuv422p/mod.rs:87-106 | fails exactly when the bytes are fewer than `stride.unwrap_or(width) * height`; otherwise keeps them |
| YUV422Planar.YUV422pPixelBuffer.WithBackground | src/yuv422p/mod.rs:129-164 | the store is the padded luma plane followed by the two chroma planes, U first exactly when the order starts with U |
| YUV422Planar.YUV422pPixelBuffer.SetPixel | src/yuv422p/mod.rs:182-201 | fails exactly when x or y is at least the width, leaving the store unchanged; otherwise overwrites the luma byte and averages the cb and cr plane bytes in tag order |
| YUV422Planar.YUV422pPixelBuffer.GetPixel | src/yuv422p/mod.rs:203-226 | fails exactly when x or y is at least the width; otherwise reads luma and the two plane bytes in tag order |
| FixedRGB.SetThenGet | src/rgb.rs:129-153 | `get_pixel` after `set_pixel` at the same position returns the colour |
| FixedRGB.SetLeavesOthers | src/rgb.rs:134-139 | a write leaves the colour of every other pixel unchanged |
| FixedRGB.BackgroundGet | src/rgb.rs:96-115 | every pixel of a background store reads back as the fill colour |
| FixedRGB.BackgroundIteration | src/rgb.rs:256-264 | every position the iterator visits over a background store reads the fill colour |
| FixedRGB.RGBPixelBuffer.New | src/rgb.rs:69-78 | stride defaults to `width * 3`, store is `stride * height` zeros |
| FixedRGB.RGBPixelBuffer.NewWithData | src/rgb.rs:80-94 | fails exactly when the bytes are fewer than `stride.unwrap_or(width * 3) * height`; otherwise keeps them |
| FixedRGB.RGBPixelBuffer.WithBackground | src/rgb.rs:96-115 | the store is [r, g, b] per pixel with zero padding when the stride exceeds `width * 3` |
| FixedRGB.RGBPixelBuffer.SetPixel | src/rgb.rs:129-142 | fails exactly when x or y is at least the width, leaving the store unchanged; otherwise overwrites the 3 bytes at `x * 3 + y * stride` and nothing else |
| FixedRGB.RGBPixelBuffer.GetPixel | src/rgb.rs:144-153 | fails exactly when x or y is at least the width; otherwise returns the colour of the 3 bytes at `x * 3 + y * stride` |
| FixedRGB.RGBPixelIterator.IntoIter | src/rgb.rs:57-63 | the iterator holds the buffer and starts at (0, 0) |
| FixedRGB.RGBPixelIterator.Count | src/rgb.rs:48-50 | `width * height`, the number of positions visited from (0, 0) when the width is not zero |
| FixedRGB.RGBPixelIterator.Next | src/rgb.rs:31-46 | None exactly when y has reached the height, with the state unchanged; otherwise the colour at (x, y) reported at the position after the row-major step, which becomes the new state |
| FixedRGB.RGBPixelIterator.Collect | src/rgb.rs:31-46 | draining yields one report per remaining row-major position, in order |
| FixedRGB.RGBPixelIterator.CollectedTraversal | src/rgb.rs:31-46 | drained from (0, 0), item k is row-major pixel k reported at position number k + 1 |
| RGBIter.IteratorAgreesWithGet | src/rgb/iter.rs:27-29 | the iterator's three bytes are the colour `get_pixel` returns for the tag "RGB", and that colour with red and blue exchanged for "BGR" |
| RGBIter.BackgroundIteration | src/rgb/iter.rs:67-75 | over the store `new_with_background` builds with the default tag, every visited position reads the fill colour |
| RGBIter.RGBPixelIterator.IntoIter | src/rgb/iter.rs:48-54 | the iterator holds the buffer and starts at (0, 0) |
| RGBIter.RGBPixelIterator.Count | src/rgb/iter.rs:39-41 | `width * height`, the number of positions visited when the width is not zero |
| RGBIter.RGBPixelIterator.Next | src/rgb/iter.rs:22-37 | None exactly when y has reached the height, state unchanged; otherwise the three bytes at `x * 3 + y * stride`, reported at the post-step position |
| RGBIter.RGBPixelIterator.Collect | src/rgb/iter.rs:22-37 | draining yields one report per remaining row-major position, in order |
| RGBIter.RGBPixelIterator.CollectedTraversal | src/rgb/iter.rs:30-36 | drained from (0, 0), item k is row-major pixel k reported at position number k + 1 |
| BGRIter.BGRPixelIterator.IntoIter | src/bgr/iter.rs:48-54 | the iterator holds the buffer's dimensions and bytes and starts at (0, 0) |
| BGRIter.BGRPixelIterator.Count | src/bgr/iter.rs:39-41 | `width * height`, the number of positions visited when the width is not zero |
| BGRIter.BGRPixelIterator.Next | src/bgr/iter.rs:22-37 | None exactly when y has reached the height, state unchanged; otherwise r, g, b from bytes +2, +1, +0, reported at the post-step position |
| BGRIter.BGRPixelIterator.Collect | src/bgr/iter.rs:22-37 | draining yields one report per remaining row-major position, in order |
| BGRIter.BGRPixelIterator.CollectedTraversal | src/bgr/iter.rs:30-36 | drained from (0, 0), item k is row-major pixel k reported at position number k + 1 |
| RGBAIter.RGBAPixelIterator.IntoIter | src/rgba/iter.rs:48-54 | the iterator holds the buffer's dimensions and bytes and starts at (0, 0) |
| RGBAIter.RGBAPixelIterator.Count | src/rgba/iter.rs:39-41 | `width * height`, the number of positions visited when the width is not zero |
| RGBAIter.RGBAPixelIterator.Next | src/rgba/iter.rs:22-37 | None exactly when y has reached the height, state unchanged; otherwise the four bytes at `x * 4 + y * stride` in order, reported at the post-step position |
| RGBAIter.RGBAPixelIterator.Collect | src/rgba/iter.rs:22-37 | draining yields one report per remaining row-major position, in order |
| RGBAIter.RGBAPixelIterator.CollectedTraversal | src/rgba/iter.rs:30-36 | drained from (0, 0), item k is row-major pixel k reported at position number k + 1 |
| BGRA.Layout | src/bgra/mod.rs:88-94 | the four stored bytes unpack to the colour |
| BGRA.SetThenGet | src/bgra/mod.rs:83-108 | `get_pixel` after `set_pixel` at the same position returns the colour |
| BGRA.SetLeavesOthers | src/bgra/mod.rs:88-94 | a write leaves the colour of every other pixel unchanged |
| BGRA.BackgroundGet | src/bgra/mod.rs:48-69 | every pixel of a background store reads back as the fill colour |
| BGRA.BackgroundPaddingZero | src/bgra/mod.rs:59-62 | every padding byte of a padded background store is zero |
| BGRA.BGRAPixelBuffer.New | src/bgra/mod.rs:21-30 | stride defaults to `width * 4`, store is `stride * height` zeros |
| BGRA.BGRAPixelBuffer.NewWithData | src/bgra/mod.rs:32-46 | fails exactly when the bytes are fewer than `stride.unwrap_or(width * 4) * height`; otherwise keeps them, default stride `width * 4` |
| BGRA.BGRAPixelBuffer.WithBackground | src/bgra/mod.rs:48-69 | the store is [b, g, r, a] per pixel with zero padding beyond `width * 4` |
| BGRA.BGRAPixelBuffer.SetPixel | src/bgra/mod.rs:83-97 | fails exactly when x or y is at least the width, leaving the store unchanged; otherwise overwrites the 4 bytes at `x * 4 + y * stride` with b, g, r, a and nothing else |
| BGRA.BGRAPixelBuffer.GetPixel | src/bgra/mod.rs:99-108 | fails exactly when x or y is at least the width; otherwise reassembles r, g, b, a from bytes +2, +1, +0, +3 |
| BGRAIter.BackgroundIteration | src/bgra/iter.rs:68-76 | over a background store every visited position reads the fill colour |
| BGRAIter.BGRAPixelIterator.IntoIter | src/bgra/iter.rs:48-54 | the iterator holds the buffer and starts at (0, 0) |
| BGRAIter.BGRAPixelIterator.Count | src/bgra/iter.rs:39-41 | `width * height`, the number of positions visited when the width is not zero |
| BGRAIter.BGRAPixelIterator.Next | src/bgra/iter.rs:22-37 | None exactly when y has reached the height, state unchanged; otherwise the colour `get_pixel` reads at (x, y), reported at the post-step position |
| BGRAIter.BGRAPixelIterator.Collect | src/bgra/iter.rs:22-37 | draining yields one report per remaining row-major position, in order |
| BGRAIter.BGRAPixelIterator.CollectedTraversal | src/bgra/iter.rs:30-36 | drained from (0, 0), item k is row-major pixel k reported at position number k + 1 |
| UYVY.MacroStart | src/uyvy/mod.rs:85-96 | the first byte of a pixel's macropixel is `(x / 2) * 4 + y * stride` |
| UYVY.UAt | src/uyvy/mod.rs:89-94 | U sits at `start` for even x and `start - 2` for odd x, the first byte of the macropixel either way |
| UYVY.YAt | src/uyvy/mod.rs:89-94 | the luma sits at `start + 1`, the second byte of the macropixel for even x and the fourth for odd x |
| UYVY.VAt | src/uyvy/mod.rs:89-94 | V sits at `start + 2` for even x and `start` for odd x, the third byte of the macropixel either way |
| UYVY.WritePixel | src/uyvy/mod.rs:85-96 | after a write the luma byte holds the new luma, the U and V bytes the averages, and every other byte is unchanged |
| UYVY.SetThenGet | src/uyvy/mod.rs:80-121 | `get_pixel` after `set_pixel` returns the written luma and the old chroma averaged with the written chroma |
| UYVY.SharedChroma | src/uyvy/mod.rs:101-121 | pixels 2k and 2k + 1 read the same cb and cr, and a write at either leaves the other's luma byte unchanged |
| UYVY.BackgroundGet | src/uyvy/mod.rs:47-66 | with an even width, every pixel of a background store reads back as the fill colour |
| UYVY.OddWidthShortRows | src/uyvy/mod.rs:53-58 | with an odd width and padding, `width / 2` macropixels leave each row two bytes short of the stride |
| UYVY.UYVYPixelBuffer.New | src/uyvy/mod.rs:20-29 | stride defaults to `width * 2`, store is `stride * height` zeros |
| UYVY.UYVYPixelBuffer.NewWithData | src/uyvy/mod.rs:31-45 | fails exactly when the bytes are fewer than `stride.unwrap_or(width * 2) * height`; otherwise keeps them and stores a default stride of `width * 3` |
| UYVY.UYVYPixelBuffer.WithBackground | src/uyvy/mod.rs:47-66 | the store is `width / 2` macropixels [cb, y, cr, y] per row with zero padding |
| UYVY.UYVYPixelBuffer.SetPixel | src/uyvy/mod.rs:80-99 | fails exactly when x or y is at least the width, leaving the store unchanged; otherwise the store is the even/odd write of the pixel |
| UYVY.UYVYPixelBuffer.GetPixel | src/uyvy/mod.rs:101-121 | fails exactly when x or y is at least the width; otherwise reads Y, U, V from the even/odd offsets the write uses |
| UYVYIter.BackgroundIteration | src/uyvy/iter.rs:80-88 | with an even width, every visited position of a background store reads the fill colour |
| UYVYIter.UYVYPixelIterator.IntoIter | src/uyvy/iter.rs:61-67 | the iterator holds the buffer and starts at (0, 0) |
| UYVYIter.UYVYPixelIterator.Count | src/uyvy/iter.rs:52-54 | `width * height`, the number of positions visited when the width is not zero |
| UYVYIter.UYVYPixelIterator.Next | src/uyvy/iter.rs:21-50 | None exactly when y has reached the height, state unchanged; otherwise the colour `get_pixel` reads at (x, y), reported at the post-step position |
| UYVYIter.UYVYPixelIterator.Collect | src/uyvy/iter.rs:21-50 | draining yields one report per remaining row-major position, in order |
| UYVYIter.UYVYPixelIterator.CollectedTraversal | src/uyvy/iter.rs:43-49 | drained from (0, 0), item k is row-major pixel k reported at position number k + 1 |
| Y800.FromLuma | src/y800/mod.rs:88-96 | a read gives the stored luma and zero chroma |
| Y800.SetThenGet | src/y800/mod.rs:77-96 | over the store `set_pixel` leaves, pixel (x, y) reads back the written luma with zero chroma and every other in-image pixel reads as before, when the stride holds a row |
| Y800.PixelsDistinct | src/y800/mod.rs:82 | different in-image pixels have different bytes |
| Y800.BackgroundGet | src/y800/mod.rs:45-63 | every pixel of a background store reads back as the fill luma with zero chroma |
| Y800.Y800PixelBuffer.New | src/y800/mod.rs:18-27 | stride defaults to `width`, store is `stride * height` zeros |
| Y800.Y800PixelBuffer.NewWithData | src/y800/mod.rs:29-43 | fails exactly when the bytes are fewer than `stride.unwrap_or(width) * height`; otherwise keeps them |
| Y800.Y800PixelBuffer.WithBackground | src/y800/mod.rs:45-63 | the store is `width` lumas per row followed by zeros up to the stride |
| Y800.Y800PixelBuffer.SetPixel | src/y800/mod.rs:77-86 | fails exactly when x or y is at least the width, leaving the store unchanged; otherwise replaces only the byte at `x + y * stride` with the luma |
| Y800.Y800PixelBuffer.GetPixel | src/y800/mod.rs:88-96 | fails exactly when x or y is at least the width; otherwise returns the luma at `x + y * stride` with zero chroma |
| Y800Iter.BackgroundIteration | src/y800/iter.rs:65-73 | every visited position of a background store reads the fill luma |
| Y800Iter.Y800PixelIterator.IntoIter | src/y800/iter.rs:46-52 | the iterator holds the buffer and starts at (0, 0) |
| Y800Iter.Y800PixelIterator.Count | src/y800/iter.rs:37-39 | `width * height`, the number of positions visited when the width is not zero |
| Y800Iter.Y800PixelIterator.Next | src/y800/iter.rs:21-35 | None exactly when y has reached the height, state unchanged; otherwise the luma at `x + y * stride` with zero chroma, reported at the post-step position |
| Y800Iter.Y800PixelIterator.Collect | src/y800/iter.rs:21-35 | draining yields one report per remaining row-major position, in order |
| Y800Iter.Y800PixelIterator.CollectedTraversal | src/y800/iter.rs:28-34 | drained from (0, 0), item k is row-major pixel k reported at position number k + 1 |
| GrayscaleIter.BackgroundIteration | src/grayscale/iter.rs:21-34 | with a one-byte layout and height <= width, every visited position passes the bounds check and reads the fill value |
| GrayscaleIter.GrayscalePixelIterator.IntoIter | src/grayscale/iter.rs:45-51 | the iterator holds the buffer and starts at (0, 0) |
| GrayscaleIter.GrayscalePixelIterator.Count | src/grayscale/iter.rs:36-38 | `width * height`, the number of positions visited when the width is not zero |
| GrayscaleIter.GrayscalePixelIterator.Next | src/grayscale/iter.rs:21-34 | None exactly when y has reached the height, state unchanged; otherwise the unwrapped `get_pixel` at (x, y), reported at the post-step position |
| GrayscaleIter.GrayscalePixelIterator.Collect | src/grayscale/iter.rs:21-34 | draining yields one report per remaining row-major position, in order |
| GrayscaleIter.GrayscalePixelIterator.CollectedTraversal | src/grayscale/iter.rs:27-33 | drained from (0, 0), item k is row-major pixel k reported at position number k + 1 |
| YUV422iIter.BackgroundIteration | src/yuv422i/iter.rs:21-35 | with an even width and height <= width, every visited position passes the bounds check and reads the fill colour |
| YUV422iIter.YUV422iPixelIterator.IntoIter | src/yuv422i/iter.rs:46-52 | the iterator holds the buffer and starts at (0, 0) |
| YUV422iIter.YUV422iPixelIterator.Count | src/yuv422i/iter.rs:37-39 | `width * height`, the number of positions visited when the width is not zero |
| YUV422iIter.YUV422iPixelIterator.Next | src/yuv422i/iter.rs:21-35 | None exactly when y has reached the height, state unchanged; otherwise the unwrapped `get_pixel` at (x, y), reported at the post-step position |
| YUV422iIter.YUV422iPixelIterator.Collect | src/yuv422i/iter.rs:21-35 | draining yields one report per remaining row-major position, in order |
| YUV422iIter.YUV422iPixelIterator.CollectedTraversal | src/yuv422i/iter.rs:28-34 | drained from (0, 0), item k is row-major pixel k reported at position number k + 1 |
| YUV422pIter.BackgroundIteration | src/yuv422p/iter.rs:21-35 | with an even width and stride and height <= width, every visited position passes the bounds check and reads the fill colour |
| YUV422pIter.YUV422pPixelIterator.IntoIter | src/yuv422p/iter.rs:46-52 | the iterator holds the buffer and starts at (0, 0) |
| YUV422pIter.YUV422pPixelIterator.Count | src/yuv422p/iter.rs:37-39 | `width * height`, the number of positions visited when the width is not zero |
| YUV422pIter.YUV422pPixelIterator.Next | src/yuv422p/iter.rs:21-35 | None exactly when y has reached the height, state unchanged; otherwise the unwrapped `get_pixel` at (x, y), reported at the post-step position |
| YUV422pIter.YUV422pPixelIterator.Collect | src/yuv422p/iter.rs:21-35 | draining yields one report per remaining row-major position, in order |
| YUV422pIter.YUV422pPixelIterator.CollectedTraversal | src/yuv422p/iter.rs:28-34 | drained from (0, 0), item k is row-major pixel k reported at position number k + 1 |
| YUV444iIter.YUV444iPixelIterator.IntoIter | src/yuv444i/iter.rs:45-51 | the iterator holds the buffer's dimensions and its `get_pixel` and starts at (0, 0) |
| YUV444iIter.YUV444iPixelIterator.Count | src/yuv444i/iter.rs:36-38 | `width * height`, the number of positions visited when the width is not zero |
| YUV444iIter.YUV444iPixelIterator.Next | src/yuv444i/iter.rs:21-34 | None exactly when y has reached the height, state unchanged; otherwise the unwrapped `get_pixel` at (x, y), reported at the post-step position |
| YUV444iIter.YUV444iPixelIterator.Collect | src/yuv444i/iter.rs:21-34 | draining yields one report per remaining row-major position, in order |
| YUV444iIter.YUV444iPixelIterator.CollectedTraversal | src/yuv444i/iter.rs:27-33 | drained from (0, 0), item k is row-major pixel k reported at position number k + 1 |
| Instantiations.InstantiationsComplete | src/conversion.rs:26-40 | twelve instantiated pairs, all different, none from a kind to itself, and every ordered pair of two different kinds among them |
| Conversion.Stop | src/conversion.rs:11-13 | the loop gets past exactly the items before the first write that fails the bounds check or runs past the store |
| Conversion.Paint | src/conversion.rs:11-13 | the successive writes keep the destination's length |
| Conversion.TraversalStop | src/conversion.rs:11-13 | over a whole traversal the first failing write is item `width * min(width, height) - 1` |
| Conversion.TraversalPanics | src/conversion.rs:12 | converting a whole traversal of a non-empty buffer never completes: it panics, at the latest on the last item |
| Conversion.TraversalPaint | src/conversion.rs:10-13 | before the panic, destination pixel (0, 0) is still zero and the colour of row-major pixel k sits at destination position k + 1 |
| Conversion.IntoRGB | src/conversion.rs:9-16 | a fresh zero-filled RGB buffer of the source's dimensions; the outcome is the first failing write, and the store is the writes of every item before it |
| Conversion.IntoBGRA | src/conversion.rs:9-16 | the same loop into a fresh BGRA buffer |

## Left out

- The colour types and their byte conversions come from an external colour crate, which is not part of this model. Colours are byte records. The cross-space `color.into()` of the conversion is a function parameter.
- Pixels.Average: the sum `old + new` is computed over unbounded integers. Rust computes it in `u8`, which panics in debug builds and wraps in release builds when the sum exceeds 255.
- UYVY.WritePixel, YUVInterleaved.WriteColor and YUV422Planar.WritePlanar: these inherit that unbounded average.
- Index-out-of-range panics are preconditions, not behaviour:
  - `Addressable` and `Readable` require every byte a method touches to lie inside the store;
  - this covers the rows between height and width, the two-list requirement on the interleaved table, and size checks that cover only part of the layout.
- Grayscale.GrayscalePixelBuffer.WithBackground: requires the line width to be at least `width * len` when it exceeds `width`. Otherwise the source's `usize` subtraction underflows.
- The tag-based iterators' unwrap of `get_pixel`: their `Next` and `Collect` require the bounds check to pass. RowMajor.BoundsCheckPasses states which images that excludes.
- The BGR, RGBA and 4:4:4 interleaved buffer modules are not part of this model:
  - the BGR and RGBA iterators read a snapshot of the buffer's dimensions and bytes;
  - the 4:4:4 iterator takes `get_pixel` as a function;
  - so no background-iteration property is stated for those three.
- `src/yuv422i/mod.rs` is not part of this model: `src/yuv422i/iter.rs:4` takes its `YUV422iPixelBuffer` from that module. The 4:2:2 interleaved iterator is modelled over the `YUV422iPixelBuffer` of `src/yuv_interleaved/mod.rs` (`YUVInterleaved.YUV422iPixelBuffer`), on the assumption that the two are the same type; `src/yuv_interleaved/tests.rs:5` imports the buffer from there.
- Conversion.IntoRGB and Conversion.IntoBGRA take the items the source iterator yields as a sequence, rather than pulling them one by one. The source's ownership transfer into the iterator is not modelled.
- Only RGB and BGRA destinations are modelled, because the BGR and RGBA buffers are not part of this model. A panic is reported as `Panicked(k)` and returns the destination as it was. The source would unwind.
- RGBIter: the iterator over the tag-driven RGB buffer reads three bytes at `x * 3 + y * stride` whatever the tag. Its agreement with `get_pixel` is stated for "RGB" and "BGR" only.
- Getters (`get_width`, `get_height`, `get_stride`, `get_fourcc`) are plain field reads, so they are the classes' `const` fields.
- Lifetimes, `Iterator`/`IntoIterator` plumbing, derives, crate feature attributes and `macro_rules!` mechanics are not modelled. The twelve macro instantiations are a table plus two generic methods.
- The test modules are not modelled. They inform the stated properties.
