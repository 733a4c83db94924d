# Colour image framework of the Sudoku application, in Dafny

This project models the in-memory image layer that the Sudoku application uses to render grids
and labels:

- the packed-pixel colour codec of `ImageUtil`: channel validation, `encodeRgb` (three channels
  packed as `0xFFRRGGBB`), `decodeRgb` (the three low bytes back), the output-format check of
  `writeImage`, and the loop of `readColorImage` that turns the flat row-major pixel array
  returned by the image reader into a height x width matrix;
- the `ColorImage` pixel buffer: a matrix of packed pixels with a blank, a wrapping and a
  filled constructor, `getWidth`, `getHeight`, per-pixel `setColor`/`getColor`, the rectangle
  `Copy`, and text drawing by chroma key: the label is rendered on a background of the inverted
  text colour (the mask), and every rendered pixel that differs from the packed mask is copied
  into the image.

Files:

- `image_util.dfy` (module `ImageUtil`): the codec on `bv32` pixels, the format check and the
  re-packing loop. A Java `int` pixel is represented by its 32 bits; `JavaInt` is the signed
  value Java sees. Java's `>>` on `int` is an arithmetic shift and Dafny's on `bv32` a logical
  one; the two differ only in bits that `& 0xFF` removes, and `DecodeRgb` states its result
  against Java's arithmetic reading (floor division and a non-negative remainder on the signed
  value).
- `grids.dfy` (module `Grids`): the matrix as a value (`Grid`, a sequence of lines) and the
  three ways the buffer changes it, as functions: `SetPixel`, `CopyRegion` and `Composite`,
  together with the lemmas that relate repeated calls.
- `color_image.dfy` (module `ColorImages`): `Color`, the mask colour, and class `ColorImage`
  whose field `data` is an `array2<bv32>` changed in place. Its ghost function `Pixels()` reads
  the array as a `Grid`, and each method that changes the array states its new `Pixels()` as a
  `Grids` function of the old one.

Every `IllegalArgumentException` becomes a `Failure`/`Fail` value carrying the data of the
exception message. An array access that would throw `ArrayIndexOutOfBoundsException` becomes
a precondition, but only on the inputs where Java reaches that access before any
`IllegalArgumentException`. So `setColor` needs line y inside the image, and column x inside
it only for a valid colour: Java selects `data[y]`, then encodes, and checks x at the store.
The text drawing needs at least one line (where `getWidth` reads `data[0]`) only for a valid
text colour, because the mask is encoded first. `getColor` needs both coordinates inside the
image. A `Copy` source must be no larger than the target, except that a source with no line
or no column reads and writes nothing and may have any size. A Dafny constructor cannot
report the exception the filled constructor throws, so that constructor is the static method
`Filled`, which returns the new image or the error. The text rasteriser
`createColorImageWithText` is a function parameter `render`
from a `TextRequest` (its arguments) to a `Grid`; the only thing assumed of it is that it
returns a grid of the requested size (`FullSize`).

## Model

| member | source | states |
|---|---|---|
| ImageUtil.ValidRgbComponent | sudoku/src/sudoku/framework/ImageUtil.java:31-33 | holds exactly for the 256 values of an unsigned byte, 0 to 255 |
| ImageUtil.ValidRgb | sudoku/src/sudoku/framework/ImageUtil.java:24-26 | holds exactly when each of the three channels is a byte value, 0 to 255 |
| ImageUtil.ValidateRgb | sudoku/src/sudoku/framework/ImageUtil.java:24-42 | passes exactly when each of r, g, b lies in [0, 255]; otherwise fails with the three channels |
| ImageUtil.EncodeRgb | sudoku/src/sudoku/framework/ImageUtil.java:47-51 | fails exactly when some channel is outside [0, 255], with the invalid-RGB error on the three channels |
| ImageUtil.EncodeLayout | sudoku/src/sudoku/framework/ImageUtil.java:50 | a valid triple encodes to a pixel with 0xFF in the top byte and r, g, b in the three bytes below, whose Java value r·2^16 + g·2^8 + b − 2^24 is negative |
| ImageUtil.DecodeRgb | sudoku/src/sudoku/framework/ImageUtil.java:57-62 | never fails; returns three valid channels equal to Java's arithmetic `(v >> 16) & 0xFF`, `(v >> 8) & 0xFF`, `v & 0xFF` on the signed value |
| ImageUtil.ShiftMask | sudoku/src/sudoku/framework/ImageUtil.java:58 | the red, green and blue bytes of a pixel equal floor division and remainder of its signed value, so logical and arithmetic shifts give the same channels |
| ImageUtil.RoundTrip | sudoku/src/sudoku/framework/ImageUtil.java:53-62 | decoding is the inverse of encoding: for every valid triple, decode(encode(r, g, b)) == [r, g, b] |
| ImageUtil.DecodeIgnoresAlpha | sudoku/src/sudoku/framework/ImageUtil.java:58 | two pixels that agree on bits 0..23 decode to the same triple |
| ImageUtil.Reencode | sudoku/src/sudoku/framework/ImageUtil.java:133-137 | decoding a pixel and encoding the triple again gives the pixel with its alpha byte forced to 0xFF, which decodes to the same colour |
| ImageUtil.CheckFormat | sudoku/src/sudoku/framework/ImageUtil.java:151-153 | passes exactly for the strings "gif", "jpg" and "png" (whole string, case-sensitive); otherwise fails with the format |
| ImageUtil.CheckFormatWholeString | sudoku/src/sudoku/framework/ImageUtil.java:152 | an accepted format followed by any non-empty suffix is refused |
| ImageUtil.ReadColorImage | sudoku/src/sudoku/framework/ImageUtil.java:128-139 | the matrix is freshly allocated, height x width, and `data[y][x]` is the pixel at the running index of (x, y) in the flat array, alpha forced to 0xFF |
| ImageUtil.RepackPixel | sudoku/src/sudoku/framework/ImageUtil.java:133-137 | one step of the loop: splitting a pixel into bytes and encoding them keeps the colour bytes and sets alpha to 0xFF |
| ImageUtil.FlatIndexIsRowMajor | sudoku/src/sudoku/framework/ImageUtil.java:130-133 | the running index at pixel (x, y) is y·width + x |
| ImageUtil.FlatIndexInRange | sudoku/src/sudoku/framework/ImageUtil.java:133 | the running index never leaves an array of width·height pixels |
| ImageUtil.FlatIndexCovers | sudoku/src/sudoku/framework/ImageUtil.java:130-139 | every position k < width·height of the flat array is the index of pixel (k mod width, k div width) inside the image, so the walk uses the whole array and ends at width·height |
| Grids.SetPixel | sudoku/src/sudoku/framework/ColorImage.java:56 | storing at (x, y) keeps the shape, puts the value at (x, y) and leaves every other pixel unchanged |
| Grids.SetPixelIdempotent | sudoku/src/sudoku/framework/ColorImage.java:55-57 | storing the same value twice leaves what storing it once leaves |
| Grids.CopyRow | sudoku/src/sudoku/framework/ColorImage.java:62-63 | one line of `Copy`: the first pixels take the source line (alpha forced), the rest keep their value, length unchanged |
| Grids.CopyRegion | sudoku/src/sudoku/framework/ColorImage.java:59-64 | inside the rectangle the source covers, each pixel is the source pixel with alpha forced; outside it every pixel is unchanged; the shape is kept |
| Grids.CopyRegionIdempotent | sudoku/src/sudoku/framework/ColorImage.java:59-64 | copying the same source twice leaves what copying it once leaves |
| Grids.CopyRegionSameShape | sudoku/src/sudoku/framework/ColorImage.java:59-64 | copying a source of the target's own shape gives a result independent of the target's old content |
| Grids.CompositeRow | sudoku/src/sudoku/framework/ColorImage.java:96-101 | one line of the composite: a rendered pixel different from the mask replaces the pixel, one equal to the mask leaves it |
| Grids.Composite | sudoku/src/sudoku/framework/ColorImage.java:95-102 | pixelwise: where the rendered grid differs from the mask the result is the rendered pixel, elsewhere the old pixel; the shape is kept |
| Grids.CompositeIdempotent | sudoku/src/sudoku/framework/ColorImage.java:95-102 | compositing the same rendered grid twice leaves what compositing it once leaves |
| Grids.CompositeBackgroundOnly | sudoku/src/sudoku/framework/ColorImage.java:95-102 | a rendered grid that is all mask leaves the image unchanged |
| Grids.CompositeNoBackground | sudoku/src/sudoku/framework/ColorImage.java:95-102 | a rendered grid with no mask pixel replaces the image entirely |
| ColorImages.MaskColor | sudoku/src/sudoku/framework/ColorImage.java:85-89 | the channel-wise inversion is a valid colour exactly when the text colour is, and is never the text colour itself |
| ColorImages.MaskKey | sudoku/src/sudoku/framework/ColorImage.java:91 | the packed mask `encodedMaskRGB` of a valid text colour has alpha 0xFF and reads back as the mask colour |
| ColorImages.MaskKeyIsNotTextColor | sudoku/src/sudoku/framework/ColorImage.java:85-98 | for a valid text colour the packed mask differs from the packed text colour, so a pixel painted exactly in the text colour is never keyed out |
| ColorImages.ColorOf | sudoku/src/sudoku/framework/ColorImage.java:67-70 | the colour read from any pixel is valid, and encoding it gives back the pixel with alpha forced |
| ColorImages.ColorRoundTrip | sudoku/src/sudoku/framework/ColorImage.java:55-70 | a valid colour stored through `encodeRgb` is read back unchanged |
| ColorImages.ColorOfIgnoresAlpha | sudoku/src/sudoku/framework/ColorImage.java:68 | the alpha byte of a pixel does not affect the colour read from it |
| ColorImages.ColorOfZero | sudoku/src/sudoku/framework/ColorImage.java:19-21 | the zero pixel of a new matrix reads as black (0, 0, 0) |
| ColorImages.CopyKeepsColors | sudoku/src/sudoku/framework/ColorImage.java:59-64 | after `Copy`, every pixel in the copied rectangle reads as the colour the source has there |
| ColorImages.ColorImage.Pixels | sudoku/src/sudoku/framework/ColorImage.java:6-14 | the buffer is height lines of width pixels and line y, column x is `data[y][x]` |
| ColorImages.ColorImage.Blank | sudoku/src/sudoku/framework/ColorImage.java:19-21 | a new height x width matrix whose every pixel is 0 and reads as black |
| ColorImages.ColorImage.Wrap | sudoku/src/sudoku/framework/ColorImage.java:27-29 | the image shares the caller's matrix |
| ColorImages.ColorImage.Filled | sudoku/src/sudoku/framework/ColorImage.java:31-39 | with at least one line: fails exactly when there is a column and the colour is invalid; otherwise the image is width x height, each pixel is `encodeRgb(color)` (alpha 0xFF) and reads as the colour |
| ColorImages.ColorImage.GetWidth | sudoku/src/sudoku/framework/ColorImage.java:47-49 | the length of the first line |
| ColorImages.ColorImage.GetHeight | sudoku/src/sudoku/framework/ColorImage.java:51-53 | the number of lines |
| ColorImages.ColorImage.SetColor | sudoku/src/sudoku/framework/ColorImage.java:55-57 | fails exactly on an invalid colour, whatever column x is, and then changes nothing; otherwise the new matrix is `SetPixel` of the old one with the encoded colour, (x, y) reads back as the colour and no other pixel changes |
| ColorImages.ColorImage.GetColor | sudoku/src/sudoku/framework/ColorImage.java:67-70 | the colour at (x, y) is valid and encodes to the stored pixel with alpha forced |
| ColorImages.ColorImage.Copy | sudoku/src/sudoku/framework/ColorImage.java:59-64 | for a source no larger than this image, or one with no line or no column (then nothing changes), also when the source is this image itself, the new matrix is `CopyRegion` of the old one and the source's old matrix |
| ColorImages.ColorImage.CopyLine | sudoku/src/sudoku/framework/ColorImage.java:62-63 | the inner loop of `Copy`: line y of the rectangle takes the source's line y with alpha forced; no other pixel changes |
| ColorImages.ColorImage.DrawTextAligned | sudoku/src/sudoku/framework/ColorImage.java:84-103 | fails, before rendering and without a change, exactly when the text colour is invalid (also on an image with no line), with the error on the mask channels; otherwise the new matrix is `Composite` of the old one with the grid rendered on the mask colour and the packed mask |
| ColorImages.ColorImage.CompositeLine | sudoku/src/sudoku/framework/ColorImage.java:96-101 | the inner compositing loop: each pixel of line y takes the rendered value where it differs from the mask and keeps its value elsewhere; no other line changes |
| ColorImages.ColorImage.DrawText | sudoku/src/sudoku/framework/ColorImage.java:74-76 | the outcome of the private drawing with the text not centred: fails exactly on an invalid text colour, with the error on the mask channels and no change; otherwise the new matrix is the composite of the rendered grid |
| ColorImages.ColorImage.DrawCenteredText | sudoku/src/sudoku/framework/ColorImage.java:79-81 | the outcome of the private drawing with the text centred: fails exactly on an invalid text colour, with the error on the mask channels and no change; otherwise the new matrix is the composite of the rendered grid |

## Left out

- File I/O: `validateFile`, `ImageIO.read` and `ImageIO.write`, the file constructor `ColorImage(String)`, `writeImg`, and the pixel copy of `writeImage` into a `BufferedImage`. Only the format check of `writeImage` and the re-packing loop of `readColorImage`, with the flat pixel array as a parameter, are modelled.
- Text rendering: `createColorImageWithText` uses AWT fonts, font metrics and the glyph rasteriser. It is the parameter `render`, of which only the grid size is assumed. Its own failure on an image with no column (`BufferedImage` refuses a zero width) is not modelled.
- `luminance` and `readBinaryImage`: floating-point arithmetic and `Math.round`.
- Ragged matrices and aliasing: a Java `int[][]` may have lines of different lengths. Here the matrix is a rectangular `array2`. `Wrap` shares the caller's array as `ColorImage(int[][])` does, but no contract describes how the image changes when the caller later writes to that array.
- The Java class `Color` is not shown; it is modelled as a datatype of three unbounded integers, and nothing is assumed about its own validation.
- Negative sizes (`NegativeArraySizeException`): widths and heights are `nat`.
- ColorImages.ColorImage.DrawTextAligned: the mask channels are `255 - c` over unbounded integers. For a channel at or below 255 - 2^31, Java's `int` subtraction wraps, so the exception message would show a different (still invalid) value. Which colours fail is the same.
- ColorImages.ColorImage.Filled: a static method rather than a constructor, because a Dafny constructor cannot report the exception. The height-0 case, where `getWidth` reads a missing `data[0]`, is a precondition.
