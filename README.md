# ImageProcesser image processors in Dafny

A Dafny model of the computational core of the Kotlin `ImageProcesser`
library. The library builds a tree of `MyNode`s, each holding an
`ImageProcessor`. The tree turns a byte buffer into another byte buffer.
A buffer is either an encoded image (JPEG, PNG or WebP) or raw ARGB8888
pixels: four bytes per pixel in A, R, G, B order, row-major.

The model covers:

- **Stack blur** (`common.dfy`, `stackblur_spec.dfy`, `stackblur.dfy`).
  `stackBlurRawArgb` is an imperative Dafny method over arrays, with the
  same loops as the Kotlin code:
  - unpacking the bytes to `0xAARRGGBB` ints;
  - the division table `dv`;
  - the horizontal pass, using a ring buffer of `2r+1` samples and running
    sums;
  - the vertical pass over the intermediate `r`/`g`/`b` arrays;
  - repacking into a copy of the input.

  It is proved equal to a pure specification, `StackBlurSpec.StackBlur`.
  There, every output channel is the triangle-weighted sum of the clamped
  neighbours, divided by `divsumSq`.
- **Format sniffing and the output-format rule** (`format.dfy`).
  `detectFormat` checks three signatures: the JPEG SOI marker and the next
  marker's `FF` (ITU-T T.81, Table B.1), the PNG signature (section 3.1 of
  RFC 2083), and the RIFF/WEBP header (section 2.4 of RFC 9649). The
  output-format rule is the one `adjustImageBrightness` uses.
- **Brightness** (`brightness.dfy`). This covers:
  - the raw `adjustBrightnessRawArgb8888` loop, as a method proved against a
    function;
  - the codec path `adjustImageBrightness`, over the platform codec;
  - the `BrightnessProcessor.process` dispatch.
- **Blur dispatch** (`blur.dfy`). This covers `BlurProcessor.process` and
  the codec path `blurImageBytes`. The codec path decodes, runs the same
  blur on the bitmap's pixels and encodes as JPEG.
- **Mirror** (`mirror.dfy`). `MirrorProcessor.process` is the nested
  y/x/i loops writing a fresh array. They are proved equal to `Mirrored`,
  which is shown to be an involution and a permutation of the bytes.
- **Processor tree** (`processors.dfy`, `node.dfy`).
  - `Processors.Process` and `Processors.Chain` give the meaning of a tree
    of processors as a value. The chain is a left fold of the children over
    the buffer.
  - `MyNode` is a class. It has a mutable `processor`, a `children` list and
    a ghost `Repr` footprint. Its methods are proved against the value
    semantics through `Tree()`.
  - `InsertChild` models the one list mutation the applier performs,
    `insertBottomUp`.

Kotlin exceptions become a `Result`: `IllegalArgument` is a failed
`require` or a failed decode. `IndexOutOfBounds` and `NegativeArraySize`
are array errors. `IllegalState` is reported when `Bitmap.compress`
fails. Android's codecs (`BitmapFactory`, `ColorMatrix`,
`Bitmap.compress`) are the function fields of `Codec.Platform`, and every
model function takes them as a parameter.

Kotlin's `Int` is 32 bits wide and wraps around. The model computes the
size checks `width * height * 4`, the pixel count `w * h`, the mirror
offsets and the vertical set-up's `yp2 = -radius * w` modulo 2^32 with
`Common.Wrap`. A size can therefore pass a check only by wrapping, and the
model follows what the code then does.

Source paths below are relative to `ImageProcesser/src/main/java/com/android/imageprocesser/`
in the repository and are written out in full in the table.

## Model

| member | source | states |
|---|---|---|
| Common.CoerceIn | ImageProcesser/src/main/java/com/android/imageprocesser/Brightness.kt:83-85 | `coerceIn(lo, hi)`: the result lies in [lo, hi], equals v when v is inside, and the nearer bound otherwise |
| Common.Wrap | ImageProcesser/src/main/java/com/android/imageprocesser/Mirror.kt:30 | a Kotlin `Int` result: the value modulo 2^32 in [-2^31, 2^31), equal to the value whenever that fits |
| Common.WrapMul | ImageProcesser/src/main/java/com/android/imageprocesser/Blur.kt:151 | `width * height * 4` evaluated one `Int` product at a time equals the whole product taken modulo 2^32 |
| Common.WrapAdd | ImageProcesser/src/main/java/com/android/imageprocesser/Blur.kt:331 | `yp2 += w` in `Int` arithmetic: adding to a wrapped value and wrapping equals wrapping the whole sum |
| Common.WrapTimesFour | ImageProcesser/src/main/java/com/android/imageprocesser/Blur.kt:151-171 | a size that passes the 32-bit check against `wh * 4` with `wh >= 0` is a multiple of 4 and at most `4 * wh`, so the unpacking loop either reads every byte or runs past the end |
| Format.DetectFormat | ImageProcesser/src/main/java/com/android/imageprocesser/Brightness.kt:174-199 | JPEG exactly when bytes 0..2 are FF D8 FF; PNG exactly when the 8-byte PNG signature is present (and it is not JPEG); WEBP exactly when "RIFF" is at 0..3 and "WEBP" at 8..11 (bytes 4..7 ignored); null exactly when none matches; null for fewer than 3 bytes |
| Format.SignaturesDisjoint | ImageProcesser/src/main/java/com/android/imageprocesser/Brightness.kt:177-198 | no buffer carries two of the three signatures, so the order of the `when` branches does not matter |
| Format.DetectPrefix | ImageProcesser/src/main/java/com/android/imageprocesser/Brightness.kt:174-199 | the format depends only on the first 12 bytes: appending bytes to a recognised buffer keeps its format |
| Format.OpaquePixelLooksLikeJpeg | ImageProcesser/src/main/java/com/android/imageprocesser/Brightness.kt:179-180 | a raw buffer whose first pixel is A=FF, R=D8, G=FF is classified as JPEG |
| Format.OutputFormat | ImageProcesser/src/main/java/com/android/imageprocesser/Brightness.kt:131-137 | an explicit format wins; otherwise an image with alpha becomes PNG unless the source was WebP (never JPEG), a WebP source stays WebP, an opaque image keeps the detected format or gets JPEG; WebP is never chosen unless asked for or detected |
| StackBlurSpec.PackComponents | ImageProcesser/src/main/java/com/android/imageprocesser/Blur.kt:163-167 | `(a shl 24) or (r shl 16) or (g shl 8) or b` gives back a, r, g, b through `ushr 24`, `shr 16`, `shr 8` and `and 0xFF` |
| StackBlurSpec.Packed | ImageProcesser/src/main/java/com/android/imageprocesser/Blur.kt:157-171 | one packed pixel per four input bytes |
| StackBlurSpec.Unpacked | ImageProcesser/src/main/java/com/android/imageprocesser/Blur.kt:384-398 | four bytes per pixel |
| StackBlurSpec.UnpackPacked | ImageProcesser/src/main/java/com/android/imageprocesser/Blur.kt:157-171 | unpacking ARGB bytes to `0xAARRGGBB` ints and repacking them (lines 384-398) returns the original bytes |
| StackBlurSpec.SlideStackSum | ImageProcesser/src/main/java/com/android/imageprocesser/Blur.kt:254-289 | moving the window one step subtracts the "out" half (c-r .. c) from the triangle-weighted sum and adds the "in" half (c+1 .. c+r+1): the recurrence the running sums follow |
| StackBlurSpec.WeightTotal | ImageProcesser/src/main/java/com/android/imageprocesser/Blur.kt:191-192 | the weights `r1 - abs(i)` for i in [-r, r] add up to `divsumSq`, which is (r+1)^2 |
| StackBlurSpec.StackSumBounds | ImageProcesser/src/main/java/com/android/imageprocesser/Blur.kt:191-199 | every weighted sum of channel values is a valid index of `dv`, below `256 * divsumSq` |
| StackBlurSpec.StackSumUniform | ImageProcesser/src/main/java/com/android/imageprocesser/Blur.kt:193-199 | on a line of one value v the sum is `v * divsumSq` and `dv` maps it back to v |
| StackBlurSpec.BlurAtBounds | ImageProcesser/src/main/java/com/android/imageprocesser/Blur.kt:250-252 | every emitted channel `dv[sum]` is in [0, 255] |
| StackBlurSpec.HPassAt | ImageProcesser/src/main/java/com/android/imageprocesser/Blur.kt:224-293 | pixel (x, y) of the horizontal pass is `dv` of the triangle-weighted sum of row y around x, columns clamped to [0, w-1] |
| StackBlurSpec.VPassAt | ImageProcesser/src/main/java/com/android/imageprocesser/Blur.kt:305-380 | pixel (x, y) of the vertical pass is the same over column x of the intermediate arrays, rows clamped to [0, h-1] |
| StackBlurSpec.HPassChannels | ImageProcesser/src/main/java/com/android/imageprocesser/Blur.kt:250-252 | the intermediate arrays `r`, `g`, `b` hold values 0..255 |
| StackBlurSpec.BlurredChannels | ImageProcesser/src/main/java/com/android/imageprocesser/Blur.kt:339 | each channel after both passes holds values 0..255 |
| StackBlurSpec.BlurPixelsAlpha | ImageProcesser/src/main/java/com/android/imageprocesser/Blur.kt:338-339 | every blurred pixel keeps its original alpha |
| StackBlurSpec.BlurKeepsAlpha | ImageProcesser/src/main/java/com/android/imageprocesser/Blur.kt:385-394 | the output has the input's length and every pixel's alpha byte equals the input's |
| StackBlurSpec.UniformFixedPoint | ImageProcesser/src/main/java/com/android/imageprocesser/Blur.kt:144-400 | a buffer in which every pixel has the same four bytes comes back unchanged |
| StackBlurSpec.StackBlur | ImageProcesser/src/main/java/com/android/imageprocesser/Blur.kt:144-400 | IllegalArgument exactly when radius < 1 or the size differs from `width * height * 4` modulo 2^32; a result has the input's length; a successful call with height >= 1 had width >= 1, the exact size and returns the two-pass blur; one with height < 1 returns the input unchanged |
| StackBlurSpec.StackBlurWellFormed | ImageProcesser/src/main/java/com/android/imageprocesser/Blur.kt:144-400 | on a buffer of exactly `w * h * 4 < 2^31` bytes with w, h >= 1 the kernel succeeds exactly when `radius * w <= 2^31`, and then returns the two-pass blur |
| StackBlurSpec.SetupStep | ImageProcesser/src/main/java/com/android/imageprocesser/Blur.kt:331 | `if (i < hm) yp2 += w` keeps `yp2 == max(-radius, min(i, hm)) * w` modulo 2^32 |
| StackBlurSpec.SetupIndexNoWrap | ImageProcesser/src/main/java/com/android/imageprocesser/Blur.kt:305-313 | while `-radius * w` fits an `Int`, the set-up of column x reads index `coerceIn(i, 0, hm) * w + x`, inside the arrays: row 0 above the image, row hm below it |
| StackBlurSpec.SetupIndexWrapped | ImageProcesser/src/main/java/com/android/imageprocesser/Blur.kt:305-313 | once `radius * w > 2^31`, column 0's set-up reads an index past the end of `r`, `g`, `b` |
| StackBlurSpec.ColumnsReadableIff | ImageProcesser/src/main/java/com/android/imageprocesser/Blur.kt:300-333 | with w, h >= 1 and `4 * w * h < 2^31`, every set-up read of every column is inside the arrays exactly when `radius * w <= 2^31` |
| StackBlurSpec.WrappedColumnSetupFails | ImageProcesser/src/main/java/com/android/imageprocesser/Blur.kt:305-313 | radius 2895 over a 741791 x 1 image: `-radius * w` wraps and the call throws IndexOutOfBounds |
| StackBlurSpec.WrappedNegativeHeightReturnsInput | ImageProcesser/src/main/java/com/android/imageprocesser/Blur.kt:150-171 | width 2 and height -2147483640 pass the 32-bit size check with 64 bytes; no row is blurred and the input comes back unchanged |
| StackBlur.LoadSample | ImageProcesser/src/main/java/com/android/imageprocesser/Blur.kt:226-244 | one set-up step: the slot receives the clamped sample, the sum takes it with weight `r1 - abs(i)`, into the "in" sum for i > 0 and the "out" sum otherwise |
| StackBlur.SlideSample | ImageProcesser/src/main/java/com/android/imageprocesser/Blur.kt:254-289 | one step of the recurrence on the ring buffer: the window and the ring are re-centred one position on |
| StackBlur.LoadRowWindow | ImageProcesser/src/main/java/com/android/imageprocesser/Blur.kt:220-246 | after the set-up loop the three channels' sums and rings describe the window centred on column 0 |
| StackBlur.EmitChannel | ImageProcesser/src/main/java/com/android/imageprocesser/Blur.kt:250-252 | `r[yi] = dv[rsum]` writes the row's blur at x and keeps what was written before |
| StackBlur.RowStep | ImageProcesser/src/main/java/com/android/imageprocesser/Blur.kt:249-293 | one column step of the horizontal pass keeps the window, ring, output and `vmin[x] = min(x + r + 1, w - 1)` invariants |
| StackBlur.HorizontalRow | ImageProcesser/src/main/java/com/android/imageprocesser/Blur.kt:219-295 | one row of the horizontal pass writes the blur of the row's channels at yp .. yp+w-1 and fills `vmin` on the first row |
| StackBlur.HorizontalPass | ImageProcesser/src/main/java/com/android/imageprocesser/Blur.kt:217-296 | `r`, `g`, `b` become the horizontal pass of the three channel planes |
| StackBlur.LoadColumnWindow | ImageProcesser/src/main/java/com/android/imageprocesser/Blur.kt:301-333 | with `yp2` computed in 32-bit `Int` from `-radius * w`, after the column set-up loop the sums and rings describe the window centred on row 0, rows clamped |
| StackBlur.NextRowIndex | ImageProcesser/src/main/java/com/android/imageprocesser/Blur.kt:352-353 | `vmin[y] = min(y + r1, hm) * w` and `x + vmin[y]` is the index of pixel (x, min(y + r1, h - 1)) |
| StackBlur.EmitPixel | ImageProcesser/src/main/java/com/android/imageprocesser/Blur.kt:338-339 | pixel (x, y) receives its original alpha and the three blurred channels; no other pixel changes |
| StackBlur.ColumnStep | ImageProcesser/src/main/java/com/android/imageprocesser/Blur.kt:337-380 | one row step of the vertical pass keeps the window, ring, progress and `vmin` invariants |
| StackBlur.VerticalColumn | ImageProcesser/src/main/java/com/android/imageprocesser/Blur.kt:300-381 | every pixel of column x receives its blurred value beside its own alpha |
| StackBlur.VerticalPass | ImageProcesser/src/main/java/com/android/imageprocesser/Blur.kt:298-382 | `pix` becomes the blurred pixels: the original alpha with each channel blurred vertically over the horizontal pass |
| StackBlur.UnpackPixels | ImageProcesser/src/main/java/com/android/imageprocesser/Blur.kt:157-171 | the first loop reads all wh pixels exactly when the input holds `4 * wh` bytes, and then yields the packed pixels of the input |
| StackBlur.MakeDivTable | ImageProcesser/src/main/java/com/android/imageprocesser/Blur.kt:191-199 | `dv` has `256 * divsumSq` entries and `dv[k] == k / divsumSq` |
| StackBlur.RepackBytes | ImageProcesser/src/main/java/com/android/imageprocesser/Blur.kt:384-398 | the copy of the input is overwritten with the A, R, G, B bytes of every pixel |
| StackBlur.ProbeColumn | ImageProcesser/src/main/java/com/android/imageprocesser/Blur.kt:305-333 | the index arithmetic of column x's set-up loop, in 32-bit `Int`, stays inside arrays of wh entries exactly when `ColumnReadable` holds |
| StackBlur.ProbeColumns | ImageProcesser/src/main/java/com/android/imageprocesser/Blur.kt:300-333 | the same for every column in order: true exactly when `ColumnsReadable` holds |
| StackBlur.BlurRows | ImageProcesser/src/main/java/com/android/imageprocesser/Blur.kt:173-399 | for an image of at least one row and an exact size below 2^31: the blurred bytes when `radius * w <= 2^31`, IndexOutOfBounds otherwise |
| StackBlur.StackBlurRawArgb | ImageProcesser/src/main/java/com/android/imageprocesser/Blur.kt:144-400 | the kernel returns exactly the specification `StackBlur`: the blurred buffer or the exception the code throws |
| Blur.BlurImageBytes | ImageProcesser/src/main/java/com/android/imageprocesser/Blur.kt:46-142 | a buffer the decoder rejects, or a radius below 1, gives IllegalArgument |
| Blur.BlurProcess | ImageProcesser/src/main/java/com/android/imageprocesser/Blur.kt:34-44 | a radius below 1 fails with IllegalArgument on both paths |
| Blur.BlurRawPathWhenUnrecognised | ImageProcesser/src/main/java/com/android/imageprocesser/Blur.kt:34-44 | when no signature is detected the raw kernel runs with the context's width and height and the codec plays no part |
| Blur.BlurCodecPathWhenRecognised | ImageProcesser/src/main/java/com/android/imageprocesser/Blur.kt:34-36 | when a signature is detected the codec path runs and the context's width and height play no part |
| Blur.BlurProcessKeepsAlpha | ImageProcesser/src/main/java/com/android/imageprocesser/Blur.kt:34-44 | a successful raw-path result has the input's length and every alpha byte of the input |
| Blur.BlurRawPixelSentToDecoder | ImageProcesser/src/main/java/com/android/imageprocesser/Blur.kt:34-44 | a well-sized raw buffer starting FF D8 FF, which the kernel would blur, is sent to the decoder, and fails when the decoder rejects it |
| Brightness.Brighten | ImageProcesser/src/main/java/com/android/imageprocesser/Brightness.kt:78-85 | a colour byte plus the brightness, clamped to 0 below and 255 above |
| Brightness.BrightnessBytes | ImageProcesser/src/main/java/com/android/imageprocesser/Brightness.kt:68 | the output has the input's length |
| Brightness.AdjustBrightnessRaw | ImageProcesser/src/main/java/com/android/imageprocesser/Brightness.kt:53-89 | fails, with IllegalArgument, exactly when the size differs from `width * height * 4` modulo 2^32 or the brightness is outside [-255, 255]; a result has the input's length |
| Brightness.SizeMultipleOfFour | ImageProcesser/src/main/java/com/android/imageprocesser/Brightness.kt:60-72 | a size that passes the 32-bit check is a multiple of 4, so the `step 4` loop visits whole pixels |
| Brightness.AdjustPixel | ImageProcesser/src/main/java/com/android/imageprocesser/Brightness.kt:72-86 | one loop step writes the four bytes of pixel i/4 and keeps the bytes before it |
| Brightness.AdjustBrightnessRawArgb8888 | ImageProcesser/src/main/java/com/android/imageprocesser/Brightness.kt:53-89 | the loop returns exactly `AdjustBrightnessRaw` of the input |
| Brightness.BrightnessAt | ImageProcesser/src/main/java/com/android/imageprocesser/Brightness.kt:72-85 | the alpha byte 4p is copied and each of R, G and B is `(in + brightness).coerceIn(0, 255)` |
| Brightness.ZeroBrightness | ImageProcesser/src/main/java/com/android/imageprocesser/Brightness.kt:74-85 | brightness 0 returns the buffer unchanged |
| Brightness.BrightnessCompose | ImageProcesser/src/main/java/com/android/imageprocesser/Brightness.kt:78-85 | two adjustments in the same direction equal one adjustment by their sum |
| Brightness.BrightnessMonotone | ImageProcesser/src/main/java/com/android/imageprocesser/Brightness.kt:78-85 | a larger brightness never gives a smaller byte |
| Brightness.BrightnessUndo | ImageProcesser/src/main/java/com/android/imageprocesser/Brightness.kt:78-85 | an adjustment that clips no colour byte is undone by the opposite adjustment |
| Brightness.BrightnessSaturates | ImageProcesser/src/main/java/com/android/imageprocesser/Brightness.kt:78-85 | brightness 255 sets every colour byte to 255 and -255 sets it to 0 |
| Brightness.AdjustImageBrightness | ImageProcesser/src/main/java/com/android/imageprocesser/Brightness.kt:94-147 | a brightness out of range, an empty input or a failed decode gives IllegalArgument; the only other failure is IllegalState, when `compress` fails |
| Brightness.RawPathWhenUnrecognised | ImageProcesser/src/main/java/com/android/imageprocesser/Brightness.kt:39-49 | when no signature is detected the raw path runs with the context's width and height and the codec plays no part |
| Brightness.CodecPathWhenRecognised | ImageProcesser/src/main/java/com/android/imageprocesser/Brightness.kt:39-41 | when a signature is detected the codec path runs and the context's width and height play no part |
| Brightness.RawPixelSentToDecoder | ImageProcesser/src/main/java/com/android/imageprocesser/Brightness.kt:39-49 | a valid raw buffer starting FF D8 FF, which the raw path accepts, is sent to the decoder and fails when the decoder rejects it |
| Brightness.BrightnessProcess | ImageProcesser/src/main/java/com/android/imageprocesser/Brightness.kt:35-50 | a brightness outside [-255, 255] fails with IllegalArgument on both paths; on the raw path it fails exactly when the size check or the range check fails, and a result has the input's length; the only failures are IllegalArgument and IllegalState |
| Brightness.WrappedSizeAccepted | ImageProcesser/src/main/java/com/android/imageprocesser/Brightness.kt:60 | 32768 x 32768 pixels wrap to 0 bytes, so the empty buffer is accepted and returned; 32769 x 32768 pixels wrap to 131072 bytes, which are adjusted |
| Mirror.FlatInjective | ImageProcesser/src/main/java/com/android/imageprocesser/Mirror.kt:38-44 | distinct (y, x, i) inside the image give distinct byte offsets `(y*w + x)*4 + i` |
| Mirror.MirrorSource | ImageProcesser/src/main/java/com/android/imageprocesser/Mirror.kt:38-40 | the byte written at offset k comes from the same row and the same byte position (A, R, G or B) |
| Mirror.SourceInvolution | ImageProcesser/src/main/java/com/android/imageprocesser/Mirror.kt:39 | `x ↦ w - 1 - x` applied twice is the identity on byte offsets |
| Mirror.Mirrored | ImageProcesser/src/main/java/com/android/imageprocesser/Mirror.kt:34-47 | the mirrored buffer has the input's length |
| Mirror.MirrorProcess | ImageProcesser/src/main/java/com/android/imageprocesser/Mirror.kt:22-50 | IllegalArgument exactly when the size differs from `w * h * 4` modulo 2^32; any other failure is IndexOutOfBounds, for w, h >= 1 and a size that passed only by wrapping; a result has the input's length; every exact size below 2^31 with w, h >= 1 succeeds |
| Mirror.MirroredAt | ImageProcesser/src/main/java/com/android/imageprocesser/Mirror.kt:36-47 | `out[(y*w + w-1-x)*4 + i] == in[(y*w + x)*4 + i]` for all y < h, x < w, i < 4 |
| Mirror.MirrorInvolution | ImageProcesser/src/main/java/com/android/imageprocesser/Mirror.kt:36-47 | mirroring twice returns the original buffer |
| Mirror.ProcessTwice | ImageProcesser/src/main/java/com/android/imageprocesser/Mirror.kt:22-50 | `process` applied twice to a well-sized buffer succeeds and returns it |
| Mirror.MirrorPermutes | ImageProcesser/src/main/java/com/android/imageprocesser/Mirror.kt:34-47 | the output is a permutation of the input bytes, so no zero-initialised byte of the fresh array survives |
| Mirror.NegativeDimensionsGiveZeros | ImageProcesser/src/main/java/com/android/imageprocesser/Mirror.kt:30-36 | with both dimensions negative the size check can pass, no loop runs, and the result is the all-zero array |
| Mirror.WrappedNegativeGivesZeros | ImageProcesser/src/main/java/com/android/imageprocesser/Mirror.kt:30-36 | width 2 and height -2147483647 pass the 32-bit size check with 8 bytes; no loop runs and the result is all zeros |
| Mirror.WrappedSizeFails | ImageProcesser/src/main/java/com/android/imageprocesser/Mirror.kt:30-44 | 32768 x 32768 pixels wrap to 0 bytes: the empty buffer passes the check and the first copy throws IndexOutOfBounds |
| Mirror.Offsets | ImageProcesser/src/main/java/com/android/imageprocesser/Mirror.kt:38-44 | the 32-bit offsets `(y * w + x) * 4 + i` and the mirrored one equal the exact ones while they fit, and lie inside a buffer of exactly `w * h * 4` bytes |
| Mirror.CopyByte | ImageProcesser/src/main/java/com/android/imageprocesser/Mirror.kt:44 | one byte copy with 32-bit offsets: false when an offset is outside the arrays; with the exact size it always succeeds and extends the copied prefix by one byte |
| Mirror.MirrorPixel | ImageProcesser/src/main/java/com/android/imageprocesser/Mirror.kt:43-45 | the four bytes of one pixel, stopping at the first offset outside the arrays; with the exact size all four are copied |
| Mirror.MirrorRow | ImageProcesser/src/main/java/com/android/imageprocesser/Mirror.kt:37-46 | one row of the loop, stopping at the first offset outside the arrays; with the exact size it writes that row's bytes |
| Mirror.MirrorProcessor | ImageProcesser/src/main/java/com/android/imageprocesser/Mirror.kt:22-50 | the loops into a fresh array, with the size check and offsets in 32-bit `Int`, return exactly `MirrorProcess` of the input, which is only read |
| Processors.Chain | ImageProcesser/src/main/java/com/android/imageprocesser/Chain.kt:11-17 | with no children the input is returned unchanged |
| Processors.Process | ImageProcesser/src/main/java/com/android/imageprocesser/Node.kt:11-13 | a chain node without children returns its input; a blur node with radius < 1 and a brightness node outside [-255, 255] fail with IllegalArgument; a mirror node fails with IllegalArgument exactly when the size differs from `w * h * 4` modulo 2^32 |
| Processors.ChainSingle | ImageProcesser/src/main/java/com/android/imageprocesser/Chain.kt:13-15 | with one child the result is that child's `process` of the input |
| Processors.ChainAppend | ImageProcesser/src/main/java/com/android/imageprocesser/Chain.kt:12-16 | chaining `xs + ys` is chaining `ys` over the result of chaining `xs` |
| Processors.ChainLast | ImageProcesser/src/main/java/com/android/imageprocesser/Chain.kt:16 | the result is the last child's output on what the children before it produced |
| Processors.ChainStopsAtFailure | ImageProcesser/src/main/java/com/android/imageprocesser/Chain.kt:13-15 | a child that throws ends the chain: children after it make no difference |
| Processors.NestedChain | ImageProcesser/src/main/java/com/android/imageprocesser/Chain.kt:11-17 | a chain nested as the first child runs as if its children were spliced in |
| Processors.ChildrenIgnored | ImageProcesser/src/main/java/com/android/imageprocesser/Mirror.kt:22-25 | the blur, brightness and mirror processors give the same result whatever the children are |
| Processors.EmptyChainIsIdentity | ImageProcesser/src/main/java/com/android/imageprocesser/Node.kt:9 | a node with a `ChainProcessor` and no children returns its input |
| Processors.MirrorTwiceInChain | ImageProcesser/src/main/java/com/android/imageprocesser/Chain.kt:13-15 | a chain of two mirror nodes returns a well-sized buffer unchanged |
| Nodes.RunProcessor | ImageProcesser/src/main/java/com/android/imageprocesser/Node.kt:11-13 | running a blur, brightness or mirror processor through its methods gives exactly `Processors.Process` of a node holding it |
| Nodes.MyNode.Tree | ImageProcesser/src/main/java/com/android/imageprocesser/Node.kt:8-9 | the value of a node has its processor and one tree per child |
| Nodes.MyNode.constructor | ImageProcesser/src/main/java/com/android/imageprocesser/Node.kt:8-9 | a fresh node has no children and a `ChainProcessor` |
| Nodes.MyNode.Process | ImageProcesser/src/main/java/com/android/imageprocesser/Node.kt:11-13 | `process(data)` is `processor.process(data, children)` on the current tree, and changes nothing |
| Nodes.MyNode.ChainProcess | ImageProcesser/src/main/java/com/android/imageprocesser/Chain.kt:11-17 | the loop over the children returns the left fold `Processors.Chain` of their trees |
| Nodes.MyNode.GetNextSamples | ImageProcesser/src/main/java/com/android/imageprocesser/Node.kt:15-19 | `getNextSamples(n)` is `process` of n zero bytes; a negative n fails with NegativeArraySize |
| Nodes.MyNode.SetProcessor | ImageProcesser/src/main/java/com/android/imageprocesser/Node.kt:20-22 | the processor is overwritten with the argument, and the children and their trees are unchanged |
| Nodes.MyNode.InsertChild | ImageProcesser/src/main/java/com/android/imageprocesser/ImageApplier.kt:6-8 | `children.add(index, child)` inserts the child, and its tree, at the index; an index outside 0..size fails with IndexOutOfBounds and changes nothing |
| Nodes.TreesSplice | ImageProcesser/src/main/java/com/android/imageprocesser/ImageApplier.kt:7 | inserting a node into a child list inserts its tree into the list of trees at the same index |
| Nodes.Trees | ImageProcesser/src/main/java/com/android/imageprocesser/Node.kt:8 | one tree per child, in list order |

## Left out

- The ring buffer `stack = Array(div) { IntArray(3) }` is three per-channel `seq<int>` values updated functionally, not `div` arrays of three slots updated in place. The slot a sample lands in and the order of updates are the same.
- StackBlur.StackBlurRawArgb: the radius is bounded by `MaxRadius` (2895). Within it, `256 * divsumSq` and every running sum of channel values fit a 32-bit `Int`. The Kotlin code has no such check, and its behaviour on larger radii, where `IntArray(256 * divsumSq)` and the sums overflow, is not modelled. `Processors.Radius` carries the same bound. The bound does not keep the index arithmetic in range: the wraps of `width * height * 4`, of `w * h` and of `-radius * w` are modelled.
- StackBlur.StackBlurRawArgb: when the horizontal pass would run past the end of its arrays (h >= 1 with w <= 0 or a wrapped `w * h`), the method returns IndexOutOfBounds without running the pass. The reason is given in a comment and is not proved. The vertical set-up's reads are checked for every column before the first column is written; the result is the same, because the exception discards what was written.
- StackBlur.StackBlurRawArgb: `OutOfMemoryError` on a huge `IntArray` is not modelled; an allocation of any non-negative size succeeds.
- StackBlurSpec.StackBlur: the same radius bound and the same unproved horizontal-pass case.
- Brightness.AdjustBrightnessRaw: width and height are Kotlin `Int`s. The model takes any integer and computes the products modulo 2^32; values outside [-2^31, 2^31) cannot occur in the source and are not meaningful there.
- Mirror.MirrorProcess: width and height are Kotlin `Int`s. The model takes any integer and computes the products modulo 2^32; values outside [-2^31, 2^31) cannot occur in the source and are not meaningful there.
- StackBlurSpec.StackBlur: width and height are Kotlin `Int`s. The model takes any integer and computes the products modulo 2^32; values outside [-2^31, 2^31) cannot occur in the source and are not meaningful there.
- StackBlur.StackBlurRawArgb: width and height are Kotlin `Int`s. The model takes any integer and computes the products modulo 2^32; values outside [-2^31, 2^31) cannot occur in the source and are not meaningful there.
- Mirror.MirrorProcessor: the offset `(y * w + x) * 4 + i` is computed as one product and one sum modulo 2^32. Kotlin computes `y * w`, `+ x` and `* 4` one `Int` step at a time; `Common.WrapAdd` and `Common.WrapMul` show that the two agree.
- Blur.BlurImageBytes: `BitmapFactory.decodeByteArray`, `Bitmap.getPixels`/`setPixels` and `Bitmap.compress` are the `Codec.Platform` functions `decode` and `compress`. The decoded bitmap is assumed to hold its pixels as unsigned `0xAARRGGBB` values. A bitmap whose pixel count is not width*height shows as the IllegalArgument that `stackBlurRawArgb` throws. The source ignores the success flag of `compress`, and so does the model.
- Blur.BlurImageBytes: the `format` argument is always null at the only call site, so the `when` over format names is reduced to its JPEG fallback.
- Brightness.AdjustImageBrightness: `adjustBrightness` (a float `ColorMatrix` drawn through a `Canvas`) is the opaque `Codec.Platform.colorMatrixBrightness`. A decoder that throws and one that returns null are both `decode` returning `None`. The explicit `format` and `quality` arguments always have their default values at the only call site, so they are fixed to null and 90.
- The `() -> Int` width, height, radius and brightness lambdas are read as plain values at the time of the call. The Compose `CompositionLocal` context they read is not modelled.
- `println` logging and `Bitmap.recycle` are left out; they do not affect the result.
- The `@Composable` wrappers `Blur()`, `Brightness()`, `Mirror()` and `Chain()`, and the `Block`, `ImageProcesserBlock` and `ImageProcessing` plumbing, are Compose framework code and are not modelled.
- `ImageApplier.move` and `ImageApplier.remove` rely on framework helpers not shown in the repository and are not modelled. `insertTopDown` and `onClear` do nothing. `insertBottomUp` is `Nodes.MyNode.InsertChild`.
- Nodes.MyNode.InsertChild: it requires the inserted node not to contain the parent (`this !in child.Repr`), so that the tree stays acyclic. The Kotlin `ArrayList` accepts any node, and a cycle would make `process` recurse without end.
- `ProcessorNode`, used by the Compose blocks, is not part of this model. `MyNode` is modelled in its place.
- Running time (the kernel is O(width·height) for any radius) is not a functional property and is not stated.
- Kotlin's `Byte` is signed. The model works on the unsigned values `toInt() and 0xFF` gives, and on packed pixels as non-negative integers with the same 32 bits.
