/** `BlurProcessor.process`: encoded images go through the platform codec
    (`blurImageBytes`, which itself runs the stack blur on the decoded
    pixels), raw ARGB8888 buffers straight to `stackBlurRawArgb`. */
module Blur {
  import opened Common
  import opened Format
  import opened Codec
  import opened StackBlurSpec

  /** `blurImageBytes(imageData, radius, format = null, quality = 90)`
      (Blur.kt:46-142): decode, unpack the pixels to ARGB bytes, blur them
      with the bitmap's own size, repack, and `compress` as JPEG (the
      fallback for a null format). The success flag of `compress` is not
      checked. */
  function BlurImageBytes(imageData: seq<Byte>, radius: int, platform: Platform): (r: Result<seq<Byte>>)
    requires radius <= MaxRadius
    ensures platform.decode(imageData).None? ==> r == Err(IllegalArgument)
    ensures radius < 1 ==> r == Err(IllegalArgument)
  {
    match platform.decode(imageData)
    case None => Err(IllegalArgument)
    case Some(bitmap) =>
      var raw := Unpacked(bitmap.pixels);
      match StackBlur(raw, bitmap.width, bitmap.height, radius)
      case Err(f) => Err(f)
      case Ok(blurred) =>
        var result := Bitmap(bitmap.width, bitmap.height, Packed(blurred), bitmap.hasAlpha);
        Ok(platform.compress(result, JPEG, 90).bytes)
  }

  /** `BlurProcessor.process(imageData, children)` with the width, height and
      radius its context supplies; `children` plays no part. */
  function BlurProcess(input: seq<Byte>, width: int, height: int, radius: int, platform: Platform): (r: Result<seq<Byte>>)
    requires radius <= MaxRadius
    ensures radius < 1 ==> r == Err(IllegalArgument)
  {
    if DetectFormat(input).Some? then BlurImageBytes(input, radius, platform)
    else StackBlur(input, width, height, radius)
  }

  /** A buffer without a known signature is blurred in place of the codec,
      with the context's width and height, and the platform plays no part. */
  lemma BlurRawPathWhenUnrecognised(input: seq<Byte>, width: int, height: int, radius: int, p1: Platform, p2: Platform)
    requires radius <= MaxRadius && DetectFormat(input) == None
    ensures BlurProcess(input, width, height, radius, p1) == StackBlur(input, width, height, radius)
    ensures BlurProcess(input, width, height, radius, p1) == BlurProcess(input, width, height, radius, p2)
  {
  }

  /** A buffer with a JPEG, PNG or WebP signature takes the codec path, and
      the context's width and height play no part. */
  lemma BlurCodecPathWhenRecognised(input: seq<Byte>, w1: int, h1: int, w2: int, h2: int, radius: int, platform: Platform)
    requires radius <= MaxRadius && DetectFormat(input).Some?
    ensures BlurProcess(input, w1, h1, radius, platform) == BlurImageBytes(input, radius, platform)
    ensures BlurProcess(input, w1, h1, radius, platform) == BlurProcess(input, w2, h2, radius, platform)
  {
  }

  /** On the raw path the result has the input's length and keeps every
      pixel's alpha byte. */
  lemma {:induction false} BlurProcessKeepsAlpha(input: seq<Byte>, width: int, height: int, radius: int, platform: Platform)
    requires radius <= MaxRadius && DetectFormat(input) == None
    requires BlurProcess(input, width, height, radius, platform).Ok?
    ensures |BlurProcess(input, width, height, radius, platform).value| == |input|
    ensures forall p :: 0 <= 4 * p < |input| ==> BlurProcess(input, width, height, radius, platform).value[4 * p] == input[4 * p]
  {
    if 1 <= width && 1 <= height {
      BlurKeepsAlpha(input, width, height, radius);
      forall p | 0 <= 4 * p < |input|
        ensures 0 <= p < width * height
      {
      }
    }
  }

  /** A well-formed raw buffer whose first pixel is A=0xFF, R=0xD8, G=0xFF is
      sent to the decoder; when the decoder rejects it the call fails, although
      the raw kernel would have blurred it. */
  lemma BlurRawPixelSentToDecoder(input: seq<Byte>, width: int, height: int, radius: int, platform: Platform)
    requires 1 <= radius <= MaxRadius && 1 <= width && 1 <= height
    requires |input| == width * height * 4 < 0x8000_0000 && radius * width <= 0x8000_0000
    requires input[0] == 0xFF && input[1] == 0xD8 && input[2] == 0xFF
    requires platform.decode(input) == None
    ensures StackBlur(input, width, height, radius).Ok?
    ensures BlurProcess(input, width, height, radius, platform) == Err(IllegalArgument)
  {
    StackBlurWellFormed(input, width, height, radius);
    MulLe(1, width * height, 4);
    OpaquePixelLooksLikeJpeg(input);
  }
}
