/** The brightness processor: the raw ARGB8888 path that adds a constant to
    each colour byte and clamps it, the codec path for encoded images, and the
    dispatch between them. */
module Brightness {
  import opened Common
  import opened Format
  import opened Codec

  // ---------------------------------------------------------------------
  // adjustBrightnessRawArgb8888 (Brightness.kt:53-89)
  // ---------------------------------------------------------------------

  /** A colour byte after adding the brightness: `(v + brightness).coerceIn(0, 255)`. */
  function Brighten(v: Byte, brightness: int): (r: Byte)
    ensures 0 <= v + brightness <= 255 ==> r == v + brightness
    ensures v + brightness < 0 ==> r == 0
    ensures 255 < v + brightness ==> r == 255
  {
    CoerceIn(v + brightness, 0, 255)
  }

  /** Byte k of the output: the alpha byte (offset 4p) is copied, the R, G and
      B bytes are brightened. */
  function AdjustedByte(input: seq<Byte>, brightness: int, k: int): Byte
    requires 0 <= k < |input|
  {
    if k % 4 == 0 then input[k] else Brighten(input[k], brightness)
  }

  function BrightnessBytes(input: seq<Byte>, brightness: int): (out: seq<Byte>)
    ensures |out| == |input|
  {
    seq(|input|, k requires 0 <= k < |input| => AdjustedByte(input, brightness, k))
  }

  /** `adjustBrightnessRawArgb8888(input, width, height, brightness)`: the two
      `require`s, then the adjusted copy. The size check compares with
      `width * height * 4` as a 32-bit `Int`, so a size it passes only by
      wrapping around is accepted too; the loop does not use the dimensions. */
  function AdjustBrightnessRaw(input: seq<Byte>, width: int, height: int, brightness: int): (r: Result<seq<Byte>>)
    ensures r.Err? <==> |input| != Wrap(width * height * 4) || !(-255 <= brightness <= 255)
    ensures r.Err? ==> r.failure == IllegalArgument
    ensures r.Ok? ==> |r.value| == |input|
  {
    if |input| != Wrap(width * height * 4) then Err(IllegalArgument)
    else if !(-255 <= brightness <= 255) then Err(IllegalArgument)
    else Ok(BrightnessBytes(input, brightness))
  }

  /** A size that passes the check is a multiple of 4, so
      `for (i in input.indices step 4)` visits whole pixels. */
  lemma SizeMultipleOfFour(size: int, width: int, height: int)
    requires 0 <= size == Wrap(width * height * 4)
    ensures size % 4 == 0
  {
    WrapIs(width * height * 4);
    assert size == 4 * (width * height - 0x4000_0000 * Wraps(width * height * 4));
  }

  /** The body of one iteration of `for (i in input.indices step 4)`. */
  method AdjustPixel(input: seq<Byte>, output: array<Byte>, brightness: int, i: int)
    requires output.Length == |input| && 0 <= i && i + 4 <= |input| && i % 4 == 0
    requires forall k :: 0 <= k < i ==> output[k] == AdjustedByte(input, brightness, k)
    modifies output
    ensures forall k :: 0 <= k < i + 4 ==> output[k] == AdjustedByte(input, brightness, k)
  {
    output[i] := input[i];
    output[i + 1] := Brighten(input[i + 1], brightness);
    output[i + 2] := Brighten(input[i + 2], brightness);
    output[i + 3] := Brighten(input[i + 3], brightness);
  }

  /** The raw path as written: the two checks, a fresh output array and a
      loop over the pixels, four bytes at a time. The input is only read. */
  method AdjustBrightnessRawArgb8888(input: array<Byte>, width: int, height: int, brightness: int)
    returns (res: Result<seq<Byte>>)
    ensures res == AdjustBrightnessRaw(input[..], width, height, brightness)
  {
    if input.Length != Wrap(width * height * 4) {
      return Err(IllegalArgument);
    }
    if !(-255 <= brightness <= 255) {
      return Err(IllegalArgument);
    }
    var src := input[..];
    SizeMultipleOfFour(|src|, width, height);
    var output := new Byte[input.Length](_ => 0);
    var i := 0;
    while i < input.Length
      invariant 0 <= i <= input.Length && i % 4 == 0
      invariant forall k :: 0 <= k < i ==> output[k] == AdjustedByte(src, brightness, k)
    {
      AdjustPixel(src, output, brightness, i);
      i := i + 4;
    }
    assert output[..] == BrightnessBytes(src, brightness);
    return Ok(output[..]);
  }

  // ---------------------------------------------------------------------
  // Properties of the raw path
  // ---------------------------------------------------------------------

  /** Every alpha byte is copied and every colour byte is the clamped sum. */
  lemma BrightnessAt(input: seq<Byte>, brightness: int, p: int)
    requires 0 <= p && 4 * p + 3 < |input|
    ensures BrightnessBytes(input, brightness)[4 * p] == input[4 * p]
    ensures BrightnessBytes(input, brightness)[4 * p + 1] == CoerceIn(input[4 * p + 1] + brightness, 0, 255)
    ensures BrightnessBytes(input, brightness)[4 * p + 2] == CoerceIn(input[4 * p + 2] + brightness, 0, 255)
    ensures BrightnessBytes(input, brightness)[4 * p + 3] == CoerceIn(input[4 * p + 3] + brightness, 0, 255)
  {
    assert (4 * p) % 4 == 0 && (4 * p + 1) % 4 == 1 && (4 * p + 2) % 4 == 2 && (4 * p + 3) % 4 == 3;
  }

  /** A brightness of zero returns the buffer unchanged. */
  lemma ZeroBrightness(input: seq<Byte>)
    ensures BrightnessBytes(input, 0) == input
  {
    forall k | 0 <= k < |input|
      ensures BrightnessBytes(input, 0)[k] == input[k]
    {
    }
  }

  /** Two adjustments in the same direction add up: clamping at 255 (or 0)
      after the first step leaves nothing the second could change. */
  lemma BrightnessCompose(input: seq<Byte>, b1: int, b2: int)
    requires (0 <= b1 && 0 <= b2) || (b1 <= 0 && b2 <= 0)
    ensures BrightnessBytes(BrightnessBytes(input, b1), b2) == BrightnessBytes(input, b1 + b2)
  {
    var once := BrightnessBytes(input, b1);
    forall k | 0 <= k < |input|
      ensures BrightnessBytes(once, b2)[k] == BrightnessBytes(input, b1 + b2)[k]
    {
      if k % 4 != 0 {
        var v := input[k];
        assert once[k] == Brighten(v, b1);
      }
    }
  }

  /** A brighter setting never gives a darker byte. */
  lemma BrightnessMonotone(input: seq<Byte>, b1: int, b2: int, k: int)
    requires b1 <= b2 && 0 <= k < |input|
    ensures BrightnessBytes(input, b1)[k] <= BrightnessBytes(input, b2)[k]
  {
  }

  /** An adjustment that clips no byte is undone by the opposite one. */
  lemma BrightnessUndo(input: seq<Byte>, brightness: int)
    requires forall k :: 0 <= k < |input| && k % 4 != 0 ==> 0 <= input[k] + brightness <= 255
    ensures BrightnessBytes(BrightnessBytes(input, brightness), -brightness) == input
  {
    var once := BrightnessBytes(input, brightness);
    forall k | 0 <= k < |input|
      ensures BrightnessBytes(once, -brightness)[k] == input[k]
    {
      if k % 4 != 0 {
        assert once[k] == input[k] + brightness;
      }
    }
  }

  /** The extreme settings saturate every colour byte. */
  lemma BrightnessSaturates(input: seq<Byte>, k: int)
    requires 0 <= k < |input| && k % 4 != 0
    ensures BrightnessBytes(input, 255)[k] == 255
    ensures BrightnessBytes(input, -255)[k] == 0
  {
  }

  // ---------------------------------------------------------------------
  // adjustImageBrightness (Brightness.kt:94-147) and the dispatch (35-50)
  // ---------------------------------------------------------------------

  /** The codec path: two `require`s, decode, the colour-matrix adjustment,
      the output-format rule with no explicit format, and `compress` at
      quality 90. */
  function AdjustImageBrightness(input: seq<Byte>, brightness: int, platform: Platform): (r: Result<seq<Byte>>)
    ensures !(-255 <= brightness <= 255) || |input| == 0 ==> r == Err(IllegalArgument)
    ensures platform.decode(input).None? ==> r == Err(IllegalArgument)
    ensures r.Err? ==> r.failure == IllegalArgument || r.failure == IllegalState
  {
    if !(-255 <= brightness <= 255) then Err(IllegalArgument)
    else if |input| == 0 then Err(IllegalArgument)
    else match platform.decode(input)
      case None => Err(IllegalArgument)
      case Some(bitmap) =>
        var adjusted := platform.colorMatrixBrightness(bitmap, brightness);
        var format := OutputFormat(None, adjusted.hasAlpha, DetectFormat(input));
        var encoded := platform.compress(adjusted, format, 90);
        if encoded.success then Ok(encoded.bytes) else Err(IllegalState)
  }

  /** `BrightnessProcessor.process(imageData, children)` with the brightness,
      width and height its context supplies; `children` plays no part. */
  function BrightnessProcess(input: seq<Byte>, brightness: int, width: int, height: int, platform: Platform): (r: Result<seq<Byte>>)
    ensures !(-255 <= brightness <= 255) ==> r == Err(IllegalArgument)
    ensures DetectFormat(input).None? ==> (r.Err? <==> |input| != Wrap(width * height * 4) || !(-255 <= brightness <= 255))
    ensures DetectFormat(input).None? && r.Ok? ==> |r.value| == |input|
    ensures r.Err? ==> r.failure == IllegalArgument || r.failure == IllegalState
  {
    if DetectFormat(input).Some? then AdjustImageBrightness(input, brightness, platform)
    else AdjustBrightnessRaw(input, width, height, brightness)
  }

  /** A buffer without a known signature takes the raw path with the context's
      width and height, and the platform codecs play no part. */
  lemma RawPathWhenUnrecognised(input: seq<Byte>, brightness: int, width: int, height: int, p1: Platform, p2: Platform)
    requires DetectFormat(input) == None
    ensures BrightnessProcess(input, brightness, width, height, p1) == AdjustBrightnessRaw(input, width, height, brightness)
    ensures BrightnessProcess(input, brightness, width, height, p1) == BrightnessProcess(input, brightness, width, height, p2)
  {
  }

  /** A buffer with a JPEG, PNG or WebP signature takes the codec path, and
      the context's width and height play no part. */
  lemma CodecPathWhenRecognised(input: seq<Byte>, brightness: int, w1: int, h1: int, w2: int, h2: int, platform: Platform)
    requires DetectFormat(input).Some?
    ensures BrightnessProcess(input, brightness, w1, h1, platform) == AdjustImageBrightness(input, brightness, platform)
    ensures BrightnessProcess(input, brightness, w1, h1, platform) == BrightnessProcess(input, brightness, w2, h2, platform)
  {
  }

  /** A well-formed raw buffer whose first pixel is A=0xFF, R=0xD8, G=0xFF is
      sent to the decoder; when the decoder rejects it the call fails, although
      the raw path would have accepted it. */
  lemma RawPixelSentToDecoder(input: seq<Byte>, brightness: int, width: int, height: int, platform: Platform)
    requires |input| == width * height * 4 && 4 <= |input| < 0x8000_0000
    requires input[0] == 0xFF && input[1] == 0xD8 && input[2] == 0xFF
    requires -255 <= brightness <= 255
    requires platform.decode(input) == None
    ensures AdjustBrightnessRaw(input, width, height, brightness).Ok?
    ensures BrightnessProcess(input, brightness, width, height, platform) == Err(IllegalArgument)
  {
    OpaquePixelLooksLikeJpeg(input);
  }

  /** The size check is 32-bit: 32768 x 32768 pixels need 2^32 bytes, which
      wraps to 0, so the empty buffer passes and comes back empty, and
      32769 x 32768 pixels wrap to 131072 bytes, which are adjusted like any
      raw buffer. */
  lemma WrappedSizeAccepted(input: seq<Byte>, brightness: int)
    requires -255 <= brightness <= 255
    ensures AdjustBrightnessRaw([], 32768, 32768, brightness) == Ok([])
    ensures |input| == 131072 ==> AdjustBrightnessRaw(input, 32769, 32768, brightness) == Ok(BrightnessBytes(input, brightness))
  {
    assert Wrap(32768 * 32768 * 4) == 0;
    assert Wrap(32769 * 32768 * 4) == 131072;
  }
}
