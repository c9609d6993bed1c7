/** Format sniffing on the leading bytes of a buffer (`detectFormat`) and the
    rule that picks the encoder of the brightness codec path. */
module Format {
  import opened Common

  /** `Bitmap.CompressFormat`, restricted to the values `detectFormat` and the
      output rule produce. */
  datatype CompressFormat = JPEG | PNG | WEBP

  // ---------------------------------------------------------------------
  // Signatures, as the standards state them
  // ---------------------------------------------------------------------

  /** A JPEG stream opens with the SOI marker FF D8 followed by the first
      byte FF of the next marker (ITU-T T.81, Table B.1). */
  const JpegPrefix: seq<Byte> := [0xFF, 0xD8, 0xFF]

  /** The eight-byte PNG file signature (section 3.1 of RFC 2083). */
  const PngSignature: seq<Byte> := [0x89, 0x50, 0x4E, 0x47, 0x0D, 0x0A, 0x1A, 0x0A]

  /** "RIFF" and "WEBP", the chunk tag at offset 0 and the form type at
      offset 8 of a WebP file header (section 2.4 of RFC 9649). */
  const RiffTag: seq<Byte> := [0x52, 0x49, 0x46, 0x46]
  const WebpTag: seq<Byte> := [0x57, 0x45, 0x42, 0x50]

  predicate IsJpeg(bytes: seq<Byte>)
  {
    |bytes| >= 3 && bytes[..3] == JpegPrefix
  }

  predicate IsPng(bytes: seq<Byte>)
  {
    |bytes| >= 8 && bytes[..8] == PngSignature
  }

  /** The four size bytes at offsets 4..7 play no part. */
  predicate IsWebp(bytes: seq<Byte>)
  {
    |bytes| >= 12 && bytes[..4] == RiffTag && bytes[8..12] == WebpTag
  }

  // ---------------------------------------------------------------------
  // detectFormat (Brightness.kt:174-199)
  // ---------------------------------------------------------------------

  /** The first matching branch of `detectFormat`, byte by byte as written. */
  function DetectFormat(bytes: seq<Byte>): (r: Option<CompressFormat>)
    ensures r == Some(JPEG) <==> IsJpeg(bytes)
    ensures r == Some(PNG) <==> IsPng(bytes)
    ensures r == Some(WEBP) <==> IsWebp(bytes)
    ensures r == None <==> !IsJpeg(bytes) && !IsPng(bytes) && !IsWebp(bytes)
    ensures |bytes| < 3 ==> r == None
  {
    if |bytes| < 3 then None
    else if bytes[0] == 0xFF && bytes[1] == 0xD8 && bytes[2] == 0xFF then Some(JPEG)
    else if |bytes| >= 8
      && bytes[0] == 0x89 && bytes[1] == 0x50 && bytes[2] == 0x4E
      && bytes[3] == 0x47 && bytes[4] == 0x0D && bytes[5] == 0x0A
      && bytes[6] == 0x1A && bytes[7] == 0x0A
    then Some(PNG)
    else if |bytes| >= 12
      && bytes[0] == 0x52 && bytes[1] == 0x49 && bytes[2] == 0x46
      && bytes[3] == 0x46
      && bytes[8] == 0x57 && bytes[9] == 0x45
      && bytes[10] == 0x42 && bytes[11] == 0x50
    then Some(WEBP)
    else None
  }

  /** The three signatures start with different bytes, so the order of the
      branches of `detectFormat` never decides anything. */
  lemma SignaturesDisjoint(bytes: seq<Byte>)
    ensures !(IsJpeg(bytes) && IsPng(bytes))
    ensures !(IsJpeg(bytes) && IsWebp(bytes))
    ensures !(IsPng(bytes) && IsWebp(bytes))
  {
    if IsJpeg(bytes) {
      assert bytes[0] == bytes[..3][0] == 0xFF;
    }
    if IsPng(bytes) {
      assert bytes[0] == bytes[..8][0] == 0x89;
    }
  }

  /** Only the leading bytes are looked at: appending anything to a buffer
      that already carries a signature does not change its format. */
  lemma {:induction false} DetectPrefix(bytes: seq<Byte>, rest: seq<Byte>)
    requires DetectFormat(bytes).Some?
    ensures DetectFormat(bytes + rest) == DetectFormat(bytes)
  {
    var all := bytes + rest;
    assert |bytes| >= 3;
    assert all[..3] == bytes[..3];
    if |bytes| >= 8 {
      assert all[..8] == bytes[..8];
    }
    if |bytes| >= 12 {
      assert all[..4] == bytes[..4];
      assert all[8..12] == bytes[8..12];
    }
  }

  /** A raw ARGB8888 buffer whose first pixel has alpha 0xFF, red 0xD8 and
      green 0xFF reads as a JPEG stream, whatever its blue byte and the pixels
      after it: `detectFormat` cannot tell it from an encoded image. */
  lemma OpaquePixelLooksLikeJpeg(input: seq<Byte>)
    requires |input| >= 4 && input[0] == 0xFF && input[1] == 0xD8 && input[2] == 0xFF
    ensures DetectFormat(input) == Some(JPEG)
  {
    assert input[..3] == JpegPrefix;
  }

  // ---------------------------------------------------------------------
  // Output format of adjustImageBrightness (Brightness.kt:131-137)
  // ---------------------------------------------------------------------

  /** `format ?: when { hasAlpha && detected != WEBP -> PNG; else -> detected ?: JPEG }`. */
  function OutputFormat(format: Option<CompressFormat>, hasAlpha: bool, detected: Option<CompressFormat>): (r: CompressFormat)
    // an explicit format always wins
    ensures format.Some? ==> r == format.value
    // a WebP source stays WebP, even with alpha
    ensures format.None? && detected == Some(WEBP) ==> r == WEBP
    // WebP is never chosen unless asked for or detected
    ensures r == WEBP ==> format == Some(WEBP) || detected == Some(WEBP)
    // an image with alpha is never re-encoded as JPEG unless asked for
    ensures format.None? && hasAlpha ==> r != JPEG
    // ... and is written as PNG unless the source was WebP
    ensures format.None? && hasAlpha && detected != Some(WEBP) ==> r == PNG
    // an opaque image keeps the detected format, JPEG when none was found
    ensures format.None? && !hasAlpha ==> r == (if detected.Some? then detected.value else JPEG)
  {
    match format
    case Some(f) => f
    case None =>
      if hasAlpha && detected != Some(WEBP) then PNG
      else if detected.Some? then detected.value
      else JPEG
  }
}
