/** The Android graphics calls behind the codec paths of the blur and the
    brightness processors. They decode and encode compressed images and apply
    a float colour matrix, so the model takes them as given functions. */
module Codec {
  import opened Common
  import opened Format

  /** A decoded `Bitmap`: its size, its pixels as `getPixels` returns them
      (0xAARRGGBB, row-major) and `hasAlpha()`. */
  datatype Bitmap = Bitmap(width: int, height: int, pixels: seq<int>, hasAlpha: bool)

  /** What `Bitmap.compress` reports, and the bytes it wrote to the stream. */
  datatype Encoded = Encoded(success: bool, bytes: seq<Byte>)

  datatype Platform = Platform(
    /** `BitmapFactory.decodeByteArray`: None when it returns null or throws. */
    decode: seq<Byte> -> Option<Bitmap>,
    /** `adjustBrightness`: a `ColorMatrix` adding the brightness to R, G and B,
        drawn through a `Canvas` (float arithmetic). */
    colorMatrixBrightness: (Bitmap, int) -> Bitmap,
    /** `Bitmap.compress(format, quality, stream)`. */
    compress: (Bitmap, CompressFormat, int) -> Encoded
  )
}
