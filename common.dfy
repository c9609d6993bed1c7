/** Vocabulary shared by the image processors: bytes as the Kotlin code reads
    them, the ways a processor call can fail, and row-major pixel indexing. */
module Common {

  /** A byte of a `ByteArray` as the code reads it (`b.toInt() and 0xFF`). */
  type Byte = x: int | 0 <= x < 256

  datatype Option<T> = None | Some(value: T)

  /** Why a processor throws instead of returning a buffer. */
  datatype Failure =
    | IllegalArgument    // a `require(...)` did not hold
    | IndexOutOfBounds   // an array was indexed outside its bounds
    | NegativeArraySize  // an array was allocated with a negative size
    | IllegalState       // `Bitmap.compress` reported failure

  /** The buffer a processor returns, or the exception it throws. */
  datatype Result<T> = Ok(value: T) | Err(failure: Failure)

  /** Kotlin's `Int.coerceIn(lo, hi)`. */
  function CoerceIn(v: int, lo: int, hi: int): (r: int)
    requires lo <= hi
    ensures lo <= r <= hi
    ensures lo <= v <= hi ==> r == v
    ensures v < lo ==> r == lo
    ensures hi < v ==> r == hi
  {
    if v < lo then lo else if v > hi then hi else v
  }

  function Abs(i: int): nat { if i < 0 then -i else i }

  function Min(a: int, b: int): int { if a <= b then a else b }

  function Max(a: int, b: int): int { if a >= b then a else b }

  // ---------------------------------------------------------------------
  // Kotlin's 32-bit `Int`
  // ---------------------------------------------------------------------

  /** The value a Kotlin `Int` expression takes when the exact result v
      overflows: v wrapped into -2^31 .. 2^31-1 (two's complement). Wrapping
      each `+`, `-` and `*` of an expression, or only its result, gives the
      same value (WrapAdd, WrapMul). */
  function Wrap(v: int): (r: int)
    ensures -0x8000_0000 <= r < 0x8000_0000
    ensures -0x8000_0000 <= v < 0x8000_0000 ==> r == v
  {
    (v + 0x8000_0000) % 0x1_0000_0000 - 0x8000_0000
  }

  /** The number of times v wraps around: v - Wrap(v) == 2^32 * Wraps(v). */
  function Wraps(v: int): int
  {
    (v + 0x8000_0000) / 0x1_0000_0000
  }

  lemma WrapIs(v: int)
    ensures Wrap(v) == v - 0x1_0000_0000 * Wraps(v)
  {
  }

  /** Values 2^32 apart wrap to the same `Int`. */
  lemma WrapShift(v: int, k: int)
    ensures Wrap(v + 0x1_0000_0000 * k) == Wrap(v)
  {
    var a, b := v + 0x8000_0000, v + 0x8000_0000 + 0x1_0000_0000 * k;
    assert a == 0x1_0000_0000 * (a / 0x1_0000_0000) + a % 0x1_0000_0000;
    assert b == 0x1_0000_0000 * (b / 0x1_0000_0000) + b % 0x1_0000_0000;
    var t := b / 0x1_0000_0000 - a / 0x1_0000_0000 - k;
    assert a % 0x1_0000_0000 - b % 0x1_0000_0000 == 0x1_0000_0000 * t;
    if t > 0 || t < 0 {
      assert false;
    }
  }

  /** Wrapping an operand of `+` first changes nothing. */
  lemma WrapAdd(a: int, b: int)
    ensures Wrap(Wrap(a) + b) == Wrap(a + b)
  {
    WrapIs(a);
    WrapShift(a + b, -Wraps(a));
  }

  /** Wrapping an operand of `*` first changes nothing. */
  lemma WrapMul(a: int, b: int)
    ensures Wrap(Wrap(a) * b) == Wrap(a * b)
  {
    WrapIs(a);
    assert Wrap(a) * b == a * b + 0x1_0000_0000 * (-Wraps(a) * b);
    WrapShift(a * b, -Wraps(a) * b);
  }

  /** A wrapped value equal to no exact one is 2^32 or more away from it. */
  lemma WrapApart(v: int)
    requires Wrap(v) != v
    ensures v <= Wrap(v) - 0x1_0000_0000 || Wrap(v) + 0x1_0000_0000 <= v
  {
    WrapIs(v);
  }

  /** `size == n * 4` in `Int`: a non-negative size that passes is a multiple
      of 4 and at most four times `Int` n, and equal to it unless smaller. */
  lemma WrapTimesFour(n: int, size: int)
    requires size == Wrap(n * 4) && 0 <= size && 0 <= Wrap(n)
    ensures size % 4 == 0 && size <= 4 * Wrap(n)
  {
    WrapIs(n * 4);
    WrapIs(n);
    var t := Wraps(n * 4) - 4 * Wraps(n);
    assert size == 4 * Wrap(n) - 0x1_0000_0000 * t;
    assert size == 4 * (n - 0x4000_0000 * Wraps(n * 4));
  }

  /** Position of pixel (x, y) in a row-major image of width w. */
  function Index(w: int, y: int, x: int): int { y * w + x }

  lemma MulLe(a: int, b: int, w: int)
    requires a <= b && 0 <= w
    ensures a * w <= b * w
  {
    assert b * w - a * w == (b - a) * w;
  }

  lemma MulAddOne(a: int, s: int)
    ensures (a + 1) * s == a * s + s
  {
  }

  /** Row y of the image starts after every pixel of the rows above it. */
  lemma RowStart(w: int, y: int, y': int)
    requires 0 <= w && y < y'
    ensures Index(w, y, w) <= Index(w, y', 0)
  {
    MulLe(y + 1, y', w);
    assert (y + 1) * w == y * w + w;
  }

  /** Every pixel of a w x h image has an index below w * h. */
  lemma IndexInRange(w: int, h: int, y: int, x: int)
    requires 0 <= y < h && 0 <= x < w
    ensures 0 <= Index(w, y, 0) <= Index(w, y, x) < Index(w, y, w) <= w * h
  {
    MulLe(0, y, w);
    RowStart(w, y, h);
    assert Index(w, h, 0) == w * h;
  }

  /** A row-major index determines its row and column. */
  lemma IndexDivMod(w: int, y: int, x: int)
    requires 0 <= x < w && 0 <= y
    ensures Index(w, y, x) / w == y && Index(w, y, x) % w == x
  {
    var p := y * w + x;
    var q, m := p / w, p % w;
    assert p == q * w + m && 0 <= m < w;
    assert (y + 1) * w == y * w + w;
    assert (q + 1) * w == q * w + w;
    if q > y {
      MulLe(y + 1, q, w);
      assert false;
    } else if q < y {
      MulLe(q + 1, y, w);
      assert false;
    }
  }

  /** Every index below w * h is the index of a pixel of the image. */
  lemma PixelOf(w: int, h: int, p: int)
    requires 1 <= w && 0 <= p < w * h
    ensures 0 <= p / w < h && 0 <= p % w < w && p == Index(w, p / w, p % w)
  {
    var q := p / w;
    assert p == q * w + p % w;
    if q < 0 {
      MulLe(q, -1, w);
      assert false;
    }
    if q >= h {
      MulLe(h, q, w);
      assert false;
    }
  }

  /** A quotient below k, for a numerator below k * d. */
  lemma DivBelow(s: int, d: int, k: int)
    requires 0 < d && 0 <= s < k * d
    ensures 0 <= s / d < k
  {
    assert s == (s / d) * d + s % d;
    if s / d >= k {
      MulLe(k, s / d, d);
      assert false;
    }
  }

  /** `a % n` for a value below 2n, as the ring-buffer pointers use it. */
  lemma ModSmall(a: int, n: int)
    requires 0 < n && 0 <= a < 2 * n
    ensures a % n == if a < n then a else a - n
  {
  }
}
