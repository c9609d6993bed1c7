/** What `stackBlurRawArgb` computes, stated without its running sums: packed
    pixels, the triangular (stack) weighted sum of edge-clamped neighbours, the
    horizontal and the vertical pass, and the lemmas that justify the kernel's
    O(1) sliding-window update and its division table. */
module StackBlurSpec {
  import opened Common

  /** Largest radius for which the division table `IntArray(256 * divsumSq)`
      and every intermediate sum fit a 32-bit `Int`. */
  const MaxRadius := 2895

  // ---------------------------------------------------------------------
  // Packed pixels (0xAARRGGBB, read as an unsigned 32-bit value)
  // ---------------------------------------------------------------------

  /** `(a shl 24) or (r shl 16) or (g shl 8) or b` for bytes a, r, g, b. */
  function Pack(a: int, r: int, g: int, b: int): int
  {
    a * 0x100_0000 + r * 0x1_0000 + g * 0x100 + b
  }

  /** `(p ushr 24) and 0xFF`. */
  function Alpha(p: int): (a: int)
    ensures 0 <= a < 256
  {
    (p / 0x100_0000) % 0x100
  }

  /** The colour channels: 0 is `(p shr 16) and 0xFF` (red), 1 is
      `(p shr 8) and 0xFF` (green), 2 is `p and 0xFF` (blue). */
  function Channel(p: int, ch: int): (v: int)
    requires 0 <= ch < 3
    ensures 0 <= v < 256
  {
    if ch == 0 then (p / 0x1_0000) % 0x100
    else if ch == 1 then (p / 0x100) % 0x100
    else p % 0x100
  }

  /** Byte i (0 = A, 1 = R, 2 = G, 3 = B) of a packed pixel. */
  function ByteOf(p: int, i: int): Byte
    requires 0 <= i < 4
  {
    if i == 0 then Alpha(p) else Channel(p, i - 1)
  }

  lemma PackComponents(a: int, r: int, g: int, b: int)
    requires 0 <= a < 256 && 0 <= r < 256 && 0 <= g < 256 && 0 <= b < 256
    ensures Alpha(Pack(a, r, g, b)) == a
    ensures Channel(Pack(a, r, g, b), 0) == r
    ensures Channel(Pack(a, r, g, b), 1) == g
    ensures Channel(Pack(a, r, g, b), 2) == b
  {
    var p := Pack(a, r, g, b);
    assert p / 0x100_0000 == a;
    assert p / 0x1_0000 == a * 0x100 + r;
    assert p / 0x100 == a * 0x1_0000 + r * 0x100 + g;
  }

  /** The ARGB bytes of a raw buffer, one packed int per pixel (Blur.kt's
      first loop); the last `|bytes| % 4` bytes, if any, are not read. */
  function Packed(bytes: seq<Byte>): (pixels: seq<int>)
    ensures |pixels| == |bytes| / 4
  {
    seq(|bytes| / 4, p requires 0 <= p < |bytes| / 4 =>
      Pack(bytes[4 * p], bytes[4 * p + 1], bytes[4 * p + 2], bytes[4 * p + 3]))
  }

  /** Packed pixels back to ARGB bytes (Blur.kt's last loop). */
  function Unpacked(pixels: seq<int>): (bytes: seq<Byte>)
    ensures |bytes| == 4 * |pixels|
  {
    seq(4 * |pixels|, k requires 0 <= k < 4 * |pixels| => ByteOf(pixels[k / 4], k % 4))
  }

  /** Unpacking bytes to 0xAARRGGBB ints and repacking them gives back the
      bytes. */
  lemma UnpackPacked(bytes: seq<Byte>)
    requires |bytes| % 4 == 0
    ensures Unpacked(Packed(bytes)) == bytes
  {
    var out := Unpacked(Packed(bytes));
    var pixels := Packed(bytes);
    forall k | 0 <= k < |bytes| ensures out[k] == bytes[k] {
      var p, i := k / 4, k % 4;
      assert k == 4 * p + i && 0 <= p < |pixels|;
      PackComponents(bytes[4 * p], bytes[4 * p + 1], bytes[4 * p + 2], bytes[4 * p + 3]);
      assert out[k] == ByteOf(pixels[p], i);
    }
  }

  /** One colour channel of every pixel. */
  function Plane(pixels: seq<int>, ch: int): (plane: seq<int>)
    requires 0 <= ch < 3
    ensures |plane| == |pixels|
  {
    seq(|pixels|, i requires 0 <= i < |pixels| => Channel(pixels[i], ch))
  }

  /** Every value is a channel value, 0..255. */
  ghost predicate Channels(s: seq<int>)
  {
    forall k :: 0 <= k < |s| ==> 0 <= s[k] < 256
  }

  // ---------------------------------------------------------------------
  // The stack (triangular) sum over one line of samples
  // ---------------------------------------------------------------------

  /** `divsum = (div + 1) shr 1` with `div = radius + radius + 1`. */
  function DivSum(radius: int): int
    requires 0 <= radius
  {
    (radius + radius + 1 + 1) / 2
  }

  function DivSumSq(radius: int): int
    requires 0 <= radius
  {
    DivSum(radius) * DivSum(radius)
  }

  /** The sample at position j of a line, out-of-range positions clamped to
      the nearest end (`min(wm, max(i, 0))`). */
  function Sample(line: seq<int>, j: int): int
    requires 1 <= |line|
  {
    line[CoerceIn(j, 0, |line| - 1)]
  }

  /** Stack-blur weight of offset i: `r1 - abs(i)`. */
  function Weight(radius: int, i: int): int { radius + 1 - Abs(i) }

  /** The sum of the n clamped samples at positions lo .. lo+n-1. */
  function BoxSum(line: seq<int>, lo: int, n: nat): int
    requires 1 <= |line|
  {
    if n == 0 then 0 else BoxSum(line, lo, n - 1) + Sample(line, lo + n - 1)
  }

  /** The first n terms, offsets -radius .. -radius+n-1, of the weighted sum
      around c: the order in which the kernel's set-up loop adds them. */
  function TriangleSum(line: seq<int>, c: int, radius: nat, n: nat): int
    requires 1 <= |line|
  {
    if n == 0 then 0
    else TriangleSum(line, c, radius, n - 1)
         + Weight(radius, n - 1 - radius) * Sample(line, c + n - 1 - radius)
  }

  /** The stack sum at c: sum over i in [-radius, radius] of
      (radius + 1 - |i|) * Sample(line, c + i). */
  function StackSum(line: seq<int>, c: int, radius: nat): int
    requires 1 <= |line|
  {
    TriangleSum(line, c, radius, 2 * radius + 1)
  }

  /** The sum of the first n weights. */
  function WeightSum(radius: nat, n: nat): int
  {
    if n == 0 then 0 else WeightSum(radius, n - 1) + Weight(radius, n - 1 - radius)
  }

  lemma {:induction false} BoxSumFirst(line: seq<int>, lo: int, n: nat)
    requires 1 <= |line|
    ensures BoxSum(line, lo, n + 1) == Sample(line, lo) + BoxSum(line, lo + 1, n)
  {
    if n > 0 {
      BoxSumFirst(line, lo, n - 1);
    }
  }

  /** The induction behind SlideStackSum, left half: moving the centre one
      step right lowers each of the first n <= radius weights by one. */
  lemma {:induction false} SlideLeft(line: seq<int>, c: int, radius: nat, n: nat)
    requires 1 <= |line| && n <= radius
    ensures TriangleSum(line, c + 1, radius, n)
      == TriangleSum(line, c, radius, n + 1) - BoxSum(line, c - radius, n + 1)
  {
    if n > 0 {
      SlideLeft(line, c, radius, n - 1);
      var s := Sample(line, c + n - radius);
      var wOld := Weight(radius, n - 1 - radius);
      var wNew := Weight(radius, n - radius);
      assert TriangleSum(line, c + 1, radius, n) == TriangleSum(line, c + 1, radius, n - 1) + wOld * s;
      assert TriangleSum(line, c, radius, n + 1) == TriangleSum(line, c, radius, n) + wNew * s;
      assert wNew == wOld + 1;
      MulAddOne(wOld, s);
    }
  }

  /** Right half: the weights past the centre rise by one. */
  lemma {:induction false} SlideRight(line: seq<int>, c: int, radius: nat, n: nat)
    requires 1 <= |line| && radius <= n <= 2 * radius + 1
    ensures TriangleSum(line, c + 1, radius, n)
      == TriangleSum(line, c, radius, n + 1) - BoxSum(line, c - radius, radius + 1)
         + BoxSum(line, c + 1, n - radius)
  {
    if n == radius {
      SlideLeft(line, c, radius, n);
    } else {
      SlideRight(line, c, radius, n - 1);
      var s := Sample(line, c + n - radius);
      var wOld := Weight(radius, n - 1 - radius);
      var wNew := Weight(radius, n - radius);
      assert TriangleSum(line, c + 1, radius, n) == TriangleSum(line, c + 1, radius, n - 1) + wOld * s;
      assert TriangleSum(line, c, radius, n + 1) == TriangleSum(line, c, radius, n) + wNew * s;
      assert wOld == wNew + 1;
      MulAddOne(wNew, s);
      assert BoxSum(line, c + 1, n - radius) == BoxSum(line, c + 1, n - 1 - radius) + s;
    }
  }

  /** The stack-blur recurrence: one step to the right subtracts the "out"
      half (positions c-radius .. c) and adds the "in" half
      (positions c+1 .. c+radius+1). */
  lemma SlideStackSum(line: seq<int>, c: int, radius: nat)
    requires 1 <= |line|
    ensures StackSum(line, c + 1, radius)
      == StackSum(line, c, radius) - BoxSum(line, c - radius, radius + 1) + BoxSum(line, c + 1, radius + 1)
  {
    SlideRight(line, c, radius, 2 * radius + 1);
    assert Weight(radius, radius + 1) == 0;
  }

  /** The weights r+1-|i| for i in [-r, r] add up to (r+1)^2 = divsumSq. */
  lemma {:induction false} WeightSumPrefix(radius: nat, n: nat)
    requires n <= 2 * radius + 1
    ensures n <= radius + 1 ==> 2 * WeightSum(radius, n) == n * (n + 1)
    ensures radius + 1 < n ==>
      2 * WeightSum(radius, n)
        == (radius + 1) * (radius + 2) + 2 * (n - radius - 1) * (radius + 1) - (n - radius - 1) * (n - radius)
  {
    if n > 0 {
      WeightSumPrefix(radius, n - 1);
      if n == radius + 2 {
        assert 2 * WeightSum(radius, n - 1) == (radius + 1) * (radius + 2);
      }
    }
  }

  lemma WeightTotal(radius: nat)
    ensures WeightSum(radius, 2 * radius + 1) == DivSumSq(radius) == (radius + 1) * (radius + 1)
  {
    WeightSumPrefix(radius, 2 * radius + 1);
    if radius == 0 {
      assert WeightSum(radius, 1) == 1;
    } else {
      var m := radius;
      assert 2 * WeightSum(radius, 2 * radius + 1)
          == (radius + 1) * (radius + 2) + 2 * m * (radius + 1) - m * (m + 1);
    }
  }

  lemma {:induction false} TriangleSumBounds(line: seq<int>, c: int, radius: nat, n: nat)
    requires 1 <= |line| && Channels(line) && n <= 2 * radius + 1
    ensures 0 <= TriangleSum(line, c, radius, n) <= 255 * WeightSum(radius, n)
  {
    if n > 0 {
      TriangleSumBounds(line, c, radius, n - 1);
      var wt := Weight(radius, n - 1 - radius);
      var s := Sample(line, c + n - 1 - radius);
      assert 0 <= wt;
      MulLe(0, s, wt);
      MulLe(s, 255, wt);
      assert s * wt == wt * s;
    }
  }

  /** Every stack sum of channel values indexes the division table
      `IntArray(256 * divsumSq)`. */
  lemma StackSumBounds(line: seq<int>, c: int, radius: nat)
    requires 1 <= |line| && Channels(line)
    ensures 0 <= StackSum(line, c, radius) <= 255 * DivSumSq(radius) < 256 * DivSumSq(radius)
  {
    TriangleSumBounds(line, c, radius, 2 * radius + 1);
    WeightTotal(radius);
  }

  lemma {:induction false} TriangleSumUniform(line: seq<int>, v: int, c: int, radius: nat, n: nat)
    requires 1 <= |line| && forall k :: 0 <= k < |line| ==> line[k] == v
    ensures TriangleSum(line, c, radius, n) == v * WeightSum(radius, n)
  {
    if n > 0 {
      TriangleSumUniform(line, v, c, radius, n - 1);
      var wt := Weight(radius, n - 1 - radius);
      var prev := WeightSum(radius, n - 1);
      assert Sample(line, c + n - 1 - radius) == v;
      assert WeightSum(radius, n) == prev + wt;
      Distribute(v, prev, wt);
      assert wt * v == v * wt;
    }
  }

  lemma Distribute(v: int, a: int, b: int)
    ensures v * (a + b) == v * a + v * b
  {
  }

  /** On a line of one value the division table gives that value back:
      `dv[v * divsumSq] == v`. */
  lemma StackSumUniform(line: seq<int>, v: int, c: int, radius: nat)
    requires 1 <= |line| && forall k :: 0 <= k < |line| ==> line[k] == v
    requires 0 <= v
    ensures StackSum(line, c, radius) == v * DivSumSq(radius)
    ensures StackSum(line, c, radius) / DivSumSq(radius) == v
  {
    TriangleSumUniform(line, v, c, radius, 2 * radius + 1);
    WeightTotal(radius);
    assert v * DivSumSq(radius) == Index(DivSumSq(radius), v, 0);
    IndexDivMod(DivSumSq(radius), v, 0);
  }

  /** What the kernel writes for the window centred on c: `dv[sum]`, the
      stack sum divided by divsumSq. */
  function BlurAt(line: seq<int>, c: int, radius: nat): int
    requires 1 <= |line|
  {
    StackSum(line, c, radius) / DivSumSq(radius)
  }

  /** Every emitted channel value is a byte. */
  lemma BlurAtBounds(line: seq<int>, c: int, radius: nat)
    requires 1 <= |line| && Channels(line)
    ensures 0 <= BlurAt(line, c, radius) < 256
  {
    StackSumBounds(line, c, radius);
    WeightTotal(radius);
    DivBelow(StackSum(line, c, radius), DivSumSq(radius), 256);
  }

  // ---------------------------------------------------------------------
  // The two passes over a w x h image
  // ---------------------------------------------------------------------

  /** Row y of a row-major plane. */
  function RowOf(plane: seq<int>, w: int, h: int, y: int): (row: seq<int>)
    requires 1 <= w && |plane| == w * h && 0 <= y < h
    ensures |row| == w
    ensures forall x :: 0 <= x < w ==>
      0 <= Index(w, y, x) < |plane| && row[x] == plane[Index(w, y, x)]
  {
    IndexInRange(w, h, y, w - 1);
    plane[Index(w, y, 0) .. Index(w, y, w)]
  }

  /** Column x of a row-major plane, top to bottom. */
  function ColOf(plane: seq<int>, w: int, h: int, x: int): (col: seq<int>)
    requires 0 <= x < w && |plane| == w * h && 0 <= h
    ensures |col| == h
    ensures forall y :: 0 <= y < h ==>
      0 <= Index(w, y, x) < |plane| && col[y] == plane[Index(w, y, x)]
  {
    var col := seq(h, y requires 0 <= y < h => IndexInRange(w, h, y, x); plane[Index(w, y, x)]);
    assert forall y :: 0 <= y < h ==> 0 <= Index(w, y, x) < |plane| && col[y] == plane[Index(w, y, x)] by {
      forall y | 0 <= y < h
        ensures 0 <= Index(w, y, x) < |plane| && col[y] == plane[Index(w, y, x)]
      {
        IndexInRange(w, h, y, x);
      }
    }
    col
  }

  /** The horizontal pass at pixel (x, y): `dv[rsum]` for the row's stack sum. */
  function HValue(plane: seq<int>, w: int, h: int, radius: nat, y: int, x: int): int
    requires 1 <= w && |plane| == w * h && 0 <= y < h
  {
    BlurAt(RowOf(plane, w, h, y), x, radius)
  }

  /** The vertical pass at pixel (x, y): the same over column x. */
  function VValue(plane: seq<int>, w: int, h: int, radius: nat, y: int, x: int): int
    requires 1 <= h && 0 <= x < w && |plane| == w * h
  {
    BlurAt(ColOf(plane, w, h, x), y, radius)
  }

  /** The intermediate arrays `r`, `g`, `b` after the horizontal pass. */
  function HPass(plane: seq<int>, w: int, h: int, radius: nat): (out: seq<int>)
    requires 1 <= w && |plane| == w * h
    ensures |out| == w * h
  {
    seq(w * h, p requires 0 <= p < w * h => PixelOf(w, h, p); HValue(plane, w, h, radius, p / w, p % w))
  }

  /** One channel after the vertical pass. */
  function VPass(plane: seq<int>, w: int, h: int, radius: nat): (out: seq<int>)
    requires 1 <= w && 1 <= h && |plane| == w * h
    ensures |out| == w * h
  {
    seq(w * h, p requires 0 <= p < w * h => PixelOf(w, h, p); VValue(plane, w, h, radius, p / w, p % w))
  }

  /** Pixel (x, y) of the horizontal pass is the blur of row y at x. */
  lemma HPassAt(plane: seq<int>, w: int, h: int, radius: nat, y: int, x: int)
    requires 1 <= w && |plane| == w * h && 0 <= y < h && 0 <= x < w
    ensures 0 <= Index(w, y, x) < w * h
    ensures HPass(plane, w, h, radius)[Index(w, y, x)] == BlurAt(RowOf(plane, w, h, y), x, radius)
  {
    IndexInRange(w, h, y, x);
    IndexDivMod(w, y, x);
  }

  /** Pixel (x, y) of the vertical pass is the blur of column x at y. */
  lemma VPassAt(plane: seq<int>, w: int, h: int, radius: nat, y: int, x: int)
    requires 1 <= w && 1 <= h && |plane| == w * h && 0 <= y < h && 0 <= x < w
    ensures 0 <= Index(w, y, x) < w * h
    ensures VPass(plane, w, h, radius)[Index(w, y, x)] == BlurAt(ColOf(plane, w, h, x), y, radius)
  {
    IndexInRange(w, h, y, x);
    IndexDivMod(w, y, x);
  }

  lemma PlaneChannels(pixels: seq<int>, ch: int)
    requires 0 <= ch < 3
    ensures Channels(Plane(pixels, ch))
  {
  }

  /** The intermediate arrays hold channel values again. */
  lemma HPassChannels(plane: seq<int>, w: int, h: int, radius: nat)
    requires 1 <= w && |plane| == w * h && Channels(plane)
    ensures Channels(HPass(plane, w, h, radius))
  {
    var out := HPass(plane, w, h, radius);
    forall p | 0 <= p < w * h
      ensures 0 <= out[p] < 256
    {
      PixelOf(w, h, p);
      var row := RowOf(plane, w, h, p / w);
      assert Channels(row);
      BlurAtBounds(row, p % w, radius);
    }
  }

  /** The channels after the vertical pass are values 0..255 again. */
  lemma VPassChannels(plane: seq<int>, w: int, h: int, radius: nat)
    requires 1 <= w && 1 <= h && |plane| == w * h && Channels(plane)
    ensures Channels(VPass(plane, w, h, radius))
  {
    var out := VPass(plane, w, h, radius);
    forall p | 0 <= p < w * h
      ensures 0 <= out[p] < 256
    {
      PixelOf(w, h, p);
      var col := ColOf(plane, w, h, p % w);
      assert Channels(col);
      BlurAtBounds(col, p / w, radius);
    }
  }

  /** Every value of s is v. */
  ghost predicate Constant(s: seq<int>, v: int)
  {
    forall k :: 0 <= k < |s| ==> s[k] == v
  }

  /** The horizontal pass keeps a constant plane: `dv[v * divsumSq] == v`. */
  lemma HPassConstant(plane: seq<int>, w: int, h: int, radius: nat, v: int)
    requires 1 <= w && |plane| == w * h && Constant(plane, v) && 0 <= v
    ensures Constant(HPass(plane, w, h, radius), v)
  {
    var out := HPass(plane, w, h, radius);
    forall p | 0 <= p < w * h
      ensures out[p] == v
    {
      PixelOf(w, h, p);
      StackSumUniform(RowOf(plane, w, h, p / w), v, p % w, radius);
    }
  }

  /** The vertical pass keeps a constant plane. */
  lemma VPassConstant(plane: seq<int>, w: int, h: int, radius: nat, v: int)
    requires 1 <= w && 1 <= h && |plane| == w * h && Constant(plane, v) && 0 <= v
    ensures Constant(VPass(plane, w, h, radius), v)
  {
    var out := VPass(plane, w, h, radius);
    forall p | 0 <= p < w * h
      ensures out[p] == v
    {
      PixelOf(w, h, p);
      StackSumUniform(ColOf(plane, w, h, p % w), v, p / w, radius);
    }
  }

  /** One channel after both passes. */
  function Blurred(plane: seq<int>, w: int, h: int, radius: nat): (out: seq<int>)
    requires 1 <= w && 1 <= h && |plane| == w * h
    ensures |out| == w * h
  {
    VPass(HPass(plane, w, h, radius), w, h, radius)
  }

  /** The packed pixels after the blur: the original alpha, each colour
      channel blurred. */
  function BlurPixels(pixels: seq<int>, w: int, h: int, radius: nat): (out: seq<int>)
    requires 1 <= w && 1 <= h && |pixels| == w * h
    ensures |out| == w * h
  {
    var red := Blurred(Plane(pixels, 0), w, h, radius);
    var green := Blurred(Plane(pixels, 1), w, h, radius);
    var blue := Blurred(Plane(pixels, 2), w, h, radius);
    seq(w * h, p requires 0 <= p < w * h => Pack(Alpha(pixels[p]), red[p], green[p], blue[p]))
  }

  /** The raw ARGB bytes a successful blur returns. */
  function BlurBytes(input: seq<Byte>, w: int, h: int, radius: nat): (out: seq<Byte>)
    requires 1 <= w && 1 <= h && |input| == w * h * 4
  {
    Unpacked(BlurPixels(Packed(input), w, h, radius))
  }

  // ---------------------------------------------------------------------
  // The vertical set-up's reads in 32-bit `Int` (lines 305-333)
  // ---------------------------------------------------------------------

  /** The index `yi = max(0, yp2) + x` the set-up loop of column x reads at
      offset i, where `yp2` starts at `-radius * w` and grows by w while
      i < hm, every step in 32-bit `Int`. */
  function SetupIndex(w: int, hm: int, radius: int, x: int, i: int): int
  {
    Wrap(Max(0, Wrap(Max(-radius, Min(i, hm)) * w)) + x)
  }

  /** Every read of the set-up loop of column x is inside `r`, `g`, `b`,
      arrays of wh entries. */
  predicate ColumnReadable(w: int, hm: int, radius: int, wh: int, x: int)
  {
    forall i :: -radius <= i <= radius ==> 0 <= SetupIndex(w, hm, radius, x, i) < wh
  }

  /** The set-up loops of all w columns read inside the arrays. */
  predicate ColumnsReadable(w: int, hm: int, radius: int, wh: int)
  {
    forall x :: 0 <= x < w ==> ColumnReadable(w, hm, radius, wh, x)
  }

  /** `if (i < hm) yp2 += w`: one more row of w, modulo 2^32. */
  lemma SetupStep(w: int, hm: int, radius: int, i: int, yp2: int)
    requires -radius <= i < hm && yp2 == Wrap(Max(-radius, Min(i, hm)) * w)
    ensures Wrap(yp2 + w) == Wrap(Max(-radius, Min(i + 1, hm)) * w)
  {
    assert Max(-radius, Min(i, hm)) == i && Max(-radius, Min(i + 1, hm)) == i + 1;
    WrapAdd(i * w, w);
    MulAddOne(i, w);
  }

  /** Without wrap-around `yp2` is `min(i, hm) * w`, and `max(0, yp2) + x`
      is the row-major index of the clamped row `coerceIn(i, 0, hm)`. */
  lemma ColumnStart(w: int, hm: int, i: int)
    requires 1 <= w && 0 <= hm
    ensures Max(0, Min(i, hm) * w) == CoerceIn(i, 0, hm) * w
    ensures i < hm ==> Min(i + 1, hm) * w == Min(i, hm) * w + w
  {
    if i < 0 {
      MulLe(i, -1, w);
    } else {
      MulLe(0, Min(i, hm), w);
    }
    if i < hm {
      MulAddOne(i, w);
    }
  }

  /** While `-radius * w` fits an `Int`, the set-up of column x reads the
      clamped row: row 0 for every offset above the image. */
  lemma SetupIndexNoWrap(w: int, h: int, radius: int, x: int, i: int)
    requires 1 <= w && 1 <= h && w * h < 0x8000_0000 && 0 <= x < w
    requires 1 <= radius && radius * w <= 0x8000_0000 && -radius <= i
    ensures 0 <= SetupIndex(w, h - 1, radius, x, i) < w * h
    ensures SetupIndex(w, h - 1, radius, x, i) == Index(w, CoerceIn(i, 0, h - 1), x)
  {
    var hm := h - 1;
    var m := Min(i, hm);
    assert Max(-radius, m) == m;
    MulLe(-radius, m, w);
    assert (-radius) * w == -(radius * w);
    MulLe(m, hm, w);
    MulAddOne(hm, w);
    assert Wrap(m * w) == m * w;
    ColumnStart(w, hm, i);
    IndexInRange(w, h, CoerceIn(i, 0, hm), x);
  }

  /** Once `-radius * w` wraps, the set-up of column 0 reads at an offset
      i with `i * w` just below -2^31, which wraps to an index past the
      end of the arrays. */
  lemma SetupIndexWrapped(w: int, h: int, radius: int)
    requires 1 <= w && 1 <= h && w * h * 4 < 0x8000_0000
    requires 1 <= radius && radius * w > 0x8000_0000
    ensures !ColumnReadable(w, h - 1, radius, w * h, 0)
  {
    var n := w * h;
    MulLe(1, h, w);
    assert w <= n < 0x2000_0000;
    var q := 0x8000_0000 / w;
    var rest := 0x8000_0000 % w;
    assert q * w + rest == 0x8000_0000 && 0 <= rest < w;
    if q >= radius {
      MulLe(radius, q, w);
    }
    var i := -(q + 1);
    var m := Max(-radius, Min(i, h - 1));
    assert m == i;
    MulAddOne(q, w);
    assert m * w == -(q * w + w);
    var v := WrapBelowMin(m * w, w);
    assert Max(0, v) == v;
    assert SetupIndex(w, h - 1, radius, 0, i) == Wrap(v);
    assert n < v;
  }

  /** A value less than one w below -2^31 wraps to one within w of 2^31. */
  lemma WrapBelowMin(v: int, w: int) returns (r: int)
    requires 1 <= w <= 0x8000_0000 && -0x8000_0000 - w <= v < -0x8000_0000
    ensures r == Wrap(v) == v + 0x1_0000_0000 && 0x8000_0000 - w <= r
  {
    r := v + 0x1_0000_0000;
    WrapShift(v, 1);
    assert Wrap(r) == r;
  }

  /** On a buffer of the declared size the vertical set-up stays inside the
      arrays exactly when `-radius * w` fits an `Int`. */
  lemma ColumnsReadableIff(w: int, h: int, radius: int)
    requires 1 <= w && 1 <= h && w * h * 4 < 0x8000_0000 && 1 <= radius
    ensures ColumnsReadable(w, h - 1, radius, w * h) <==> radius * w <= 0x8000_0000
  {
    if radius * w <= 0x8000_0000 {
      forall x, i {:trigger SetupIndex(w, h - 1, radius, x, i)} | 0 <= x < w && -radius <= i <= radius
        ensures 0 <= SetupIndex(w, h - 1, radius, x, i) < w * h
      {
        SetupIndexNoWrap(w, h, radius, x, i);
      }
    } else {
      SetupIndexWrapped(w, h, radius);
    }
  }

  // ---------------------------------------------------------------------
  // The whole kernel
  // ---------------------------------------------------------------------

  /** `stackBlurRawArgb(input, width, height, radius)`: the blurred bytes, or
      the exception the Kotlin code throws, every `Int` product and sum
      taken modulo 2^32 as the JVM does. */
  function StackBlur(input: seq<Byte>, width: int, height: int, radius: int): (r: Result<seq<Byte>>)
    requires radius <= MaxRadius
    ensures r == Err(IllegalArgument) <==> radius < 1 || |input| != Wrap(width * height * 4)
    ensures r.Ok? ==> |r.value| == |input|
    ensures r.Ok? && 1 <= height ==>
      1 <= radius && 1 <= width && |input| == width * height * 4
      && r.value == BlurBytes(input, width, height, radius)
    ensures r.Ok? && height < 1 ==> r.value == input
  {
    var wh := Wrap(width * height);
    if radius < 1 || |input| != Wrap(width * height * 4) then Err(IllegalArgument)
    // pix = IntArray(wh)
    else if wh < 0 then Err(NegativeArraySize)
    // the unpacking loop reads input[4 * pi] for every pi < wh
    else if |input| < 4 * wh then Err(IndexOutOfBounds)
    // vmin = IntArray(max(w, h))
    else if width < 0 && height < 0 then Err(NegativeArraySize)
    else if 1 <= height then
      // w <= 0: the first set-up read is pix[min(wm, 0)], below 0 or (with
      // w == -2^31 and wh == 0) in an empty array; wrapped w * h: the writes
      // r[yi], yi = 0, 1, 2, ..., reach wh before the last row
      if width <= 0 || width * height != wh then Err(IndexOutOfBounds)
      // the vertical set-up reads past the arrays (ColumnsReadableIff)
      else if radius * width > 0x8000_0000 then Err(IndexOutOfBounds)
      else
        WrapTimesFour(width * height, |input|);
        Ok(BlurBytes(input, width, height, radius))
    // no row is written; only the set-up reads of each column happen
    else if !ColumnsReadable(width, Wrap(height - 1), radius, wh) then Err(IndexOutOfBounds)
    else Ok(input)
  }

  /** On a buffer of the declared size whose byte count fits an `Int` the
      blur succeeds exactly when `-radius * w` does too, and returns the
      two-pass blur. */
  lemma StackBlurWellFormed(input: seq<Byte>, w: int, h: int, radius: int)
    requires 1 <= radius <= MaxRadius && 1 <= w && 1 <= h && |input| == w * h * 4 < 0x8000_0000
    ensures StackBlur(input, w, h, radius).Ok? <==> radius * w <= 0x8000_0000
    ensures StackBlur(input, w, h, radius).Ok? ==> StackBlur(input, w, h, radius).value == BlurBytes(input, w, h, radius)
  {
    MulLe(1, w * h, 4);
    assert Wrap(w * h) == w * h;
  }

  /** A one-row image 741791 pixels wide with radius 2895: the byte count
      fits an `Int`, but `-radius * w` wraps to 2147482351 and column 0's
      first set-up read is far past the end. */
  lemma WrappedColumnSetupFails(input: seq<Byte>)
    requires |input| == 741791 * 4
    ensures StackBlur(input, 741791, 1, 2895) == Err(IndexOutOfBounds)
  {
  }

  /** A negative height whose product with the width wraps to a small
      positive size: no row is blurred, every set-up read lands in the
      arrays, and the input comes back unchanged. */
  lemma WrappedNegativeHeightReturnsInput(input: seq<Byte>, radius: int)
    requires |input| == 64 && 1 <= radius <= MaxRadius
    ensures StackBlur(input, 2, -2147483640, radius) == Ok(input)
  {
    var hm := Wrap(-2147483640 - 1);
    assert Wrap(2 * -2147483640) == 16;
    forall x, i | 0 <= x < 2 && -radius <= i <= radius
      ensures 0 <= SetupIndex(2, hm, radius, x, i) < 16
    {
      assert Max(-radius, Min(i, hm)) == -radius;
      assert (-radius) * 2 == -2 * radius;
    }
  }

  /** Each blurred channel holds values 0..255 (lines 250-252, 339). */
  lemma BlurredChannels(pixels: seq<int>, w: int, h: int, radius: nat, ch: int)
    requires 1 <= w && 1 <= h && |pixels| == w * h && 0 <= ch < 3
    ensures Channels(Blurred(Plane(pixels, ch), w, h, radius))
  {
    PlaneChannels(pixels, ch);
    HPassChannels(Plane(pixels, ch), w, h, radius);
    VPassChannels(HPass(Plane(pixels, ch), w, h, radius), w, h, radius);
  }

  /** Every blurred pixel keeps its alpha. */
  lemma BlurPixelsAlpha(pixels: seq<int>, w: int, h: int, radius: nat)
    requires 1 <= w && 1 <= h && |pixels| == w * h
    ensures forall p :: 0 <= p < w * h ==> Alpha(BlurPixels(pixels, w, h, radius)[p]) == Alpha(pixels[p])
  {
    var red := Blurred(Plane(pixels, 0), w, h, radius);
    var green := Blurred(Plane(pixels, 1), w, h, radius);
    var blue := Blurred(Plane(pixels, 2), w, h, radius);
    BlurredChannels(pixels, w, h, radius, 0);
    BlurredChannels(pixels, w, h, radius, 1);
    BlurredChannels(pixels, w, h, radius, 2);
    forall p | 0 <= p < w * h
      ensures Alpha(BlurPixels(pixels, w, h, radius)[p]) == Alpha(pixels[p])
    {
      PackComponents(Alpha(pixels[p]), red[p], green[p], blue[p]);
    }
  }

  /** Byte 4p of an unpacked buffer is the alpha of pixel p; the alpha of a
      packed pixel is its first byte. */
  lemma AlphaBytes(input: seq<Byte>, pixels: seq<int>, p: int)
    requires |input| % 4 == 0 && 0 <= p < |input| / 4 && 0 <= p < |pixels|
    ensures Alpha(Packed(input)[p]) == input[4 * p]
    ensures Unpacked(pixels)[4 * p] == Alpha(pixels[p])
  {
    assert (4 * p) / 4 == p && (4 * p) % 4 == 0;
    PackComponents(input[4 * p], input[4 * p + 1], input[4 * p + 2], input[4 * p + 3]);
  }

  /** The blur returns a buffer of the input's length in which every
      pixel's alpha byte is the input's (lines 338-339, 385-394). */
  lemma BlurKeepsAlpha(input: seq<Byte>, w: int, h: int, radius: nat)
    requires 1 <= w && 1 <= h && |input| == w * h * 4
    ensures |BlurBytes(input, w, h, radius)| == |input|
    ensures forall p :: 0 <= p < w * h ==> BlurBytes(input, w, h, radius)[4 * p] == input[4 * p]
  {
    var pixels := Packed(input);
    var out := BlurPixels(pixels, w, h, radius);
    BlurPixelsAlpha(pixels, w, h, radius);
    forall p | 0 <= p < w * h
      ensures BlurBytes(input, w, h, radius)[4 * p] == input[4 * p]
    {
      AlphaBytes(input, out, p);
    }
  }

  /** Every pixel of the buffer has the same four bytes. */
  ghost predicate UniformColour(input: seq<Byte>)
  {
    forall k :: 4 <= k < |input| ==> input[k] == input[k % 4]
  }

  /** The packed pixels of a uniform-colour buffer are all the same. */
  lemma PackedUniform(input: seq<Byte>)
    requires 4 <= |input| && |input| % 4 == 0 && UniformColour(input)
    ensures Constant(Packed(input), Pack(input[0], input[1], input[2], input[3]))
  {
    var pixels := Packed(input);
    forall p | 0 <= p < |pixels|
      ensures pixels[p] == Pack(input[0], input[1], input[2], input[3])
    {
      assert (4 * p) % 4 == 0 && (4 * p + 1) % 4 == 1 && (4 * p + 2) % 4 == 2 && (4 * p + 3) % 4 == 3;
    }
  }

  /** Blurring a single-colour image yields the same pixels. */
  lemma BlurPixelsConstant(pixels: seq<int>, w: int, h: int, radius: nat, a: int, r: int, g: int, b: int)
    requires 1 <= w && 1 <= h && |pixels| == w * h
    requires 0 <= a < 256 && 0 <= r < 256 && 0 <= g < 256 && 0 <= b < 256
    requires Constant(pixels, Pack(a, r, g, b))
    ensures BlurPixels(pixels, w, h, radius) == pixels
  {
    PackComponents(a, r, g, b);
    var c := Pack(a, r, g, b);
    forall ch | 0 <= ch < 3
      ensures Constant(Blurred(Plane(pixels, ch), w, h, radius), Channel(c, ch))
    {
      HPassConstant(Plane(pixels, ch), w, h, radius, Channel(c, ch));
      VPassConstant(HPass(Plane(pixels, ch), w, h, radius), w, h, radius, Channel(c, ch));
    }
    var red := Blurred(Plane(pixels, 0), w, h, radius);
    var green := Blurred(Plane(pixels, 1), w, h, radius);
    var blue := Blurred(Plane(pixels, 2), w, h, radius);
    assert Constant(red, r) && Constant(green, g) && Constant(blue, b);
  }

  /** A uniform-colour image comes back unchanged: every stack sum is
      c * divsumSq and `dv[c * divsumSq] == c` (lines 193-199, 231-234,
      339). */
  lemma UniformFixedPoint(input: seq<Byte>, w: int, h: int, radius: int)
    requires 1 <= radius <= MaxRadius && 1 <= w && 1 <= h && |input| == w * h * 4 < 0x8000_0000
    requires radius * w <= 0x8000_0000
    requires UniformColour(input)
    ensures StackBlur(input, w, h, radius) == Ok(input)
  {
    StackBlurWellFormed(input, w, h, radius);
    MulLe(1, w * h, 4);
    PackedUniform(input);
    BlurPixelsConstant(Packed(input), w, h, radius, input[0], input[1], input[2], input[3]);
    UnpackPacked(input);
  }
}
