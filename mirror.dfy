/** `MirrorProcessor.process`: a left-right flip of a raw ARGB8888 buffer,
    written pixel by pixel into a fresh array. */
module Mirror {
  import opened Common

  /** Offset of byte i (0 = A .. 3 = B) of pixel (x, y) in a raw buffer of
      width w: `(y * w + x) * bytesPerPixel + i`. */
  function Flat(w: int, y: int, x: int, i: int): int { Index(w, y, x) * 4 + i }

  lemma FlatRange(w: int, h: int, y: int, x: int, i: int)
    requires 0 <= y < h && 0 <= x < w && 0 <= i < 4
    ensures 0 <= Flat(w, y, x, i) < w * h * 4
  {
    IndexInRange(w, h, y, x);
  }

  /** Offsets of different bytes differ. */
  lemma FlatInjective(w: int, y: int, x: int, i: int, y': int, x': int, i': int)
    requires 0 <= y && 0 <= x < w && 0 <= i < 4
    requires 0 <= y' && 0 <= x' < w && 0 <= i' < 4
    requires Flat(w, y, x, i) == Flat(w, y', x', i')
    ensures y == y' && x == x' && i == i'
  {
    var k := Flat(w, y, x, i);
    assert k / 4 == Index(w, y, x) && k % 4 == i;
    assert k / 4 == Index(w, y', x') && k % 4 == i';
    IndexDivMod(w, y, x);
    IndexDivMod(w, y', x');
  }

  /** Every offset of a w x h buffer is the offset of a byte of a pixel. */
  lemma FlatOf(w: int, h: int, k: int)
    requires 1 <= w && 0 <= k < w * h * 4
    ensures 0 <= k / 4 / w < h && 0 <= k / 4 % w < w
    ensures k == Flat(w, k / 4 / w, k / 4 % w, k % 4)
  {
    DivBelow(k, 4, w * h);
    PixelOf(w, h, k / 4);
  }

  /** The input offset whose byte lands at output offset k: same row, same
      byte of the pixel, column w-1-x for column x. */
  function MirrorSource(w: int, h: int, k: int): (s: int)
    requires 1 <= w && 0 <= k < w * h * 4
    ensures 0 <= s < w * h * 4
    ensures s / 4 / w == k / 4 / w && s % 4 == k % 4
  {
    FlatOf(w, h, k);
    var y, x, i := k / 4 / w, k / 4 % w, k % 4;
    FlatRange(w, h, y, w - 1 - x, i);
    FlatDivMod(w, y, w - 1 - x, i);
    Flat(w, y, w - 1 - x, i)
  }

  lemma FlatDivMod(w: int, y: int, x: int, i: int)
    requires 0 <= y && 0 <= x < w && 0 <= i < 4
    ensures Flat(w, y, x, i) / 4 / w == y && Flat(w, y, x, i) / 4 % w == x
    ensures Flat(w, y, x, i) % 4 == i
  {
    assert Flat(w, y, x, i) / 4 == Index(w, y, x);
    IndexDivMod(w, y, x);
  }

  /** The flipped image: the byte at each offset comes from the mirrored
      column of the same row. */
  function Mirrored(input: seq<Byte>, w: int, h: int): (out: seq<Byte>)
    requires 1 <= w && 1 <= h && |input| == w * h * 4
    ensures |out| == |input|
  {
    seq(|input|, k requires 0 <= k < |input| => input[MirrorSource(w, h, k)])
  }

  /** `process(imageData, children)` with `width() == width` and
      `height() == height`; `children` plays no part. The size check compares
      with `w * h * bytesPerPixel` as a 32-bit `Int`. */
  function MirrorProcess(input: seq<Byte>, width: int, height: int): (r: Result<seq<Byte>>)
    ensures r == Err(IllegalArgument) <==> |input| != Wrap(width * height * 4)
    ensures r.Err? && r.failure != IllegalArgument ==>
              r.failure == IndexOutOfBounds && 1 <= width && 1 <= height && |input| < width * height * 4
    ensures r.Ok? ==> |r.value| == |input|
    ensures 1 <= width && 1 <= height && |input| == width * height * 4 < 0x8000_0000 ==> r.Ok?
  {
    if |input| != Wrap(width * height * 4) then Err(IllegalArgument)
    else if 1 <= width && 1 <= height then
      if |input| == width * height * 4 then Ok(Mirrored(input, width, height))
      // the check passed only because w * h * 4 wrapped around: the loops
      // read imageData at offsets 0, 1, 2, ... (writing each byte at an offset
      // of the same row), so they run past its end, if a write has not
      // already gone out of bounds (MirrorRow)
      else (WrapApart(width * height * 4); Err(IndexOutOfBounds))
    // no pixel loop runs: the zero-filled output array is returned
    else Ok(seq(|input|, _ => 0))
  }

  // ---------------------------------------------------------------------
  // Properties of the flip
  // ---------------------------------------------------------------------

  /** Byte i of pixel (x, y) is copied to byte i of pixel (w-1-x, y). */
  lemma MirroredAt(input: seq<Byte>, w: int, h: int, y: int, x: int, i: int)
    requires 1 <= w && 1 <= h && |input| == w * h * 4
    requires 0 <= y < h && 0 <= x < w && 0 <= i < 4
    ensures 0 <= Flat(w, y, x, i) < |input| && 0 <= Flat(w, y, w - 1 - x, i) < |input|
    ensures Mirrored(input, w, h)[Flat(w, y, w - 1 - x, i)] == input[Flat(w, y, x, i)]
  {
    FlatRange(w, h, y, x, i);
    FlatRange(w, h, y, w - 1 - x, i);
    FlatDivMod(w, y, w - 1 - x, i);
  }

  /** Mirroring the source offset gives back the offset. */
  lemma SourceInvolution(w: int, h: int, k: int)
    requires 1 <= w && 0 <= k < w * h * 4
    ensures MirrorSource(w, h, MirrorSource(w, h, k)) == k
  {
    FlatOf(w, h, k);
    var y, x, i := k / 4 / w, k / 4 % w, k % 4;
    FlatDivMod(w, y, w - 1 - x, i);
  }

  /** Mirroring twice gives back the original buffer. */
  lemma MirrorInvolution(input: seq<Byte>, w: int, h: int)
    requires 1 <= w && 1 <= h && |input| == w * h * 4
    ensures Mirrored(Mirrored(input, w, h), w, h) == input
  {
    var once := Mirrored(input, w, h);
    forall k | 0 <= k < |input|
      ensures Mirrored(once, w, h)[k] == input[k]
    {
      SourceInvolution(w, h, k);
    }
  }

  /** Flipping twice through `process` returns the input, whatever the
      dimensions, as long as the size matches and both are positive. */
  lemma ProcessTwice(input: seq<Byte>, w: int, h: int)
    requires 1 <= w && 1 <= h && |input| == w * h * 4 < 0x8000_0000
    ensures MirrorProcess(input, w, h).Ok?
    ensures MirrorProcess(MirrorProcess(input, w, h).value, w, h) == Ok(input)
  {
    MirrorInvolution(input, w, h);
  }

  /** The offsets at which a buffer holds the byte v. */
  function Positions(s: seq<Byte>, v: Byte): set<int>
  {
    set k | 0 <= k < |s| && s[k] == v
  }

  /** A byte occurs in a buffer as often as it has positions there. */
  lemma {:induction false} CountPositions(s: seq<Byte>, v: Byte)
    ensures multiset(s)[v] == |Positions(s, v)|
    decreases |s|
  {
    if s != [] {
      var n := |s| - 1;
      var front := s[..n];
      assert s == front + [s[n]];
      CountPositions(front, v);
      if s[n] == v {
        assert Positions(s, v) == Positions(front, v) + {n};
      } else {
        assert Positions(s, v) == Positions(front, v);
      }
    }
  }

  /** The offsets below n whose image under f lies in a set. */
  function Preimage(f: int -> int, n: int, offsets: set<int>): set<int>
  {
    set k | 0 <= k < n && f(k) in offsets
  }

  /** The offsets of a set from 0 up to n. */
  function Below(offsets: set<int>, n: int): set<int>
  {
    set k | k in offsets && 0 <= k < n
  }

  /** f maps 0..size-1 onto itself and undoes itself. */
  ghost predicate Involution(f: int -> int, size: int)
  {
    forall k {:trigger f(f(k))} :: 0 <= k < size ==> 0 <= f(k) < size && f(f(k)) == k
  }

  lemma BelowStep(offsets: set<int>, m: int)
    requires 0 <= m
    ensures Below(offsets, m + 1) == Below(offsets, m) + (if m in offsets then {m} else {})
  {
  }

  /** Admitting offset m to the set adds just f(m) to its preimage, and
      f(m) was not there yet. */
  lemma PreimageStep(f: int -> int, size: int, offsets: set<int>, m: int)
    requires Involution(f, size) && 0 <= m < size
    ensures f(m) !in Preimage(f, size, Below(offsets, m))
    ensures Preimage(f, size, Below(offsets, m + 1))
         == Preimage(f, size, Below(offsets, m)) + (if m in offsets then {f(m)} else {})
  {
    BelowStep(offsets, m);
    assert f(f(m)) == m;
    var after := Preimage(f, size, Below(offsets, m + 1));
    var expected := Preimage(f, size, Below(offsets, m)) + (if m in offsets then {f(m)} else {});
    forall k | 0 <= k < size
      ensures k in after <==> k in expected
    {
      assert f(f(k)) == k;
    }
  }

  /** An involution loses no offset: the offsets below n whose image lies in
      a set are as many as that set's offsets below n. */
  lemma {:induction false} PreimageBelow(f: int -> int, size: int, offsets: set<int>, n: int)
    requires Involution(f, size) && 0 <= n <= size
    ensures |Preimage(f, size, Below(offsets, n))| == |Below(offsets, n)|
    decreases n
  {
    if n == 0 {
      assert Below(offsets, n) == {};
      assert Preimage(f, size, Below(offsets, n)) == {};
    } else {
      var m := n - 1;
      PreimageBelow(f, size, offsets, m);
      BelowStep(offsets, m);
      PreimageStep(f, size, offsets, m);
      var images, smaller := Preimage(f, size, Below(offsets, m)), Below(offsets, m);
      if m in offsets {
        assert m !in smaller;
        assert |images + {f(m)}| == |images| + 1;
        assert |smaller + {m}| == |smaller| + 1;
      } else {
        assert images + {} == images && smaller + {} == smaller;
      }
    }
  }

  /** The flipped buffer is a permutation of the input: every byte value
      occurs as often as before. */
  lemma MirrorPermutes(input: seq<Byte>, w: int, h: int)
    requires 1 <= w && 1 <= h && |input| == w * h * 4
    ensures multiset(Mirrored(input, w, h)) == multiset(input)
  {
    var size := |input|;
    var out := Mirrored(input, w, h);
    var source := k => if 0 <= k < size then MirrorSource(w, h, k) else k;
    forall k | 0 <= k < size
      ensures 0 <= source(k) < size && source(source(k)) == k
    {
      SourceInvolution(w, h, k);
    }
    var before: multiset<Byte> := multiset(input);
    var after: multiset<Byte> := multiset(out);
    forall v: Byte
      ensures after[v] == before[v]
    {
      var positions := Positions(input, v);
      assert Below(positions, size) == positions;
      assert Positions(out, v) == Preimage(source, size, positions);
      PreimageBelow(source, size, positions, size);
      CountPositions(out, v);
      CountPositions(input, v);
    }
  }

  /** Neither dimension positive: no loop runs and the result is all zeros,
      whenever the 32-bit size check passes. With w == 2 and
      h == -2147483647, w * h * 4 wraps to 8. */
  lemma WrappedNegativeGivesZeros(input: seq<Byte>)
    requires |input| == 8
    ensures MirrorProcess(input, 2, -2147483647) == Ok(seq(8, _ => 0))
  {
    assert Wrap(2 * -2147483647 * 4) == 8;
  }

  /** 32768 x 32768 pixels need 2^32 bytes, which wraps to 0: the empty
      buffer passes the size check and the first read fails. */
  lemma WrappedSizeFails()
    ensures MirrorProcess([], 32768, 32768) == Err(IndexOutOfBounds)
  {
    assert Wrap(32768 * 32768 * 4) == 0;
  }

  /** With both dimensions negative the size check passes (w * h > 0) but no
      loop runs, so the result is all zeros. */
  lemma NegativeDimensionsGiveZeros(input: seq<Byte>, w: int, h: int)
    requires w < 0 && h < 0 && |input| == w * h * 4 < 0x8000_0000
    ensures MirrorProcess(input, w, h) == Ok(seq(w * h * 4, _ => 0))
    ensures |input| > 0
  {
    assert w * h == (-w) * (-h);
    MulLe(1, -w, -h);
  }

  // ---------------------------------------------------------------------
  // The loops of MirrorProcessor.process (Mirror.kt:26-49)
  // ---------------------------------------------------------------------

  /** (yy, xx, ii) comes before (y, x, i) in the loops' order. */
  predicate Before(yy: int, xx: int, ii: int, y: int, x: int, i: int)
  {
    yy < y || (yy == y && (xx < x || (xx == x && ii < i)))
  }

  /** Every byte the loops have visited before (y, x, i) has been copied to
      its mirrored offset. */
  ghost predicate Copied(out: seq<Byte>, src: seq<Byte>, w: int, h: int, y: int, x: int, i: int)
  {
    forall yy, xx, ii {:trigger Flat(w, yy, xx, ii)} ::
      0 <= yy < h && 0 <= xx < w && 0 <= ii < 4 && Before(yy, xx, ii, y, x, i) ==>
        0 <= Flat(w, yy, xx, ii) < |src| && 0 <= Flat(w, yy, w - 1 - xx, ii) < |out|
        && out[Flat(w, yy, w - 1 - xx, ii)] == src[Flat(w, yy, xx, ii)]
  }

  lemma {:induction false} CopiedStart(out: seq<Byte>, src: seq<Byte>, w: int, h: int)
    ensures Copied(out, src, w, h, 0, 0, 0)
  {
  }

  /** The last byte of a pixel done: move on to the next pixel. */
  lemma {:induction false} NextPixel(out: seq<Byte>, src: seq<Byte>, w: int, h: int, y: int, x: int)
    requires Copied(out, src, w, h, y, x, 4)
    ensures Copied(out, src, w, h, y, x + 1, 0)
  {
    forall yy, xx, ii {:trigger Flat(w, yy, xx, ii)} | 0 <= yy < h && 0 <= xx < w && 0 <= ii < 4
      ensures Before(yy, xx, ii, y, x + 1, 0) ==>
        0 <= Flat(w, yy, xx, ii) < |src| && 0 <= Flat(w, yy, w - 1 - xx, ii) < |out|
        && out[Flat(w, yy, w - 1 - xx, ii)] == src[Flat(w, yy, xx, ii)]
    {
      if Before(yy, xx, ii, y, x + 1, 0) {
        assert Before(yy, xx, ii, y, x, 4);
      }
    }
  }

  /** The last pixel of a row done: move on to the next row. */
  lemma {:induction false} NextRow(out: seq<Byte>, src: seq<Byte>, w: int, h: int, y: int)
    requires Copied(out, src, w, h, y, w, 0)
    ensures Copied(out, src, w, h, y + 1, 0, 0)
  {
  }

  /** Once every row is done the output is the flipped image. */
  lemma {:induction false} CopiedAll(out: seq<Byte>, src: seq<Byte>, w: int, h: int)
    requires 1 <= w && 1 <= h && |src| == w * h * 4 && |out| == |src|
    requires Copied(out, src, w, h, h, 0, 0)
    ensures out == Mirrored(src, w, h)
  {
    forall k | 0 <= k < |out|
      ensures out[k] == Mirrored(src, w, h)[k]
    {
      FlatOf(w, h, k);
      var y, x, i := k / 4 / w, k / 4 % w, k % 4;
      assert k == Flat(w, y, w - 1 - (w - 1 - x), i);
      assert Before(y, w - 1 - x, i, h, 0, 0);
      assert out[k] == src[Flat(w, y, w - 1 - x, i)];
    }
  }

  /** Copying byte (y, x, i) keeps every earlier copy: no two bytes share a
      mirrored offset. */
  lemma {:induction false} CopiedStep(before: seq<Byte>, after: seq<Byte>, src: seq<Byte>, w: int, h: int, y: int, x: int, i: int)
    requires 0 <= y < h && 0 <= x < w && 0 <= i < 4
    requires |before| == |src| == w * h * 4
    requires 0 <= Flat(w, y, w - 1 - x, i) < |before| && 0 <= Flat(w, y, x, i) < |src|
    requires after == before[Flat(w, y, w - 1 - x, i) := src[Flat(w, y, x, i)]]
    requires Copied(before, src, w, h, y, x, i)
    ensures Copied(after, src, w, h, y, x, i + 1)
  {
    forall yy, xx, ii {:trigger Flat(w, yy, xx, ii)} |
      0 <= yy < h && 0 <= xx < w && 0 <= ii < 4 && Before(yy, xx, ii, y, x, i + 1)
      ensures 0 <= Flat(w, yy, xx, ii) < |src| && 0 <= Flat(w, yy, w - 1 - xx, ii) < |after|
      ensures after[Flat(w, yy, w - 1 - xx, ii)] == src[Flat(w, yy, xx, ii)]
    {
      FlatRange(w, h, yy, xx, ii);
      FlatRange(w, h, yy, w - 1 - xx, ii);
      if Before(yy, xx, ii, y, x, i) && Flat(w, yy, w - 1 - xx, ii) == Flat(w, y, w - 1 - x, i) {
        FlatInjective(w, yy, w - 1 - xx, ii, y, w - 1 - x, i);
      }
    }
  }

  /** The 32-bit offsets of byte i of pixel (x, y) and of its mirrored
      byte are the exact ones while those fit an `Int`, in particular when
      the size is exactly w * h * 4. */
  lemma Offsets(w: int, h: int, y: int, x: int, i: int, size: int, from: int, to: int)
    requires 0 <= y < h && 0 <= x < w && 0 <= i < 4 && size < 0x8000_0000
    requires from == Wrap(Wrap(Index(w, y, x) * 4) + i)
    requires to == Wrap(Wrap(Index(w, y, w - 1 - x) * 4) + i)
    ensures 0 <= Flat(w, y, x, i)
    ensures Flat(w, y, x, i) <= size ==> from == Flat(w, y, x, i)
    ensures size == w * h * 4 ==> 0 <= from == Flat(w, y, x, i) < size && 0 <= to == Flat(w, y, w - 1 - x, i) < size
  {
    WrapAdd(Index(w, y, x) * 4, i);
    WrapAdd(Index(w, y, w - 1 - x) * 4, i);
    MulLe(0, y, w);
    if size == w * h * 4 {
      FlatRange(w, h, y, x, i);
      FlatRange(w, h, y, w - 1 - x, i);
    }
  }

  /** The loops' state before byte (y, x, i): with the exact size every
      earlier byte has been copied; otherwise every offset read so far was
      inside the input. */
  ghost predicate Visited(out: seq<Byte>, src: seq<Byte>, w: int, h: int, y: int, x: int, i: int)
  {
    if |src| == w * h * 4 then Copied(out, src, w, h, y, x, i) else Flat(w, y, x, i) <= |src|
  }

  lemma NextPixelVisited(out: seq<Byte>, src: seq<Byte>, w: int, h: int, y: int, x: int)
    requires Visited(out, src, w, h, y, x, 4)
    ensures Visited(out, src, w, h, y, x + 1, 0)
  {
    if |src| == w * h * 4 {
      NextPixel(out, src, w, h, y, x);
    }
  }

  lemma NextRowVisited(out: seq<Byte>, src: seq<Byte>, w: int, h: int, y: int)
    requires Visited(out, src, w, h, y, w, 0)
    ensures Visited(out, src, w, h, y + 1, 0, 0)
  {
    if |src| == w * h * 4 {
      NextRow(out, src, w, h, y);
    } else {
      MulAddOne(y, w);
    }
  }

  /** `outputData[mirroredIndex + i] = imageData[originalIndex + i]`, both
      offsets computed in 32-bit `Int`: false, with nothing written, when the
      read or the write is out of bounds. With the exact size the copy always
      happens. */
  method CopyByte(out: array<Byte>, src: seq<Byte>, w: int, h: int, y: int, x: int, i: int) returns (ok: bool)
    requires 0 <= y < h && 0 <= x < w && 0 <= i < 4
    requires out.Length == |src| < 0x8000_0000
    requires Visited(out[..], src, w, h, y, x, i)
    modifies out
    ensures ok ==> Visited(out[..], src, w, h, y, x, i + 1)
    ensures |src| == w * h * 4 ==> ok
  {
    var originalIndex := Wrap(Index(w, y, x) * 4);
    var mirroredIndex := Wrap(Index(w, y, w - 1 - x) * 4);
    var from := Wrap(originalIndex + i);
    var to := Wrap(mirroredIndex + i);
    Offsets(w, h, y, x, i, |src|, from, to);
    if !(0 <= from < |src|) || !(0 <= to < out.Length) {
      return false;
    }
    ghost var before := out[..];
    out[to] := src[from];
    if |src| == w * h * 4 {
      CopiedStep(before, out[..], src, w, h, y, x, i);
    }
    return true;
  }

  /** `for (i in 0 until bytesPerPixel)`: the four bytes of pixel (x, y),
      or false at the first offset out of bounds. */
  method MirrorPixel(out: array<Byte>, src: seq<Byte>, w: int, h: int, y: int, x: int) returns (ok: bool)
    requires 0 <= y < h && 0 <= x < w && out.Length == |src| < 0x8000_0000
    requires Visited(out[..], src, w, h, y, x, 0)
    modifies out
    ensures ok ==> Visited(out[..], src, w, h, y, x + 1, 0)
    ensures |src| == w * h * 4 ==> ok
  {
    var i := 0;
    while i < 4
      invariant 0 <= i <= 4 && Visited(out[..], src, w, h, y, x, i)
    {
      ok := CopyByte(out, src, w, h, y, x, i);
      if !ok {
        return false;
      }
      i := i + 1;
    }
    NextPixelVisited(out[..], src, w, h, y, x);
    return true;
  }

  /** One pass of `for (x in 0 until w)`: every pixel of row y copied to
      its mirrored column, or false at the first offset out of bounds. */
  method MirrorRow(out: array<Byte>, src: seq<Byte>, w: int, h: int, y: int) returns (ok: bool)
    requires 0 <= y < h && 1 <= w && out.Length == |src| < 0x8000_0000
    requires Visited(out[..], src, w, h, y, 0, 0)
    modifies out
    ensures ok ==> Visited(out[..], src, w, h, y + 1, 0, 0)
    ensures |src| == w * h * 4 ==> ok
  {
    var x := 0;
    while x < w
      invariant 0 <= x <= w && Visited(out[..], src, w, h, y, x, 0)
    {
      ok := MirrorPixel(out, src, w, h, y, x);
      if !ok {
        return false;
      }
      x := x + 1;
    }
    NextRowVisited(out[..], src, w, h, y);
    return true;
  }

  /** `MirrorProcessor.process`: the size check in 32-bit `Int`, a
      zero-filled output array, and the nested loops copying each byte to
      its mirrored offset. The input array is only read. */
  method MirrorProcessor(imageData: array<Byte>, width: int, height: int) returns (res: Result<seq<Byte>>)
    ensures res == MirrorProcess(imageData[..], width, height)
  {
    var w, h := width, height;
    if imageData.Length != Wrap(w * h * 4) {
      return Err(IllegalArgument);
    }
    var src := imageData[..];
    var outputData := new Byte[imageData.Length](_ => 0);
    ghost var zeros := outputData[..];
    assert zeros == seq(|src|, _ => 0);
    if w <= 0 || h <= 0 {
      // `for (y in 0 until h)` or `for (x in 0 until w)` is empty
      return Ok(outputData[..]);
    }
    CopiedStart(outputData[..], src, w, h);
    var y := 0;
    while y < h
      invariant 0 <= y <= h && Visited(outputData[..], src, w, h, y, 0, 0)
    {
      var ok := MirrorRow(outputData, src, w, h, y);
      if !ok {
        return Err(IndexOutOfBounds);
      }
      y := y + 1;
    }
    if |src| != w * h * 4 {
      // every row was read, so the wrapped size cannot be short of w*h*4
      WrapApart(w * h * 4);
      assert false;
    }
    CopiedAll(outputData[..], src, w, h);
    return Ok(outputData[..]);
  }
}
