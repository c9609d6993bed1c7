/** `stackBlurRawArgb` (Blur.kt): the stack-blur kernel over a raw ARGB8888
    buffer, with its division table `dv`, its ring buffer `stack`, its running
    sums and its `vmin` cache, proved to compute the weighted sums of
    StackBlurSpec. */
module StackBlur {
  import opened Common
  import opened StackBlurSpec

  // ---------------------------------------------------------------------
  // Invariants of the running state
  // ---------------------------------------------------------------------

  /** `dv[k] == k / divsumSq` for every entry of `IntArray(256 * divsumSq)`. */
  ghost predicate DivTable(dv: array<int>, radius: nat)
    reads dv
  {
    dv.Length == 256 * DivSumSq(radius)
    && forall k :: 0 <= k < dv.Length ==> dv[k] == k / DivSumSq(radius)
  }

  /** The three running sums of one channel when the window is centred on c:
      `sum` is the stack sum, `outSum` the samples c-radius .. c, `inSum` the
      samples c+1 .. c+radius. */
  ghost predicate Window(line: seq<int>, c: int, radius: nat, sum: int, inSum: int, outSum: int)
    requires 1 <= |line|
  {
    sum == StackSum(line, c, radius)
    && outSum == BoxSum(line, c - radius, radius + 1)
    && inSum == BoxSum(line, c + 1, radius)
  }

  /** The slot after sp in a ring of div slots, `(sp + 1) % div`. */
  function Succ(sp: int, div: int): int
  {
    if sp + 1 == div then 0 else sp + 1
  }

  /** Offset from the window centre of the sample held in slot j of the ring
      buffer when `stackpointer` is sp (the centre's slot). */
  function Offset(j: int, sp: int, radius: int): int
  {
    var d := j - sp;
    if d > radius then d - (2 * radius + 1) else if d < -radius then d + (2 * radius + 1) else d
  }

  /** Slot j of one channel's ring buffer holds the clamped sample at
      c + Offset(j, sp) when the window is centred on c. */
  ghost predicate Ring(slots: seq<int>, sp: int, line: seq<int>, c: int, radius: nat)
    requires |slots| == 2 * radius + 1 && 1 <= |line|
  {
    forall j :: 0 <= j < 2 * radius + 1 ==> slots[j] == Sample(line, c + Offset(j, sp, radius))
  }

  /** The running sums of one channel after the set-up loop has added the
      samples at offsets -radius .. i-1. */
  ghost predicate Loading(line: seq<int>, radius: nat, i: int, sum: int, inSum: int, outSum: int)
    requires 1 <= |line| && 0 <= i + radius
  {
    sum == TriangleSum(line, 0, radius, i + radius)
    && inSum == BoxSum(line, 1, Max(i - 1, 0))
    && outSum == BoxSum(line, -(radius as int), Min(i, 1) + radius)
  }

  /** `vmin[x] == min(x + radius + 1, wm)` for the first n columns. */
  ghost predicate HorizontalVmin(vmin: array<int>, n: int, w: int, radius: int)
    reads vmin
  {
    forall x :: 0 <= x < n && x < vmin.Length ==> vmin[x] == Min(x + radius + 1, w - 1)
  }

  /** `vmin[y] == min(y + r1, hm) * w` for the first n rows. */
  ghost predicate VerticalVmin(vmin: array<int>, n: int, w: int, h: int, radius: int)
    reads vmin
  {
    forall y :: 0 <= y < n && y < vmin.Length ==> vmin[y] == Min(y + radius + 1, h - 1) * w
  }

  /** The first n entries of `out` hold those of `target`. */
  ghost predicate Prefix(out: array<int>, n: int, target: seq<int>)
    reads out
  {
    0 <= n <= out.Length && n <= |target| && forall q :: 0 <= q < n ==> out[q] == target[q]
  }

  /** `line` is channel ch of the pixels yp .. yp + |line| - 1. */
  ghost predicate PixelRow(pix: array<int>, yp: int, line: seq<int>, ch: int)
    reads pix
    requires 0 <= ch < 3
  {
    0 <= yp && yp + |line| <= pix.Length
    && forall q :: yp <= q < yp + |line| ==> line[q - yp] == Channel(pix[q], ch)
  }

  /** Outputs yp .. yp + x - 1 of a row hold the row's blur. */
  ghost predicate RowDone(out: array<int>, yp: int, x: int, line: seq<int>, radius: nat)
    reads out
    requires 1 <= |line|
  {
    forall x' :: 0 <= x' < x ==> 0 <= yp + x' < out.Length && out[yp + x'] == BlurAt(line, x', radius)
  }

  // ---------------------------------------------------------------------
  // Steps of the recurrence
  // ---------------------------------------------------------------------

  /** The running sums after one step of the recurrence, in the order the
      kernel updates them. */
  lemma SlideWindow(line: seq<int>, c: int, radius: nat, sum: int, inSum: int, outSum: int)
    requires 1 <= |line| && Window(line, c, radius, sum, inSum, outSum)
    ensures Window(line, c + 1, radius,
                   sum - outSum + (inSum + Sample(line, c + radius + 1)),
                   inSum + Sample(line, c + radius + 1) - Sample(line, c + 1),
                   outSum - Sample(line, c - radius) + Sample(line, c + 1))
  {
    SlideStackSum(line, c, radius);
    BoxSumFirst(line, c - radius, radius);
    BoxSumFirst(line, c + 1, radius);
  }

  /** One iteration of the set-up loop adds sample i with weight r1 - |i|
      to the stack sum, and to the "in" sum when i > 0, else to the "out"
      sum. */
  lemma LoadStep(line: seq<int>, radius: nat, i: int, s: int, sum: int, inSum: int, outSum: int)
    requires 1 <= |line| && 0 <= i + radius && i <= radius && s == Sample(line, i)
    requires Loading(line, radius, i, sum, inSum, outSum)
    ensures Loading(line, radius, i + 1, sum + s * (radius + 1 - Abs(i)),
                    if i > 0 then inSum + s else inSum,
                    if i > 0 then outSum else outSum + s)
  {
    assert TriangleSum(line, 0, radius, i + 1 + radius)
        == sum + Weight(radius, i) * s;
  }

  /** After offsets -radius .. radius the sums are centred on position 0. */
  lemma LoadDone(line: seq<int>, radius: nat, sum: int, inSum: int, outSum: int)
    requires 1 <= |line| && Loading(line, radius, radius + 1, sum, inSum, outSum)
    ensures Window(line, 0, radius, sum, inSum, outSum)
  {
  }

  /** Advancing `stackpointer` from sp to next turns the oldest slot e
      (offset -radius) into the newest one (offset +radius) and moves every
      other slot one step closer to the left edge. */
  lemma RingAdvance(sp: int, radius: nat, e: int, next: int)
    requires 0 <= sp < 2 * radius + 1
    requires e == (sp - radius + 2 * radius + 1) % (2 * radius + 1)
    requires next == (sp + 1) % (2 * radius + 1)
    ensures 0 <= e < 2 * radius + 1 && 0 <= next < 2 * radius + 1 && next == Succ(sp, 2 * radius + 1)
    ensures Offset(e, sp, radius) == -(radius as int) && Offset(next, next, radius) == 0
    ensures forall j :: 0 <= j < 2 * radius + 1 ==>
      Offset(j, next, radius) == (if j == e then radius as int else Offset(j, sp, radius) - 1)
  {
    ModSmall(sp - radius + 2 * radius + 1, 2 * radius + 1);
    ModSmall(sp + 1, 2 * radius + 1);
  }

  /** Overwriting the oldest slot e with the sample at c + radius + 1 and
      advancing the pointer to next centres the ring on c + 1. */
  lemma RingSlide(slots: seq<int>, sp: int, line: seq<int>, c: int, radius: nat, e: int, next: int, s: int)
    requires 1 <= |line| && |slots| == 2 * radius + 1 && 0 <= sp < 2 * radius + 1
    requires e == (sp - radius + 2 * radius + 1) % (2 * radius + 1)
    requires next == (sp + 1) % (2 * radius + 1)
    requires s == Sample(line, c + radius + 1)
    requires Ring(slots, sp, line, c, radius)
    ensures 0 <= e < |slots| && 0 <= next < |slots| && next == Succ(sp, 2 * radius + 1)
    ensures slots[e] == Sample(line, c - radius)
    ensures Ring(slots[e := s], next, line, c + 1, radius)
    ensures slots[e := s][next] == Sample(line, c + 1)
  {
    RingAdvance(sp, radius, e, next);
    var slots' := slots[e := s];
    forall j | 0 <= j < 2 * radius + 1
      ensures slots'[j] == Sample(line, c + 1 + Offset(j, next, radius))
    {
      if j != e {
        assert slots'[j] == slots[j] == Sample(line, c + Offset(j, sp, radius));
        assert c + 1 + Offset(j, next, radius) == c + Offset(j, sp, radius);
      } else {
        assert c + 1 + Offset(j, next, radius) == c + radius + 1;
      }
    }
  }

  // ---------------------------------------------------------------------
  // One channel of one step. The kernel's ring buffer `stack` holds div
  // slots `sir` of three channel values; each channel's column of it is
  // kept here as its own sequence, and the three channels take the same
  // steps one after the other.
  // ---------------------------------------------------------------------

  /** The set-up loop's work for one channel at offset i: slot i + radius
      receives sample s, and the sums take it in with weight r1 - |i|, into
      the "in" sum when i > 0 and into the "out" sum otherwise. */
  method LoadSample(slots: seq<int>, radius: int, i: int, s: int,
                    ghost line: seq<int>, sum: int, inSum: int, outSum: int)
    returns (slots': seq<int>, sum': int, inSum': int, outSum': int)
    requires 1 <= |line| && 1 <= radius && -radius <= i <= radius && s == Sample(line, i)
    requires |slots| == 2 * radius + 1
    requires Loading(line, radius, i, sum, inSum, outSum)
    requires forall j :: 0 <= j < i + radius ==> slots[j] == Sample(line, j - radius)
    ensures |slots'| == 2 * radius + 1
    ensures Loading(line, radius, i + 1, sum', inSum', outSum')
    ensures forall j :: 0 <= j < i + 1 + radius ==> slots'[j] == Sample(line, j - radius)
  {
    slots' := slots[i + radius := s];
    var rbs := radius + 1 - Abs(i);
    LoadStep(line, radius, i, s, sum, inSum, outSum);
    sum' := sum + slots'[i + radius] * rbs;
    inSum', outSum' := inSum, outSum;
    if i > 0 {
      inSum' := inSum + slots'[i + radius];
    } else {
      outSum' := outSum + slots'[i + radius];
    }
  }

  /** The sweep's work for one channel when the window moves from c to
      c + 1: the oldest slot (offset -radius) leaves the "out" sum and is
      overwritten with the sample s at c + radius + 1, which joins the "in"
      sum; the slot after `stackpointer` (offset +1) moves from "in" to
      "out". */
  method SlideSample(slots: seq<int>, radius: int, sp: int, s: int,
                     ghost line: seq<int>, c: int, sum: int, inSum: int, outSum: int)
    returns (slots': seq<int>, sum': int, inSum': int, outSum': int)
    requires 1 <= |line| && 1 <= radius && 0 <= sp < 2 * radius + 1
    requires |slots| == 2 * radius + 1 && s == Sample(line, c + radius + 1)
    requires Window(line, c, radius, sum, inSum, outSum)
    requires Ring(slots, sp, line, c, radius)
    ensures |slots'| == 2 * radius + 1
    ensures Window(line, c + 1, radius, sum', inSum', outSum')
    ensures Ring(slots', Succ(sp, 2 * radius + 1), line, c + 1, radius)
  {
    var div := radius + radius + 1;
    SlideWindow(line, c, radius, sum, inSum, outSum);
    sum' := sum - outSum;
    var stackstart := sp - radius + div;
    var e := stackstart % div;
    var next := (sp + 1) % div;
    RingSlide(slots, sp, line, c, radius, e, next, s);
    outSum' := outSum - slots[e];
    slots' := slots[e := s];
    inSum' := inSum + slots'[e];
    sum' := sum' + inSum';
    outSum' := outSum' + slots'[next];
    inSum' := inSum' - slots'[next];
  }

  // ---------------------------------------------------------------------
  // Horizontal pass (Blur.kt lines 217-296)
  // ---------------------------------------------------------------------

  /** The set-up loop of one row (lines 220-246): the window centred on
      column 0, with columns before 0 clamped to column 0. */
  method LoadRowWindow(pix: array<int>, yp: int, w: int, radius: int,
                       ghost rowR: seq<int>, ghost rowG: seq<int>, ghost rowB: seq<int>)
    returns (stackR: seq<int>, stackG: seq<int>, stackB: seq<int>,
             rsum: int, gsum: int, bsum: int, rinsum: int, ginsum: int, binsum: int,
             routsum: int, goutsum: int, boutsum: int)
    requires 1 <= w && 1 <= radius
    requires |rowR| == w && |rowG| == w && |rowB| == w
    requires PixelRow(pix, yp, rowR, 0) && PixelRow(pix, yp, rowG, 1) && PixelRow(pix, yp, rowB, 2)
    ensures |stackR| == 2 * radius + 1 && |stackG| == 2 * radius + 1 && |stackB| == 2 * radius + 1
    ensures Window(rowR, 0, radius, rsum, rinsum, routsum)
    ensures Window(rowG, 0, radius, gsum, ginsum, goutsum)
    ensures Window(rowB, 0, radius, bsum, binsum, boutsum)
    ensures Ring(stackR, radius, rowR, 0, radius)
    ensures Ring(stackG, radius, rowG, 0, radius)
    ensures Ring(stackB, radius, rowB, 0, radius)
  {
    var wm := w - 1;
    stackR := seq(2 * radius + 1, _ => 0);
    stackG := seq(2 * radius + 1, _ => 0);
    stackB := seq(2 * radius + 1, _ => 0);
    rinsum, ginsum, binsum := 0, 0, 0;
    routsum, goutsum, boutsum := 0, 0, 0;
    rsum, gsum, bsum := 0, 0, 0;
    var i := -radius;
    while i <= radius
      invariant -radius <= i <= radius + 1
      invariant |stackR| == 2 * radius + 1 && |stackG| == 2 * radius + 1 && |stackB| == 2 * radius + 1
      invariant Loading(rowR, radius, i, rsum, rinsum, routsum)
      invariant Loading(rowG, radius, i, gsum, ginsum, goutsum)
      invariant Loading(rowB, radius, i, bsum, binsum, boutsum)
      invariant forall j :: 0 <= j < i + radius ==> stackR[j] == Sample(rowR, j - radius)
      invariant forall j :: 0 <= j < i + radius ==> stackG[j] == Sample(rowG, j - radius)
      invariant forall j :: 0 <= j < i + radius ==> stackB[j] == Sample(rowB, j - radius)
    {
      var p := pix[yp + Min(wm, Max(i, 0))];
      ghost var k := CoerceIn(i, 0, wm);
      assert Min(wm, Max(i, 0)) == k;
      assert rowR[k] == Channel(p, 0);
      assert Sample(rowR, i) == rowR[k] == Channel(p, 0);
      assert Sample(rowG, i) == rowG[k] == Channel(p, 1);
      assert Sample(rowB, i) == rowB[k] == Channel(p, 2);
      stackR, rsum, rinsum, routsum := LoadSample(stackR, radius, i, Channel(p, 0), rowR, rsum, rinsum, routsum);
      stackG, gsum, ginsum, goutsum := LoadSample(stackG, radius, i, Channel(p, 1), rowG, gsum, ginsum, goutsum);
      stackB, bsum, binsum, boutsum := LoadSample(stackB, radius, i, Channel(p, 2), rowB, bsum, binsum, boutsum);
      i := i + 1;
    }
    LoadDone(rowR, radius, rsum, rinsum, routsum);
    LoadDone(rowG, radius, gsum, ginsum, goutsum);
    LoadDone(rowB, radius, bsum, binsum, boutsum);
    assert forall j :: 0 <= j < 2 * radius + 1 ==> Offset(j, radius, radius) == j - radius;
  }

  /** `r[yi] = dv[rsum]` (lines 250-252) for one channel: the output of
      column x is the row's blur at x, and the rows above stay as they are. */
  method EmitChannel(out: array<int>, yp: int, x: int, dv: array<int>, sum: int,
                     ghost line: seq<int>, radius: int, ghost target: seq<int>)
    requires 1 <= radius && 0 <= x < |line| && Channels(line) && 0 <= yp && yp + x < out.Length
    requires DivTable(dv, radius) && out != dv
    requires sum == StackSum(line, x, radius)
    requires RowDone(out, yp, x, line, radius) && Prefix(out, yp, target)
    modifies out
    ensures RowDone(out, yp, x + 1, line, radius) && Prefix(out, yp, target)
  {
    StackSumBounds(line, x, radius);
    out[yp + x] := dv[sum];
  }

  /** One iteration of the sweep over a row (lines 250-292) for the window
      centred on column x: the three outputs, `vmin[x]` on the first row,
      and the three channels' slide with the pixel at column
      min(x + radius + 1, wm). */
  method RowStep(pix: array<int>, yp: int, w: int, x: int, first: bool,
                 dv: array<int>, vmin: array<int>,
                 r: array<int>, g: array<int>, b: array<int>,
                 radius: int, sp: int,
                 ghost rowR: seq<int>, ghost rowG: seq<int>, ghost rowB: seq<int>,
                 ghost tR: seq<int>, ghost tG: seq<int>, ghost tB: seq<int>,
                 stackR: seq<int>, stackG: seq<int>, stackB: seq<int>,
                 rsum: int, gsum: int, bsum: int, rinsum: int, ginsum: int, binsum: int,
                 routsum: int, goutsum: int, boutsum: int)
    returns (stackR': seq<int>, stackG': seq<int>, stackB': seq<int>,
             rsum': int, gsum': int, bsum': int, rinsum': int, ginsum': int, binsum': int,
             routsum': int, goutsum': int, boutsum': int)
    requires 1 <= w && 1 <= radius && 0 <= x < w && 0 <= sp < 2 * radius + 1
    requires |rowR| == w && |rowG| == w && |rowB| == w
    requires Channels(rowR) && Channels(rowG) && Channels(rowB)
    requires PixelRow(pix, yp, rowR, 0) && PixelRow(pix, yp, rowG, 1) && PixelRow(pix, yp, rowB, 2)
    requires r.Length == pix.Length && g.Length == pix.Length && b.Length == pix.Length
    requires DivTable(dv, radius) && w <= vmin.Length
    requires pix != vmin
    requires r != g && r != b && g != b && pix != r && pix != g && pix != b
    requires dv != r && dv != g && dv != b && dv != vmin
    requires vmin != r && vmin != g && vmin != b
    requires HorizontalVmin(vmin, if first then x else w, w, radius)
    requires RowDone(r, yp, x, rowR, radius) && RowDone(g, yp, x, rowG, radius) && RowDone(b, yp, x, rowB, radius)
    requires Prefix(r, yp, tR) && Prefix(g, yp, tG) && Prefix(b, yp, tB)
    requires |stackR| == 2 * radius + 1 && |stackG| == 2 * radius + 1 && |stackB| == 2 * radius + 1
    requires Window(rowR, x, radius, rsum, rinsum, routsum) && Ring(stackR, sp, rowR, x, radius)
    requires Window(rowG, x, radius, gsum, ginsum, goutsum) && Ring(stackG, sp, rowG, x, radius)
    requires Window(rowB, x, radius, bsum, binsum, boutsum) && Ring(stackB, sp, rowB, x, radius)
    modifies r, g, b, vmin
    ensures HorizontalVmin(vmin, if first then x + 1 else w, w, radius)
    ensures RowDone(r, yp, x + 1, rowR, radius) && RowDone(g, yp, x + 1, rowG, radius) && RowDone(b, yp, x + 1, rowB, radius)
    ensures Prefix(r, yp, tR) && Prefix(g, yp, tG) && Prefix(b, yp, tB)
    ensures |stackR'| == 2 * radius + 1 && |stackG'| == 2 * radius + 1 && |stackB'| == 2 * radius + 1
    ensures Window(rowR, x + 1, radius, rsum', rinsum', routsum')
    ensures Window(rowG, x + 1, radius, gsum', ginsum', goutsum')
    ensures Window(rowB, x + 1, radius, bsum', binsum', boutsum')
    ensures Ring(stackR', Succ(sp, 2 * radius + 1), rowR, x + 1, radius)
    ensures Ring(stackG', Succ(sp, 2 * radius + 1), rowG, x + 1, radius)
    ensures Ring(stackB', Succ(sp, 2 * radius + 1), rowB, x + 1, radius)
  {
    var wm := w - 1;
    EmitChannel(r, yp, x, dv, rsum, rowR, radius, tR);
    EmitChannel(g, yp, x, dv, gsum, rowG, radius, tG);
    EmitChannel(b, yp, x, dv, bsum, rowB, radius, tB);
    if first {
      vmin[x] := Min(x + radius + 1, wm);
    }
    var p := pix[yp + vmin[x]];
    assert CoerceIn(x + radius + 1, 0, wm) == vmin[x];
    assert Sample(rowR, x + radius + 1) == Channel(p, 0);
    assert Sample(rowG, x + radius + 1) == Channel(p, 1);
    assert Sample(rowB, x + radius + 1) == Channel(p, 2);
    stackR', rsum', rinsum', routsum' := SlideSample(stackR, radius, sp, Channel(p, 0), rowR, x, rsum, rinsum, routsum);
    stackG', gsum', ginsum', goutsum' := SlideSample(stackG, radius, sp, Channel(p, 1), rowG, x, gsum, ginsum, goutsum);
    stackB', bsum', binsum', boutsum' := SlideSample(stackB, radius, sp, Channel(p, 2), rowB, x, bsum, binsum, boutsum);
  }

  /** One row of the horizontal pass (lines 220-294): `r`, `g`, `b` at
      yp .. yp + w - 1 receive the blur of the row's three channels, and
      the first row fills `vmin`. */
  method HorizontalRow(pix: array<int>, yp: int, w: int, radius: int, first: bool,
                       dv: array<int>, vmin: array<int>,
                       r: array<int>, g: array<int>, b: array<int>,
                       ghost rowR: seq<int>, ghost rowG: seq<int>, ghost rowB: seq<int>,
                       ghost tR: seq<int>, ghost tG: seq<int>, ghost tB: seq<int>)
    requires 1 <= w && 1 <= radius
    requires |rowR| == w && |rowG| == w && |rowB| == w
    requires Channels(rowR) && Channels(rowG) && Channels(rowB)
    requires PixelRow(pix, yp, rowR, 0) && PixelRow(pix, yp, rowG, 1) && PixelRow(pix, yp, rowB, 2)
    requires r.Length == pix.Length && g.Length == pix.Length && b.Length == pix.Length
    requires DivTable(dv, radius) && w <= vmin.Length
    requires pix != vmin
    requires r != g && r != b && g != b && pix != r && pix != g && pix != b
    requires dv != r && dv != g && dv != b && dv != vmin
    requires vmin != r && vmin != g && vmin != b
    requires !first ==> HorizontalVmin(vmin, w, w, radius)
    requires Prefix(r, yp, tR) && Prefix(g, yp, tG) && Prefix(b, yp, tB)
    modifies r, g, b, vmin
    ensures HorizontalVmin(vmin, w, w, radius)
    ensures RowDone(r, yp, w, rowR, radius) && RowDone(g, yp, w, rowG, radius) && RowDone(b, yp, w, rowB, radius)
    ensures Prefix(r, yp, tR) && Prefix(g, yp, tG) && Prefix(b, yp, tB)
  {
    var div := radius + radius + 1;
    var stackR, stackG, stackB, rsum, gsum, bsum, rinsum, ginsum, binsum, routsum, goutsum, boutsum :=
      LoadRowWindow(pix, yp, w, radius, rowR, rowG, rowB);
    var stackpointer := radius;
    var x := 0;
    while x < w
      invariant 0 <= x <= w && 0 <= stackpointer < div
      invariant |stackR| == div && |stackG| == div && |stackB| == div
      invariant Window(rowR, x, radius, rsum, rinsum, routsum)
      invariant Window(rowG, x, radius, gsum, ginsum, goutsum)
      invariant Window(rowB, x, radius, bsum, binsum, boutsum)
      invariant Ring(stackR, stackpointer, rowR, x, radius)
      invariant Ring(stackG, stackpointer, rowG, x, radius)
      invariant Ring(stackB, stackpointer, rowB, x, radius)
      invariant RowDone(r, yp, x, rowR, radius) && RowDone(g, yp, x, rowG, radius) && RowDone(b, yp, x, rowB, radius)
      invariant Prefix(r, yp, tR) && Prefix(g, yp, tG) && Prefix(b, yp, tB)
      invariant HorizontalVmin(vmin, if first then x else w, w, radius)
    {
      stackR, stackG, stackB, rsum, gsum, bsum, rinsum, ginsum, binsum, routsum, goutsum, boutsum :=
        RowStep(pix, yp, w, x, first, dv, vmin, r, g, b, radius, stackpointer, rowR, rowG, rowB, tR, tG, tB,
                stackR, stackG, stackB, rsum, gsum, bsum, rinsum, ginsum, binsum, routsum, goutsum, boutsum);
      stackpointer := Succ(stackpointer, div);
      x := x + 1;
    }
  }

  /** Row y of channel ch is what HorizontalRow reads: the channel of the
      pixels y * w .. y * w + w - 1, each a value 0..255. */
  lemma RowFacts(pixels: seq<int>, pix: array<int>, w: int, h: int, y: int, ch: int)
    requires 1 <= w && 0 <= y < h && pix.Length == w * h && pix[..] == pixels && 0 <= ch < 3
    ensures PixelRow(pix, Index(w, y, 0), RowOf(Plane(pixels, ch), w, h, y), ch)
    ensures Channels(RowOf(Plane(pixels, ch), w, h, y))
  {
    var row := RowOf(Plane(pixels, ch), w, h, y);
    IndexInRange(w, h, y, w - 1);
    assert Index(w, y, w) == Index(w, y, 0) + w;
    forall q | Index(w, y, 0) <= q < Index(w, y, 0) + w
      ensures row[q - Index(w, y, 0)] == Channel(pix[q], ch)
    {
      assert q == Index(w, y, q - Index(w, y, 0));
    }
  }

  /** A finished row extends the prefix of the horizontal pass by w. */
  lemma ExtendPrefix(out: array<int>, plane: seq<int>, w: int, h: int, radius: nat, y: int)
    requires 1 <= w && 0 <= y < h && |plane| == w * h && out.Length == w * h
    requires Prefix(out, Index(w, y, 0), HPass(plane, w, h, radius))
    requires RowDone(out, Index(w, y, 0), w, RowOf(plane, w, h, y), radius)
    ensures Prefix(out, Index(w, y + 1, 0), HPass(plane, w, h, radius))
  {
    var target := HPass(plane, w, h, radius);
    IndexInRange(w, h, y, w - 1);
    assert Index(w, y + 1, 0) == Index(w, y, 0) + w;
    forall q | Index(w, y, 0) <= q < Index(w, y, 0) + w
      ensures out[q] == target[q]
    {
      var x := q - Index(w, y, 0);
      assert q == Index(w, y, x);
      HPassAt(plane, w, h, radius, y, x);
    }
  }

  /** A prefix as long as the array is all of it. */
  lemma PrefixFull(out: array<int>, target: seq<int>)
    requires |target| == out.Length && Prefix(out, out.Length, target)
    ensures out[..] == target
  {
  }

  /** Row y of the horizontal pass (lines 220-295): the prefix of `r`, `g`,
      `b` that holds the pass's result grows by one row. */
  method HorizontalPassRow(pix: array<int>, w: int, h: int, y: int, yp: int, radius: int,
                           dv: array<int>, vmin: array<int>,
                           r: array<int>, g: array<int>, b: array<int>,
                           ghost pixels: seq<int>, ghost planeR: seq<int>, ghost planeG: seq<int>, ghost planeB: seq<int>)
    requires 1 <= w && 0 <= y < h && 1 <= radius && yp == y * w
    requires pix.Length == w * h && r.Length == w * h && g.Length == w * h && b.Length == w * h
    requires pix[..] == pixels
    requires planeR == Plane(pixels, 0) && planeG == Plane(pixels, 1) && planeB == Plane(pixels, 2)
    requires DivTable(dv, radius) && w <= vmin.Length
    requires pix != vmin
    requires r != g && r != b && g != b && pix != r && pix != g && pix != b
    requires dv != r && dv != g && dv != b && dv != vmin
    requires vmin != r && vmin != g && vmin != b
    requires y > 0 ==> HorizontalVmin(vmin, w, w, radius)
    requires Prefix(r, yp, HPass(planeR, w, h, radius))
    requires Prefix(g, yp, HPass(planeG, w, h, radius))
    requires Prefix(b, yp, HPass(planeB, w, h, radius))
    modifies r, g, b, vmin
    ensures HorizontalVmin(vmin, w, w, radius)
    ensures Prefix(r, yp + w, HPass(planeR, w, h, radius))
    ensures Prefix(g, yp + w, HPass(planeG, w, h, radius))
    ensures Prefix(b, yp + w, HPass(planeB, w, h, radius))
  {
    ghost var rowR, rowG, rowB := RowOf(planeR, w, h, y), RowOf(planeG, w, h, y), RowOf(planeB, w, h, y);
    RowFacts(pixels, pix, w, h, y, 0);
    RowFacts(pixels, pix, w, h, y, 1);
    RowFacts(pixels, pix, w, h, y, 2);
    HorizontalRow(pix, yp, w, radius, y == 0, dv, vmin, r, g, b, rowR, rowG, rowB,
                  HPass(planeR, w, h, radius), HPass(planeG, w, h, radius), HPass(planeB, w, h, radius));
    ExtendPrefix(r, planeR, w, h, radius, y);
    ExtendPrefix(g, planeG, w, h, radius, y);
    ExtendPrefix(b, planeB, w, h, radius, y);
    assert Index(w, y + 1, 0) == yp + w;
  }

  /** The horizontal pass (lines 217-296): every row of the three channels
      of `pix` blurred into `r`, `g`, `b`; the first row fills `vmin`. */
  method HorizontalPass(pix: array<int>, w: int, h: int, radius: int,
                        dv: array<int>, vmin: array<int>,
                        r: array<int>, g: array<int>, b: array<int>, ghost pixels: seq<int>)
    requires 1 <= w && 1 <= h && 1 <= radius
    requires pix.Length == w * h && r.Length == w * h && g.Length == w * h && b.Length == w * h
    requires pix[..] == pixels
    requires DivTable(dv, radius) && w <= vmin.Length
    requires pix != vmin
    requires r != g && r != b && g != b && pix != r && pix != g && pix != b
    requires dv != r && dv != g && dv != b && dv != vmin
    requires vmin != r && vmin != g && vmin != b
    modifies r, g, b, vmin
    ensures r[..] == HPass(Plane(pixels, 0), w, h, radius)
    ensures g[..] == HPass(Plane(pixels, 1), w, h, radius)
    ensures b[..] == HPass(Plane(pixels, 2), w, h, radius)
  {
    ghost var planeR, planeG, planeB := Plane(pixels, 0), Plane(pixels, 1), Plane(pixels, 2);
    var yp := 0;
    var y := 0;
    while y < h
      invariant 0 <= y <= h && yp == y * w && yp <= w * h && pix[..] == pixels
      invariant Prefix(r, yp, HPass(planeR, w, h, radius))
      invariant Prefix(g, yp, HPass(planeG, w, h, radius))
      invariant Prefix(b, yp, HPass(planeB, w, h, radius))
      invariant y > 0 ==> HorizontalVmin(vmin, w, w, radius)
    {
      HorizontalPassRow(pix, w, h, y, yp, radius, dv, vmin, r, g, b, pixels, planeR, planeG, planeB);
      MulAddOne(y, w);
      MulLe(y + 1, h, w);
      yp := yp + w;
      y := y + 1;
    }
    assert yp == w * h == r.Length;
    PrefixFull(r, HPass(planeR, w, h, radius));
    PrefixFull(g, HPass(planeG, w, h, radius));
    PrefixFull(b, HPass(planeB, w, h, radius));
  }

  // ---------------------------------------------------------------------
  // Vertical pass (Blur.kt lines 298-382)
  // ---------------------------------------------------------------------

  /** Column x of `src`, top to bottom, is `col`. */
  ghost predicate ColumnOf(src: array<int>, w: int, x: int, col: seq<int>)
    reads src
  {
    forall y {:trigger Index(w, y, x)} :: 0 <= y < |col| ==> 0 <= Index(w, y, x) < src.Length && src[Index(w, y, x)] == col[y]
  }

  /** The pixels of columns before x, and of column x above row y, hold
      `target`; every other pixel still holds `src`. */
  ghost predicate VerticalProgress(pix: array<int>, w: int, x: int, y: int, target: seq<int>, src: seq<int>)
    reads pix
    requires 1 <= w
  {
    |target| == pix.Length && |src| == pix.Length
    && forall q :: 0 <= q < pix.Length ==>
         pix[q] == (if q % w < x || (q % w == x && q / w < y) then target[q] else src[q])
  }

  /** The target of column x: the original alpha of each pixel, and the
      blur of the three channel columns at its row. */
  ghost predicate ColumnTarget(target: seq<int>, src: seq<int>, w: int, x: int,
                               colR: seq<int>, colG: seq<int>, colB: seq<int>, radius: nat)
    requires 1 <= |colR| && |colG| == |colR| && |colB| == |colR|
  {
    forall y {:trigger Index(w, y, x)} :: 0 <= y < |colR| ==>
      0 <= Index(w, y, x) < |target| && Index(w, y, x) < |src|
      && target[Index(w, y, x)]
         == Pack(Alpha(src[Index(w, y, x)]), BlurAt(colR, y, radius), BlurAt(colG, y, radius), BlurAt(colB, y, radius))
  }

  /** The set-up loop of one column (lines 301-333): the window centred on
      row 0, with rows before 0 clamped to row 0 and rows after hm to hm. */
  method LoadColumnWindow(r: array<int>, g: array<int>, b: array<int>, x: int, w: int, h: int, radius: int,
                          ghost colR: seq<int>, ghost colG: seq<int>, ghost colB: seq<int>)
    returns (stackR: seq<int>, stackG: seq<int>, stackB: seq<int>,
             rsum: int, gsum: int, bsum: int, rinsum: int, ginsum: int, binsum: int,
             routsum: int, goutsum: int, boutsum: int)
    requires 1 <= w && 1 <= h && 1 <= radius && 0 <= x < w
    requires w * h < 0x8000_0000 && radius * w <= 0x8000_0000
    requires |colR| == h && |colG| == h && |colB| == h
    requires ColumnOf(r, w, x, colR) && ColumnOf(g, w, x, colG) && ColumnOf(b, w, x, colB)
    ensures |stackR| == 2 * radius + 1 && |stackG| == 2 * radius + 1 && |stackB| == 2 * radius + 1
    ensures Window(colR, 0, radius, rsum, rinsum, routsum)
    ensures Window(colG, 0, radius, gsum, ginsum, goutsum)
    ensures Window(colB, 0, radius, bsum, binsum, boutsum)
    ensures Ring(stackR, radius, colR, 0, radius)
    ensures Ring(stackG, radius, colG, 0, radius)
    ensures Ring(stackB, radius, colB, 0, radius)
  {
    var hm := h - 1;
    stackR := seq(2 * radius + 1, _ => 0);
    stackG := seq(2 * radius + 1, _ => 0);
    stackB := seq(2 * radius + 1, _ => 0);
    rinsum, ginsum, binsum := 0, 0, 0;
    routsum, goutsum, boutsum := 0, 0, 0;
    rsum, gsum, bsum := 0, 0, 0;
    var yp2 := Wrap(-radius * w);
    var i := -radius;
    while i <= radius
      invariant -radius <= i <= radius + 1 && yp2 == Wrap(Max(-radius, Min(i, hm)) * w)
      invariant |stackR| == 2 * radius + 1 && |stackG| == 2 * radius + 1 && |stackB| == 2 * radius + 1
      invariant Loading(colR, radius, i, rsum, rinsum, routsum)
      invariant Loading(colG, radius, i, gsum, ginsum, goutsum)
      invariant Loading(colB, radius, i, bsum, binsum, boutsum)
      invariant forall j :: 0 <= j < i + radius ==> stackR[j] == Sample(colR, j - radius)
      invariant forall j :: 0 <= j < i + radius ==> stackG[j] == Sample(colG, j - radius)
      invariant forall j :: 0 <= j < i + radius ==> stackB[j] == Sample(colB, j - radius)
    {
      var yi := Wrap(Max(0, yp2) + x);
      ghost var k := CoerceIn(i, 0, hm);
      SetupIndexNoWrap(w, h, radius, x, i);
      assert yi == Index(w, k, x);
      assert Sample(colR, i) == colR[k] == r[yi];
      assert Sample(colG, i) == colG[k] == g[yi];
      assert Sample(colB, i) == colB[k] == b[yi];
      stackR, rsum, rinsum, routsum := LoadSample(stackR, radius, i, r[yi], colR, rsum, rinsum, routsum);
      stackG, gsum, ginsum, goutsum := LoadSample(stackG, radius, i, g[yi], colG, gsum, ginsum, goutsum);
      stackB, bsum, binsum, boutsum := LoadSample(stackB, radius, i, b[yi], colB, bsum, binsum, boutsum);
      if i < hm {
        SetupStep(w, hm, radius, i, yp2);
        yp2 := Wrap(yp2 + w);
      }
      i := i + 1;
    }
    LoadDone(colR, radius, rsum, rinsum, routsum);
    LoadDone(colG, radius, gsum, ginsum, goutsum);
    LoadDone(colB, radius, bsum, binsum, boutsum);
    assert forall j :: 0 <= j < 2 * radius + 1 ==> Offset(j, radius, radius) == j - radius;
  }

  /** `pix[yi] = (a shl 24) or (dv[rsum] shl 16) or (dv[gsum] shl 8) or
      dv[bsum]` (lines 338-339): pixel (x, y) receives its target, every
      other pixel is left as it was. */
  method EmitPixel(pix: array<int>, yi: int, w: int, x: int, y: int, dv: array<int>,
                   rsum: int, gsum: int, bsum: int, radius: int,
                   ghost colR: seq<int>, ghost colG: seq<int>, ghost colB: seq<int>,
                   ghost target: seq<int>, ghost src: seq<int>)
    requires 1 <= w && 0 <= x < w && 1 <= radius && 0 <= y < |colR|
    requires |colG| == |colR| && |colB| == |colR|
    requires Channels(colR) && Channels(colG) && Channels(colB)
    requires DivTable(dv, radius) && pix != dv && yi == Index(w, y, x)
    requires rsum == StackSum(colR, y, radius) && gsum == StackSum(colG, y, radius) && bsum == StackSum(colB, y, radius)
    requires ColumnTarget(target, src, w, x, colR, colG, colB, radius)
    requires VerticalProgress(pix, w, x, y, target, src)
    modifies pix
    ensures VerticalProgress(pix, w, x, y + 1, target, src)
  {
    StackSumBounds(colR, y, radius);
    StackSumBounds(colG, y, radius);
    StackSumBounds(colB, y, radius);
    IndexDivMod(w, y, x);
    var a := Alpha(pix[yi]);
    pix[yi] := Pack(a, dv[rsum], dv[gsum], dv[bsum]);
    forall q | 0 <= q < pix.Length
      ensures pix[q] == (if q % w < x || (q % w == x && q / w < y + 1) then target[q] else src[q])
    {
      assert q == (q / w) * w + q % w;
    }
  }

  /** `if (x == 0) vmin[y] = min(y + r1, hm) * w` and `p = x + vmin[y]`
      (lines 352-353): p is the index of pixel (x, min(y + r1, hm)). */
  method NextRowIndex(vmin: array<int>, w: int, h: int, x: int, y: int, radius: int, first: bool)
    returns (p: int)
    requires 1 <= w && 1 <= h && 0 <= x < w && 0 <= y < h && 1 <= radius && h <= vmin.Length
    requires VerticalVmin(vmin, if first then y else h, w, h, radius)
    modifies vmin
    ensures VerticalVmin(vmin, if first then y + 1 else h, w, h, radius)
    ensures p == Index(w, CoerceIn(y + radius + 1, 0, h - 1), x)
  {
    var hm := h - 1;
    if first {
      vmin[y] := Min(y + radius + 1, hm) * w;
    }
    p := x + vmin[y];
  }

  /** `r[p]`, `g[p]`, `b[p]` (lines 355-357) for the pixel at row
      y + r1 of column x, clamped: the samples the window takes in next. */
  method ReadSamples(r: array<int>, g: array<int>, b: array<int>, p: int, w: int, h: int, x: int, y: int, radius: int,
                     ghost colR: seq<int>, ghost colG: seq<int>, ghost colB: seq<int>)
    returns (sR: int, sG: int, sB: int)
    requires 1 <= h && 0 <= radius && p == Index(w, CoerceIn(y + radius + 1, 0, h - 1), x)
    requires |colR| == h && |colG| == h && |colB| == h
    requires ColumnOf(r, w, x, colR) && ColumnOf(g, w, x, colG) && ColumnOf(b, w, x, colB)
    ensures sR == Sample(colR, y + radius + 1) && sG == Sample(colG, y + radius + 1) && sB == Sample(colB, y + radius + 1)
  {
    sR, sG, sB := r[p], g[p], b[p];
  }

  /** One iteration of the sweep down a column (lines 337-380): the output
      pixel, `vmin[y]` in the first column, and the three channels' slide
      with the sample at row min(y + r1, hm). */
  method ColumnStep(pix: array<int>, w: int, h: int, x: int, y: int, yi: int, first: bool,
                    dv: array<int>, vmin: array<int>,
                    r: array<int>, g: array<int>, b: array<int>,
                    radius: int, sp: int,
                    ghost colR: seq<int>, ghost colG: seq<int>, ghost colB: seq<int>,
                    ghost target: seq<int>, ghost src: seq<int>,
                    stackR: seq<int>, stackG: seq<int>, stackB: seq<int>,
                    rsum: int, gsum: int, bsum: int, rinsum: int, ginsum: int, binsum: int,
                    routsum: int, goutsum: int, boutsum: int)
    returns (stackR': seq<int>, stackG': seq<int>, stackB': seq<int>,
             rsum': int, gsum': int, bsum': int, rinsum': int, ginsum': int, binsum': int,
             routsum': int, goutsum': int, boutsum': int)
    requires 1 <= w && 1 <= h && 1 <= radius && 0 <= x < w && 0 <= y < h && 0 <= sp < 2 * radius + 1
    requires yi == Index(w, y, x)
    requires |colR| == h && |colG| == h && |colB| == h
    requires Channels(colR) && Channels(colG) && Channels(colB)
    requires ColumnOf(r, w, x, colR) && ColumnOf(g, w, x, colG) && ColumnOf(b, w, x, colB)
    requires DivTable(dv, radius) && h <= vmin.Length
    requires pix != dv && pix != vmin && dv != vmin
    requires r != pix && g != pix && b != pix && r != vmin && g != vmin && b != vmin
    requires VerticalVmin(vmin, if first then y else h, w, h, radius)
    requires ColumnTarget(target, src, w, x, colR, colG, colB, radius)
    requires VerticalProgress(pix, w, x, y, target, src)
    requires |stackR| == 2 * radius + 1 && |stackG| == 2 * radius + 1 && |stackB| == 2 * radius + 1
    requires Window(colR, y, radius, rsum, rinsum, routsum) && Ring(stackR, sp, colR, y, radius)
    requires Window(colG, y, radius, gsum, ginsum, goutsum) && Ring(stackG, sp, colG, y, radius)
    requires Window(colB, y, radius, bsum, binsum, boutsum) && Ring(stackB, sp, colB, y, radius)
    modifies pix, vmin
    ensures VerticalVmin(vmin, if first then y + 1 else h, w, h, radius)
    ensures VerticalProgress(pix, w, x, y + 1, target, src)
    ensures |stackR'| == 2 * radius + 1 && |stackG'| == 2 * radius + 1 && |stackB'| == 2 * radius + 1
    ensures Window(colR, y + 1, radius, rsum', rinsum', routsum')
    ensures Window(colG, y + 1, radius, gsum', ginsum', goutsum')
    ensures Window(colB, y + 1, radius, bsum', binsum', boutsum')
    ensures Ring(stackR', Succ(sp, 2 * radius + 1), colR, y + 1, radius)
    ensures Ring(stackG', Succ(sp, 2 * radius + 1), colG, y + 1, radius)
    ensures Ring(stackB', Succ(sp, 2 * radius + 1), colB, y + 1, radius)
  {
    EmitPixel(pix, yi, w, x, y, dv, rsum, gsum, bsum, radius, colR, colG, colB, target, src);
    var p := NextRowIndex(vmin, w, h, x, y, radius, first);
    var sR, sG, sB := ReadSamples(r, g, b, p, w, h, x, y, radius, colR, colG, colB);
    stackR', rsum', rinsum', routsum' := SlideSample(stackR, radius, sp, sR, colR, y, rsum, rinsum, routsum);
    stackG', gsum', ginsum', goutsum' := SlideSample(stackG, radius, sp, sG, colG, y, gsum, ginsum, goutsum);
    stackB', bsum', binsum', boutsum' := SlideSample(stackB, radius, sp, sB, colB, y, bsum, binsum, boutsum);
  }

  /** One column of the vertical pass (lines 301-381): every pixel of
      column x receives its target, and the first column fills `vmin`. */
  method VerticalColumn(pix: array<int>, w: int, h: int, x: int, radius: int, first: bool,
                        dv: array<int>, vmin: array<int>,
                        r: array<int>, g: array<int>, b: array<int>,
                        ghost colR: seq<int>, ghost colG: seq<int>, ghost colB: seq<int>,
                        ghost target: seq<int>, ghost src: seq<int>)
    requires 1 <= w && 1 <= h && 1 <= radius && 0 <= x < w
    requires w * h < 0x8000_0000 && radius * w <= 0x8000_0000
    requires |colR| == h && |colG| == h && |colB| == h
    requires Channels(colR) && Channels(colG) && Channels(colB)
    requires ColumnOf(r, w, x, colR) && ColumnOf(g, w, x, colG) && ColumnOf(b, w, x, colB)
    requires DivTable(dv, radius) && h <= vmin.Length
    requires pix != dv && pix != vmin && dv != vmin
    requires r != pix && g != pix && b != pix && r != vmin && g != vmin && b != vmin
    requires !first ==> VerticalVmin(vmin, h, w, h, radius)
    requires ColumnTarget(target, src, w, x, colR, colG, colB, radius)
    requires VerticalProgress(pix, w, x, 0, target, src)
    modifies pix, vmin
    ensures VerticalVmin(vmin, h, w, h, radius)
    ensures VerticalProgress(pix, w, x, h, target, src)
  {
    var div := radius + radius + 1;
    var stackR, stackG, stackB, rsum, gsum, bsum, rinsum, ginsum, binsum, routsum, goutsum, boutsum :=
      LoadColumnWindow(r, g, b, x, w, h, radius, colR, colG, colB);
    var yi := x;
    var stackpointer := radius;
    var y := 0;
    while y < h
      invariant 0 <= y <= h && 0 <= stackpointer < div && yi == Index(w, y, x)
      invariant |stackR| == div && |stackG| == div && |stackB| == div
      invariant Window(colR, y, radius, rsum, rinsum, routsum)
      invariant Window(colG, y, radius, gsum, ginsum, goutsum)
      invariant Window(colB, y, radius, bsum, binsum, boutsum)
      invariant Ring(stackR, stackpointer, colR, y, radius)
      invariant Ring(stackG, stackpointer, colG, y, radius)
      invariant Ring(stackB, stackpointer, colB, y, radius)
      invariant VerticalProgress(pix, w, x, y, target, src)
      invariant VerticalVmin(vmin, if first then y else h, w, h, radius)
    {
      stackR, stackG, stackB, rsum, gsum, bsum, rinsum, ginsum, binsum, routsum, goutsum, boutsum :=
        ColumnStep(pix, w, h, x, y, yi, first, dv, vmin, r, g, b, radius, stackpointer, colR, colG, colB, target, src,
                   stackR, stackG, stackB, rsum, gsum, bsum, rinsum, ginsum, binsum, routsum, goutsum, boutsum);
      stackpointer := Succ(stackpointer, div);
      MulAddOne(y, w);
      yi := yi + w;
      y := y + 1;
    }
  }

  /** Column x of a plane held in an array, with its channel values. */
  lemma ColumnFacts(src: array<int>, plane: seq<int>, w: int, h: int, x: int)
    requires 0 <= x < w && 0 <= h && |plane| == w * h && src[..] == plane && Channels(plane)
    ensures ColumnOf(src, w, x, ColOf(plane, w, h, x)) && Channels(ColOf(plane, w, h, x))
  {
  }

  /** The target of every column of the vertical pass is BlurPixels. */
  lemma ColumnTargetAt(pixels: seq<int>, w: int, h: int, x: int, radius: nat)
    requires 1 <= w && 1 <= h && |pixels| == w * h && 0 <= x < w
    ensures ColumnTarget(BlurPixels(pixels, w, h, radius), pixels, w, x,
                         ColOf(HPass(Plane(pixels, 0), w, h, radius), w, h, x),
                         ColOf(HPass(Plane(pixels, 1), w, h, radius), w, h, x),
                         ColOf(HPass(Plane(pixels, 2), w, h, radius), w, h, x), radius)
  {
    var hR, hG, hB := HPass(Plane(pixels, 0), w, h, radius), HPass(Plane(pixels, 1), w, h, radius), HPass(Plane(pixels, 2), w, h, radius);
    forall y | 0 <= y < h
      ensures 0 <= Index(w, y, x) < w * h
      ensures BlurPixels(pixels, w, h, radius)[Index(w, y, x)]
           == Pack(Alpha(pixels[Index(w, y, x)]), BlurAt(ColOf(hR, w, h, x), y, radius),
                   BlurAt(ColOf(hG, w, h, x), y, radius), BlurAt(ColOf(hB, w, h, x), y, radius))
    {
      VPassAt(hR, w, h, radius, y, x);
      VPassAt(hG, w, h, radius, y, x);
      VPassAt(hB, w, h, radius, y, x);
    }
  }

  /** A finished column hands over to the next one. */
  lemma NextColumn(pix: array<int>, w: int, h: int, x: int, target: seq<int>, src: seq<int>)
    requires 1 <= w && 0 <= h && pix.Length == w * h
    requires VerticalProgress(pix, w, x, h, target, src)
    ensures VerticalProgress(pix, w, x + 1, 0, target, src)
  {
    forall q | 0 <= q < pix.Length
      ensures q / w < h
    {
      PixelOf(w, h, q);
    }
  }

  /** Before the first column nothing is finished. */
  lemma ProgressStart(pix: array<int>, w: int, target: seq<int>, src: seq<int>)
    requires 1 <= w && pix[..] == src && |target| == pix.Length
    ensures VerticalProgress(pix, w, 0, 0, target, src)
  {
    forall q | 0 <= q < pix.Length
      ensures pix[q] == src[q] && 0 <= q / w
    {
    }
  }

  /** Once every column is finished, the whole array is the target. */
  lemma ProgressFull(pix: array<int>, w: int, target: seq<int>, src: seq<int>)
    requires 1 <= w && VerticalProgress(pix, w, w, 0, target, src)
    ensures pix[..] == target
  {
  }

  /** Column x of the vertical pass, its arguments derived from the input
      pixels and the horizontal pass. */
  method VerticalPassColumn(pix: array<int>, w: int, h: int, x: int, radius: int,
                            dv: array<int>, vmin: array<int>,
                            r: array<int>, g: array<int>, b: array<int>,
                            ghost pixels: seq<int>, ghost hR: seq<int>, ghost hG: seq<int>, ghost hB: seq<int>)
    requires 1 <= w && 1 <= h && 1 <= radius && 0 <= x < w
    requires w * h < 0x8000_0000 && radius * w <= 0x8000_0000
    requires pix.Length == w * h && |pixels| == w * h
    requires hR == HPass(Plane(pixels, 0), w, h, radius) && r[..] == hR
    requires hG == HPass(Plane(pixels, 1), w, h, radius) && g[..] == hG
    requires hB == HPass(Plane(pixels, 2), w, h, radius) && b[..] == hB
    requires DivTable(dv, radius) && h <= vmin.Length
    requires pix != dv && pix != vmin && dv != vmin
    requires r != pix && g != pix && b != pix && r != vmin && g != vmin && b != vmin
    requires x > 0 ==> VerticalVmin(vmin, h, w, h, radius)
    requires VerticalProgress(pix, w, x, 0, BlurPixels(pixels, w, h, radius), pixels)
    modifies pix, vmin
    ensures VerticalVmin(vmin, h, w, h, radius)
    ensures VerticalProgress(pix, w, x + 1, 0, BlurPixels(pixels, w, h, radius), pixels)
  {
    ghost var colR, colG, colB := ColOf(hR, w, h, x), ColOf(hG, w, h, x), ColOf(hB, w, h, x);
    PlaneChannels(pixels, 0);
    PlaneChannels(pixels, 1);
    PlaneChannels(pixels, 2);
    HPassChannels(Plane(pixels, 0), w, h, radius);
    HPassChannels(Plane(pixels, 1), w, h, radius);
    HPassChannels(Plane(pixels, 2), w, h, radius);
    ColumnFacts(r, hR, w, h, x);
    ColumnFacts(g, hG, w, h, x);
    ColumnFacts(b, hB, w, h, x);
    ColumnTargetAt(pixels, w, h, x, radius);
    VerticalColumn(pix, w, h, x, radius, x == 0, dv, vmin, r, g, b, colR, colG, colB,
                   BlurPixels(pixels, w, h, radius), pixels);
    NextColumn(pix, w, h, x, BlurPixels(pixels, w, h, radius), pixels);
  }

  /** The vertical pass (lines 298-382): the blurred channels of `r`, `g`,
      `b` packed back into `pix` beside each pixel's own alpha. */
  method VerticalPass(pix: array<int>, w: int, h: int, radius: int,
                      dv: array<int>, vmin: array<int>,
                      r: array<int>, g: array<int>, b: array<int>, ghost pixels: seq<int>)
    requires 1 <= w && 1 <= h && 1 <= radius
    requires w * h < 0x8000_0000 && radius * w <= 0x8000_0000
    requires pix.Length == w * h && pix[..] == pixels
    requires r[..] == HPass(Plane(pixels, 0), w, h, radius)
    requires g[..] == HPass(Plane(pixels, 1), w, h, radius)
    requires b[..] == HPass(Plane(pixels, 2), w, h, radius)
    requires DivTable(dv, radius) && h <= vmin.Length
    requires pix != dv && pix != vmin && dv != vmin
    requires r != pix && g != pix && b != pix && r != vmin && g != vmin && b != vmin
    modifies pix, vmin
    ensures pix[..] == BlurPixels(pixels, w, h, radius)
  {
    ghost var hR, hG, hB := HPass(Plane(pixels, 0), w, h, radius), HPass(Plane(pixels, 1), w, h, radius), HPass(Plane(pixels, 2), w, h, radius);
    ProgressStart(pix, w, BlurPixels(pixels, w, h, radius), pixels);
    var x := 0;
    while x < w
      invariant 0 <= x <= w
      invariant r[..] == hR && g[..] == hG && b[..] == hB
      invariant x > 0 ==> VerticalVmin(vmin, h, w, h, radius)
      invariant VerticalProgress(pix, w, x, 0, BlurPixels(pixels, w, h, radius), pixels)
    {
      VerticalPassColumn(pix, w, h, x, radius, dv, vmin, r, g, b, pixels, hR, hG, hB);
      x := x + 1;
    }
    ProgressFull(pix, w, BlurPixels(pixels, w, h, radius), pixels);
  }

  /** The index arithmetic of the set-up loop of column x (lines 305-333)
      in 32-bit `Int`: true when every `r[yi]`, `g[yi]`, `b[yi]` it reads
      is inside arrays of wh entries. */
  method ProbeColumn(wh: int, w: int, hm: int, radius: int, x: int) returns (ok: bool)
    requires 1 <= radius
    ensures ok <==> ColumnReadable(w, hm, radius, wh, x)
  {
    var yp2 := Wrap(-radius * w);
    var i := -radius;
    while i <= radius
      invariant -radius <= i <= radius + 1 && yp2 == Wrap(Max(-radius, Min(i, hm)) * w)
      invariant forall i' :: -radius <= i' < i ==> 0 <= SetupIndex(w, hm, radius, x, i') < wh
    {
      var yi := Wrap(Max(0, yp2) + x);
      if !(0 <= yi < wh) {
        assert !(0 <= SetupIndex(w, hm, radius, x, i) < wh);
        return false;
      }
      if i < hm {
        SetupStep(w, hm, radius, i, yp2);
        yp2 := Wrap(yp2 + w);
      }
      i := i + 1;
    }
    return true;
  }

  /** The set-up loops of all w columns, in order: true when none of them
      reads outside the arrays. */
  method ProbeColumns(wh: int, w: int, hm: int, radius: int) returns (ok: bool)
    requires 1 <= radius
    ensures ok <==> ColumnsReadable(w, hm, radius, wh)
  {
    var x := 0;
    while x < w
      invariant 0 <= x && (w <= x ==> x <= Max(w, 0))
      invariant forall x' :: 0 <= x' < x ==> ColumnReadable(w, hm, radius, wh, x')
    {
      ok := ProbeColumn(wh, w, hm, radius, x);
      if !ok {
        return false;
      }
      x := x + 1;
    }
    return true;
  }

  // ---------------------------------------------------------------------
  // Unpacking, the division table, repacking, and the whole kernel
  // ---------------------------------------------------------------------

  /** The first loop (lines 157-171): four bytes per pixel into one
      `0xAARRGGBB` int, for each of the wh pixels; false when a read of
      `input[bi + 0]` is past the end. */
  method UnpackPixels(input: array<Byte>, wh: int) returns (pix: array<int>, ok: bool)
    requires 0 <= wh && input.Length % 4 == 0 && input.Length <= 4 * wh
    ensures fresh(pix) && pix.Length == wh
    ensures ok <==> input.Length == 4 * wh
    ensures ok ==> pix[..] == Packed(input[..])
  {
    ghost var pixels := Packed(input[..]);
    pix := new int[wh];
    var bi := 0;
    var pi := 0;
    while pi < wh
      invariant 0 <= pi <= wh && bi == 4 * pi <= input.Length
      invariant forall q :: 0 <= q < pi ==> pix[q] == pixels[q]
    {
      if bi >= input.Length {
        return pix, false;
      }
      var a := input[bi + 0];
      var r := input[bi + 1];
      var g := input[bi + 2];
      var b := input[bi + 3];
      pix[pi] := Pack(a, r, g, b);
      bi := bi + 4;
      pi := pi + 1;
    }
    return pix, true;
  }

  /** `dv = IntArray(256 * divsumSq) { k / divsumSq }` (lines 193-199). */
  method MakeDivTable(radius: int) returns (dv: array<int>)
    requires 1 <= radius
    ensures fresh(dv) && DivTable(dv, radius)
  {
    var div := radius + radius + 1;
    var divsum := (div + 1) / 2;
    var divsumSq := divsum * divsum;
    dv := new int[256 * divsumSq];
    var k := 0;
    while k < dv.Length
      invariant 0 <= k <= dv.Length
      invariant forall k' :: 0 <= k' < k ==> dv[k'] == k' / divsumSq
    {
      dv[k] := k / divsumSq;
      k := k + 1;
    }
  }

  /** The last loop (lines 384-399): a copy of the input whose bytes are
      overwritten, pixel by pixel, with A, R, G, B of `pix`. */
  method RepackBytes(input: array<Byte>, pix: array<int>) returns (out: array<Byte>)
    requires input.Length == 4 * pix.Length
    ensures fresh(out) && out[..] == Unpacked(pix[..])
  {
    out := new Byte[input.Length];
    forall k | 0 <= k < input.Length {
      out[k] := input[k];
    }
    var pi := 0;
    var bi := 0;
    while pi < pix.Length
      invariant 0 <= pi <= pix.Length && bi == 4 * pi
      invariant forall q, i :: 0 <= q < pi && 0 <= i < 4 ==> out[4 * q + i] == ByteOf(pix[q], i)
    {
      var argb := pix[pi];
      out[bi + 0] := Alpha(argb);
      out[bi + 1] := Channel(argb, 0);
      out[bi + 2] := Channel(argb, 1);
      out[bi + 3] := Channel(argb, 2);
      bi := bi + 4;
      pi := pi + 1;
    }
    forall k | 0 <= k < out.Length
      ensures out[k] == Unpacked(pix[..])[k]
    {
      assert out[4 * (k / 4) + k % 4] == ByteOf(pix[k / 4], k % 4);
    }
  }

  /** Lines 173-399 for an image of at least one row whose sizes fit an
      `Int`: the intermediate arrays, `vmin` and `dv`, both passes, and the
      repacked bytes; IndexOutOfBounds when the vertical set-up reads past
      the arrays. */
  method BlurRows(input: array<Byte>, pix: array<int>, w: int, h: int, radius: int)
    returns (res: Result<seq<Byte>>)
    requires 1 <= radius <= MaxRadius && 1 <= w && 1 <= h
    requires input.Length == w * h * 4 < 0x8000_0000
    requires pix.Length == w * h && pix[..] == Packed(input[..])
    modifies pix
    ensures res == if radius * w <= 0x8000_0000 then Ok(BlurBytes(input[..], w, h, radius)) else Err(IndexOutOfBounds)
  {
    var wh := w * h;
    var hm := h - 1;
    var r := new int[wh];
    var g := new int[wh];
    var b := new int[wh];
    var vmin := new int[Max(w, h)];
    var dv := MakeDivTable(radius);
    ghost var pixels := pix[..];
    HorizontalPass(pix, w, h, radius, dv, vmin, r, g, b, pixels);
    var readable := ProbeColumns(wh, w, hm, radius);
    ColumnsReadableIff(w, h, radius);
    if !readable {
      return Err(IndexOutOfBounds);
    }
    VerticalPass(pix, w, h, radius, dv, vmin, r, g, b, pixels);
    var out := RepackBytes(input, pix);
    return Ok(out[..]);
  }

  /** `stackBlurRawArgb(input, width, height, radius)` (lines 144-400): the
      blurred buffer, or the exception the code throws. Every `Int` product
      and sum is taken modulo 2^32. The set-up reads of the vertical pass
      are checked for every column before the first column is written: an
      exception there discards the pixels written before it, so the result
      is the same. */
  method StackBlurRawArgb(input: array<Byte>, width: int, height: int, radius: int)
    returns (res: Result<seq<Byte>>)
    requires radius <= MaxRadius
    ensures res == StackBlur(input[..], width, height, radius)
  {
    if radius < 1 || input.Length != Wrap(width * height * 4) {
      return Err(IllegalArgument);
    }
    var w, h := width, height;
    var wh := Wrap(w * h);
    if wh < 0 {
      // pix = IntArray(wh)
      return Err(NegativeArraySize);
    }
    WrapTimesFour(w * h, input.Length);
    var pix, unpacked := UnpackPixels(input, wh);
    if !unpacked {
      return Err(IndexOutOfBounds);
    }
    if Max(w, h) < 0 {
      // vmin = IntArray(max(w, h)), after r, g, b = IntArray(wh)
      return Err(NegativeArraySize);
    }
    if 1 <= h {
      if w <= 0 || w * h != wh {
        // w <= 0: the first row's set-up reads pix[min(wm, 0)], at a
        // negative index or (w == -2^31, wh == 0) in an empty array;
        // a wrapped w * h: the writes r[yi], yi = 0, 1, 2, ..., reach wh
        // before the last row
        return Err(IndexOutOfBounds);
      }
      res := BlurRows(input, pix, w, h, radius);
      return;
    }
    if 1 <= w {
      // no row is written; each column's set-up still reads r, g, b
      var readable := ProbeColumns(wh, w, Wrap(h - 1), radius);
      if !readable {
        return Err(IndexOutOfBounds);
      }
    }
    var out := RepackBytes(input, pix);
    UnpackPacked(input[..]);
    return Ok(out[..]);
  }
}
