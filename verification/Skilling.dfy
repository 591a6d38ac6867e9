/** contribs/skilling.c: the two transforms that work in place on an array of n words of
    b bits, proved to follow the recursive Hilbert curve, and what the curve promises
    about the node order computed from them. */
module Skilling {
  import opened Bits
  import opened HilbertCurve
  import opened HilbertWords

  /** The grid point of Hilbert integer h on the curve of order b in n dimensions. */
  function HilbertPoint(h: nat, b: nat, n: nat): (x: Point)
    requires n >= 1
    ensures |x| == n && InCube(x, Pow2(b))
  {
    CurvePoint(h, b, n, false)
  }

  /** The Hilbert integer of grid point x. */
  function HilbertIndex(x: Point, b: nat): nat
    requires |x| >= 1 && InCube(x, Pow2(b))
  {
    CurveIndex(x, b, false)
  }

  // ----- the transforms

  /** Turns transposed words into axes: the point on the curve at their packed integer. */
  method TransposeToAxes(x: array<nat>, b: nat)
    requires x.Length >= 1 && b >= 1 && InCube(x[..], Pow2(b))
    modifies x
    ensures x[..] == HilbertPoint(Interleave(old(x[..]), b), b, x.Length)
  {
    hide Interleave, HilbertPoint, GrayDecode, Redo, WordsDown, Pow2;
    var n := x.Length;
    ghost var start := x[..];
    GrayDecodeInPlace(x);
    ghost var y := x[..];

    // Undo excess work.
    Pow2Next(0);
    Pow2Next(b - 1);
    var m := 2 * Pow2(b - 1);
    var q := 2;
    ghost var k := 1;
    while q != m
      invariant 1 <= k <= b && q == Pow2(k) && Redo(x[..], k, b) == Redo(y, 1, b)
      decreases b - k
    {
      RedoStage(x[..], k, b);
      StageDown(x, q, k);
      Pow2Next(k);
      q := 2 * q;
      k := k + 1;
    }
    Pow2Injective(k, b);
    RedoEnd(x[..], b);
    AxesMeaning(start, b);
  }

  lemma Pow2Next(k: nat)
    ensures Pow2(k + 1) == 2 * Pow2(k) && Pow2(0) == 1
  {
  }

  /** Decoding and all descending stages follow the curve to the packed integer. */
  lemma AxesMeaning(x: Point, b: nat)
    requires |x| >= 1 && b >= 1 && InCube(x, Pow2(b))
    ensures Redo(GrayDecode(x), 1, b) == HilbertPoint(Interleave(x, b), b, |x|)
  {
    hide Interleave, GrayDecode, Redo, Rebuild, CurvePoint, Pow2, Bit;
    GrayDecodeRange(x, b);
    RedoIsRebuild(GrayDecode(x), b);
    RebuildIsCurve(x, b);
    BitAbove(x[|x| - 1], b, b);
  }

  lemma {:induction false} Pow2Injective(a: nat, b: nat)
    requires Pow2(a) == Pow2(b)
    ensures a == b
    decreases a
  {
    if a > 0 && b > 0 { Pow2Injective(a - 1, b - 1); }
  }

  /** Lines 46-49. */
  method GrayDecodeInPlace(x: array<nat>)
    requires x.Length >= 1
    modifies x
    ensures x[..] == GrayDecode(old(x[..]))
  {
    hide Xor, Shr, GrayDecode, Before;
    var n := x.Length;
    ghost var start := x[..];
    var t := Shr(x[n - 1], 1);
    var i := n - 1;
    while i != 0
      invariant 0 <= i < n
      invariant forall j :: 0 <= j <= i ==> x[j] == start[j]
      invariant forall j :: i < j < n ==> x[j] == Xor(start[j], Before(start, j))
    {
      BeforeIs(start, i);
      x[i] := Xor(x[i], x[i - 1]);
      i := i - 1;
    }
    BeforeIs(start, 0);
    x[0] := Xor(x[0], t);
  }

  lemma BeforeIs(x: Point, i: nat)
    requires i < |x|
    ensures Before(x, i) == if i == 0 then Shr(x[|x| - 1], 1) else x[i - 1]
  {
  }

  /** Lines 55-59: the descending steps of one Q. */
  method StageDown(x: array<nat>, q: nat, ghost k: nat)
    requires x.Length >= 1 && q == Pow2(k)
    modifies x
    ensures x[..] == WordsDown(old(x[..]), k, x.Length)
  {
    hide Xor, And, Pow2, WordStep;
    var n := x.Length;
    ghost var start := x[..];
    var p := q - 1;
    var i := n - 1;
    while i != 0
      invariant 0 <= i < n
      invariant WordsDown(x[..], k, i + 1) == WordsDown(start, k, n)
    {
      ghost var before := x[..];
      if And(x[i], q) != 0 {
        x[0] := Xor(x[0], p);
      } else {
        var t := And(Xor(x[0], x[i]), p);
        x[0] := Xor(x[0], t);
        x[i] := Xor(x[i], t);
      }
      FoldWordStep(before, x[..], k, i);
      i := i - 1;
    }
    ghost var before := x[..];
    if And(x[0], q) != 0 {
      x[0] := Xor(x[0], p);
    }
    FoldFirstStep(before, x[..], k);
    assert WordsDown(before, k, 1) == WordsDown(WordStep(before, k, 0), k, 0);
  }

  lemma FoldWordStep(x: Point, y: Point, k: nat, i: nat)
    requires 0 < i < |x|
    requires
      if And(x[i], Pow2(k)) != 0 then y == x[0 := Xor(x[0], Pow2(k) - 1)]
      else y == x[0 := Xor(x[0], And(Xor(x[0], x[i]), Pow2(k) - 1))][i := Xor(x[i], And(Xor(x[0], x[i]), Pow2(k) - 1))]
    ensures y == WordStep(x, k, i)
  {
  }

  lemma FoldFirstStep(x: Point, y: Point, k: nat)
    requires |x| > 0
    requires y == if And(x[0], Pow2(k)) != 0 then x[0 := Xor(x[0], Pow2(k) - 1)] else x
    ensures y == WordStep(x, k, 0)
  {
    hide Pow2, Xor, And;
    XorSelf(x[0]);
    AndMask(0, k);
    ShrZero(k);
    XorZero(x[0]);
  }

  /** Turns axes into transposed words: those of the Hilbert integer of the point. */
  method AxesToTranspose(x: array<nat>, b: nat)
    requires x.Length >= 1 && b >= 1 && InCube(x[..], Pow2(b))
    modifies x
    ensures InCube(x[..], Pow2(b))
    ensures Interleave(x[..], b) == HilbertIndex(old(x[..]), b)
    ensures x[..] == Deinterleave(HilbertIndex(old(x[..]), b), b, x.Length)
  {
    hide Xor, And, WordStep, Interleave, Deinterleave, Low, Shr, GrayEncode, Redo, WordsUp;
    var n := x.Length;
    ghost var start := x[..];

    // Inverse undo.
    var q := Pow2(b - 1);
    ghost var k := b - 1;
    RedoEnd(start, b);
    while q > 1
      invariant 0 <= k < b && q == Pow2(k) && InCube(x[..], Pow2(b)) && Redo(x[..], k + 1, b) == start
      decreases k
    {
      ghost var before := x[..];
      StageUp(x, q, k);
      WordsUpHigh(before, k, n);
      SameHighRange(before, x[..], k, b);
      WordsDownUp(before, k, n);
      RedoStage(x[..], k, b);
      q := q / 2;
      k := k - 1;
    }
    Pow2Injective(k, 0);

    ghost var y := x[..];
    GrayEncodeInPlace(x, b);
    GrayEncodeRange(y, b);
    TransposeMeaning(x[..], y, start, b);
  }

  lemma RedoEnd(x: Point, b: nat)
    ensures Redo(x, b, b) == x
  {
  }

  lemma RedoStage(x: Point, k: nat, b: nat)
    requires k < b
    ensures Redo(x, k, b) == Redo(WordsDown(x, k, |x|), k + 1, b)
  {
  }

  /** Words whose decoded form rebuilds a point are the words of its Hilbert integer. */
  lemma TransposeMeaning(z: Point, y: Point, x: Point, b: nat)
    requires b >= 1 && |x| == |y| == |z| >= 1 && InCube(x, Pow2(b)) && InCube(y, Pow2(b))
    requires z == GrayEncode(y, b) && InCube(z, Pow2(b)) && Redo(y, 1, b) == x
    ensures Interleave(z, b) == HilbertIndex(x, b)
    ensures z == Deinterleave(HilbertIndex(x, b), b, |x|)
  {
    hide Interleave, Deinterleave, Low, Shr, Bit, Redo;
    hide Rebuild, GrayEncode, GrayDecode, CurvePoint, CurveIndex, Pow2, Span;
    GrayDecodeEncode(y, b);
    RedoIsRebuild(y, b);
    RebuildIsCurve(z, b);
    BitAbove(z[|z| - 1], b, b);
    IndexOfPoint(Interleave(z, b), b, |x|, false);
    InterleaveBound(z, b);
    LowSmall(Interleave(z, b), Span(|x|, b));
    DeinterleaveInterleave(z, b);
  }

  /** Lines 73-77: the ascending steps of one Q. */
  method StageUp(x: array<nat>, q: nat, ghost k: nat)
    requires x.Length >= 1 && q == Pow2(k)
    modifies x
    ensures x[..] == WordsUp(old(x[..]), k, x.Length)
  {
    hide Xor, And, Pow2, WordStep;
    var n := x.Length;
    ghost var start := x[..];
    var p := q - 1;
    if And(x[0], q) != 0 {
      x[0] := Xor(x[0], p);
    }
    FoldFirstStep(start, x[..], k);
    assert WordsUp(start, k, 1) == WordStep(WordsUp(start, k, 0), k, 0);
    var i := 1;
    while i < n
      invariant 1 <= i <= n
      invariant x[..] == WordsUp(start, k, i)
    {
      ghost var before := x[..];
      if And(x[i], q) != 0 {
        x[0] := Xor(x[0], p);
      } else {
        var t := And(Xor(x[0], x[i]), p);
        x[0] := Xor(x[0], t);
        x[i] := Xor(x[i], t);
      }
      FoldWordStep(before, x[..], k, i);
      i := i + 1;
    }
  }

  /** Lines 81-88. */
  method GrayEncodeInPlace(x: array<nat>, b: nat)
    requires x.Length >= 1 && InCube(x[..], Pow2(b))
    modifies x
    ensures x[..] == GrayEncode(old(x[..]), b)
  {
    hide Xor, Shr, XorOfShifts, PrefixXor, GrayEncode, Pow2;
    var n := x.Length;
    ghost var y := x[..];
    PrefixXorUnfold(y, 0);
    var i := 1;
    while i < n
      invariant 1 <= i <= n
      invariant forall j :: 0 <= j < i ==> x[j] == PrefixXor(y, j)
      invariant forall j :: i <= j < n ==> x[j] == y[j]
    {
      PrefixXorUnfold(y, i);
      x[i] := Xor(x[i], x[i - 1]);
      i := i + 1;
    }
    var t := x[n - 1];
    PrefixXorRange(y, n - 1, b);
    label Collect:
    CollectShifts(x, b);
    assert forall j :: 0 <= j < n - 1 ==> x[j] == x[..][j] == old@Collect(x[j]);
    t := Xor(t, x[n - 1]);
    i := n - 2;
    while i >= 0
      invariant -1 <= i <= n - 2
      invariant x[n - 1] == XorOfShifts(PrefixXor(y, n - 1), b)
      invariant forall j :: 0 <= j <= i ==> x[j] == PrefixXor(y, j)
      invariant forall j :: i < j < n - 1 ==> x[j] == Xor(PrefixXor(y, j), t)
      decreases i + 1
    {
      x[i] := Xor(x[i], t);
      i := i - 1;
    }
    GrayEncodeIs(y, x[..], b);
  }

  lemma GrayEncodeIs(y: Point, x: Point, b: nat)
    requires |x| == |y| >= 1
    requires x[|x| - 1] == XorOfShifts(PrefixXor(y, |y| - 1), b)
    requires var t := Xor(PrefixXor(y, |y| - 1), x[|x| - 1]);
             forall j :: 0 <= j < |x| - 1 ==> x[j] == Xor(PrefixXor(y, j), t)
    ensures x == GrayEncode(y, b)
  {
    hide Xor, XorOfShifts, PrefixXor;
  }

  /** Lines 84-85: the doubling loop collects all b shifts of the last word, and the
      result has that word as its Gray code. */
  method CollectShifts(x: array<nat>, b: nat)
    requires x.Length >= 1 && x[x.Length - 1] < Pow2(b)
    modifies x
    ensures x[..] == old(x[..])[x.Length - 1 := XorOfShifts(old(x[x.Length - 1]), b)]
    ensures Xor(x[x.Length - 1], Shr(x[x.Length - 1], 1)) == old(x[x.Length - 1])
  {
    hide Xor, Shr, Pow2;
    var n := x.Length;
    ghost var w := x[n - 1];
    var i := 1;
    OneShift(w);
    while i < b
      invariant i >= 1
      invariant x[..] == old(x[..])[n - 1 := XorOfShifts(w, i)]
    {
      XorOfShiftsDouble(w, i);
      x[n - 1] := Xor(x[n - 1], Shr(x[n - 1], i));
      i := 2 * i;
    }
    if b == 0 { ZeroWord(w); }
    XorOfShiftsWide(w, b, i);
    GrayWordInverse(w, b);
  }

  lemma OneShift(w: nat)
    ensures XorOfShifts(w, 1) == w
  {
    XorZero(w);
  }

  lemma ZeroWord(w: nat)
    requires w < Pow2(0)
    ensures w == 0 && XorOfShifts(w, 0) == 0
  {
  }

  // ----- the two transforms undo each other

  method AxesRoundTrip(x: array<nat>, b: nat)
    requires x.Length >= 1 && b >= 1 && InCube(x[..], Pow2(b))
    modifies x
    ensures x[..] == old(x[..])
  {
    hide Interleave, Deinterleave, CurvePoint, CurveIndex, Pow2;
    AxesToTranspose(x, b);
    TransposeToAxes(x, b);
    PointOfIndex(old(x[..]), b, false);
  }

  method TransposeRoundTrip(x: array<nat>, b: nat)
    requires x.Length >= 1 && b >= 1 && InCube(x[..], Pow2(b))
    modifies x
    ensures x[..] == old(x[..])
  {
    hide Interleave, Deinterleave, CurvePoint, CurveIndex, Pow2, Low, Span;
    ghost var h := Interleave(x[..], b);
    TransposeToAxes(x, b);
    AxesToTranspose(x, b);
    IndexOfPoint(h, b, x.Length, false);
    InterleaveBound(old(x[..]), b);
    LowSmall(h, Span(x.Length, b));
    InterleaveInjective(old(x[..]), x[..], b);
  }

  // ----- what the curve promises

  /** Points and integers below 2^(n*b) correspond one to one. */
  lemma HilbertBijection(h: nat, x: Point, b: nat)
    requires |x| >= 1 && InCube(x, Pow2(b)) && h < Pow2(|x| * b)
    ensures HilbertIndex(HilbertPoint(h, b, |x|), b) == h
    ensures HilbertIndex(x, b) < Pow2(|x| * b) && HilbertPoint(HilbertIndex(x, b), b, |x|) == x
  {
    hide CurvePoint, CurveIndex, Pow2, Low, Span;
    SpanIsProduct(|x|, b);
    IndexOfPoint(h, b, |x|, false);
    LowSmall(h, |x| * b);
    IndexBound(x, b, false);
    PointOfIndex(x, b, false);
  }

  /** Consecutive integers belong to points that differ in exactly one coordinate, by 1. */
  lemma HilbertAdjacency(h: nat, b: nat, n: nat) returns (i: nat)
    requires n >= 1 && h + 1 < Pow2(n * b)
    ensures AdjacentAt(HilbertPoint(h, b, n), HilbertPoint(h + 1, b, n), i)
  {
    hide CurvePoint, Pow2, Low, Span, AdjacentAt;
    SpanIsProduct(n, b);
    LowSmall(h, n * b);
    i := CurveAdjacent(h, b, n, false);
  }

  /** The curve starts at the origin and ends at (2^b - 1, 0, ..., 0). */
  lemma HilbertEnds(b: nat, n: nat)
    requires n >= 1
    ensures HilbertPoint(0, b, n) == seq(n, _ => 0)
    ensures HilbertPoint(Pow2(n * b) - 1, b, n) == [Pow2(b) - 1] + seq(n - 1, _ => 0)
  {
    hide CurvePoint, Pow2, Low, Span;
    SpanIsProduct(n, b);
    ShrZero(n * b);
    LowSmall(Pow2(n * b) - 1, n * b);
    CurveEnds(0, b, n, false);
    CurveEnds(Pow2(n * b) - 1, b, n, false);
  }

  /** Nodes with near Hilbert numbers are physically near: the L1 distance of two points
      is at most the difference of their integers. */
  lemma {:induction false} HilbertLocality(h: nat, l: nat, b: nat, n: nat)
    requires n >= 1 && h <= l < Pow2(n * b)
    ensures Distance(HilbertPoint(h, b, n), HilbertPoint(l, b, n)) <= l - h
    decreases l - h
  {
    hide CurvePoint, Pow2, Distance, AdjacentAt, HilbertPoint;
    if h == l {
      DistanceSelf(HilbertPoint(h, b, n));
    } else {
      var i := HilbertAdjacency(h, b, n);
      DistanceAdjacent(HilbertPoint(h, b, n), HilbertPoint(h + 1, b, n), i);
      HilbertLocality(h + 1, l, b, n);
      DistanceTriangle(HilbertPoint(h, b, n), HilbertPoint(h + 1, b, n), HilbertPoint(l, b, n));
    }
  }

  /** Dropping the low m bits of every axis drops the low n * m bits of the integer, and
      the low m bits of every transposed word. */
  lemma HilbertCoarse(x: Point, j: nat, m: nat)
    requires |x| >= 1 && InCube(x, Pow2(j + m))
    ensures InCube(Coarse(x, m), Pow2(j))
    ensures HilbertIndex(Coarse(x, m), j) == Shr(HilbertIndex(x, j + m), |x| * m)
    ensures Deinterleave(HilbertIndex(Coarse(x, m), j), j, |x|) ==
            Coarse(Deinterleave(HilbertIndex(x, j + m), j + m, |x|), m)
  {
    hide CurveIndex, Pow2, Shr, Span, Coarse, Deinterleave;
    SpanIsProduct(|x|, m);
    CoarseCube(x, j, m);
    CurveIndexCoarse(x, j, m, false);
    CoarseDeinterleave(HilbertIndex(x, j + m), j, m, |x|);
  }

  /** An aligned cube of side 2^m is one contiguous block of 2^(n*m) Hilbert integers:
      x lies in cell q exactly when its integer lies in the block of q. */
  lemma HilbertBlock(x: Point, q: Point, j: nat, m: nat)
    requires |x| == |q| >= 1 && InCube(x, Pow2(j + m)) && InCube(q, Pow2(j))
    ensures Coarse(x, m) == q <==>
      HilbertIndex(q, j) * Pow2(|x| * m) <= HilbertIndex(x, j + m) < (HilbertIndex(q, j) + 1) * Pow2(|x| * m)
  {
    hide CurveIndex, CurvePoint, Pow2, Shr, Low, Glue, Coarse, Deinterleave;
    HilbertCoarse(x, j, m);
    BlockOf(HilbertIndex(x, j + m), HilbertIndex(q, j), |x| * m);
    PointOfIndex(q, j, false);
    PointOfIndex(Coarse(x, m), j, false);
  }

  lemma BlockOf(h: nat, d: nat, k: nat)
    ensures Shr(h, k) == d <==> d * Pow2(k) <= h < (d + 1) * Pow2(k)
  {
    hide Pow2, Shr, Low, Glue;
    var s, p := Shr(h, k), Pow2(k);
    SplitWord(h, k);
    GlueValue(s, h, k);
    MulNext(s, d, p);
    MulNext(d, s, p);
    MulNext(d, d + 1, p);
    assert (d + 1) * p == d * p + p;
  }

  lemma {:induction false} MulNext(a: nat, c: nat, p: nat)
    requires p > 0
    ensures a < c ==> a * p + p <= c * p
    decreases c
  {
    if a < c {
      assert c * p == (c - 1) * p + p;
      MulNext(a, c - 1, p);
    }
  }
}
