/** The steps of contribs/skilling.c as functions on sequences of machine words, tied to
    the recursive curve of module HilbertCurve: the packing of transposed words into one
    Hilbert integer, the Gray stages, and the exchange-or-complement stages. */
module HilbertWords {
  import opened Bits
  import opened HilbertCurve

  // ----- packing transposed words into one integer

  /** Bit k of every word, dimension 0 first. */
  function Column(x: Point, k: nat): (g: seq<bool>)
    ensures |g| == |x| && forall i :: 0 <= i < |x| ==> g[i] == Bit(x[i], k)
  {
    seq(|x|, i requires 0 <= i < |x| => Bit(x[i], k))
  }

  /** The digit that a column spells, most significant bit first. */
  function ColumnValue(g: seq<bool>): nat {
    if |g| == 0 then 0 else Glue(ToNat(g[0]), ColumnValue(g[1..]), |g| - 1)
  }

  /** The integer packed from the low b bits of the words, one column per level. */
  function Interleave(x: Point, b: nat): nat {
    if b == 0 then 0 else Glue(ColumnValue(Column(x, b - 1)), Interleave(x, b - 1), Span(|x|, b - 1))
  }

  lemma {:induction false} ColumnValueBit(g: seq<bool>, i: nat)
    requires i < |g|
    ensures Bit(ColumnValue(g), |g| - 1 - i) == g[i]
    decreases |g|
  {
    var n := |g|;
    BitGlue(ToNat(g[0]), ColumnValue(g[1..]), n - 1, n - 1 - i);
    if i > 0 { ColumnValueBit(g[1..], i - 1); }
  }

  lemma {:induction false} ColumnValueBound(g: seq<bool>)
    ensures ColumnValue(g) < Pow2(|g|)
  {
    if |g| > 0 { GlueBound(ToNat(g[0]), ColumnValue(g[1..]), |g| - 1, 1); }
  }

  lemma {:induction false} InterleaveBound(x: Point, b: nat)
    ensures Interleave(x, b) < Pow2(Span(|x|, b))
  {
    if b > 0 {
      ColumnValueBound(Column(x, b - 1));
      GlueBound(ColumnValue(Column(x, b - 1)), Interleave(x, b - 1), Span(|x|, b - 1), |x|);
    }
  }

  /** Bit k of word i is bit k * n + (n - 1 - i) of the packed integer. */
  lemma {:induction false} InterleaveBit(x: Point, b: nat, k: nat, i: nat)
    requires k < b && i < |x|
    ensures Bit(Interleave(x, b), Span(|x|, k) + (|x| - 1 - i)) == Bit(x[i], k)
    decreases b
  {
    var n := |x|;
    var j := Span(n, k) + (n - 1 - i);
    BitGlue(ColumnValue(Column(x, b - 1)), Interleave(x, b - 1), Span(n, b - 1), j);
    if k == b - 1 {
      ColumnValueBit(Column(x, k), i);
    } else {
      SpanAdd(n, b - 1 - (k + 1), k + 1);
      InterleaveBit(x, b - 1, k, i);
    }
  }

  /** The packing of the sample program: five bits in three dimensions. */
  lemma SamplePacking(x0: nat, x1: nat, x2: nat)
    ensures Interleave([x0, x1, x2], 5) ==
      ToNat(Bit(x2, 0)) *     1 + ToNat(Bit(x1, 0)) *    2 + ToNat(Bit(x0, 0)) *     4 +
      ToNat(Bit(x2, 1)) *     8 + ToNat(Bit(x1, 1)) *   16 + ToNat(Bit(x0, 1)) *    32 +
      ToNat(Bit(x2, 2)) *    64 + ToNat(Bit(x1, 2)) *  128 + ToNat(Bit(x0, 2)) *   256 +
      ToNat(Bit(x2, 3)) *   512 + ToNat(Bit(x1, 3)) * 1024 + ToNat(Bit(x0, 3)) *  2048 +
      ToNat(Bit(x2, 4)) *  4096 + ToNat(Bit(x1, 4)) * 8192 + ToNat(Bit(x0, 4)) * 16384
  {
    hide Bit, Glue, ColumnValue, Column, Span, Pow2, Interleave;
    var x := [x0, x1, x2];
    SampleConstants(x);
    PackLevel(x, 0);
    PackLevel(x, 1);
    PackLevel(x, 2);
    PackLevel(x, 3);
    PackLevel(x, 4);
  }

  lemma SampleConstants(x: Point)
    ensures Interleave(x, 0) == 0
    ensures Pow2(Span(3, 0)) == 1 && Pow2(Span(3, 1)) == 8 && Pow2(Span(3, 2)) == 64
    ensures Pow2(Span(3, 3)) == 512 && Pow2(Span(3, 4)) == 4096
  {
    assert Pow2(3) == 8 && Pow2(6) == 64;
    assert Pow2(9) == 512;
    assert Pow2(12) == 4096;
  }

  lemma PackLevel(x: Point, k: nat)
    requires |x| == 3
    ensures Interleave(x, k + 1) == Interleave(x, k) +
      Pow2(Span(3, k)) * (ToNat(Bit(x[2], k)) + 2 * ToNat(Bit(x[1], k)) + 4 * ToNat(Bit(x[0], k)))
  {
    hide Bit, ColumnValue, Pow2, Glue;
    InterleaveBound(x, k);
    Pack3(x, k, Interleave(x, k), Span(3, k));
  }

  lemma Pack3(x: Point, k: nat, low: nat, m: nat)
    requires |x| == 3 && low < Pow2(m)
    ensures Glue(ColumnValue(Column(x, k)), low, m) ==
      low + Pow2(m) * (ToNat(Bit(x[2], k)) + 2 * ToNat(Bit(x[1], k)) + 4 * ToNat(Bit(x[0], k)))
  {
    hide Glue, Low, Shr, Bit, ColumnValue, Column, Pow2;
    Digit3(Column(x, k));
    GlueValue(ColumnValue(Column(x, k)), low, m);
    LowSmall(low, m);
  }

  lemma Digit3(g: seq<bool>)
    requires |g| == 3
    ensures ColumnValue(g) == ToNat(g[2]) + 2 * ToNat(g[1]) + 4 * ToNat(g[0])
  {
    assert ColumnValue(g[1..][1..][1..]) == 0;
    assert ColumnValue(g[1..][1..]) == ToNat(g[2]);
    assert ColumnValue(g[1..]) == ToNat(g[2]) + 2 * ToNat(g[1]);
  }

  // ----- the Gray stage of TransposetoAxes on words

  /** The word whose bits precede those of word i in the packed integer. */
  function Before(x: Point, i: nat): nat
    requires i < |x|
  {
    if i == 0 then Shr(x[|x| - 1], 1) else x[i - 1]
  }

  /** Lines 46-49: every word takes up its predecessor, word 0 the shifted last word. */
  function GrayDecode(x: Point): (y: Point)
    ensures |y| == |x|
    ensures forall i :: 0 <= i < |x| ==> y[i] == Xor(x[i], Before(x, i))
  {
    seq(|x|, i requires 0 <= i < |x| => Xor(x[i], Before(x, i)))
  }

  lemma GrayDecodeRange(x: Point, b: nat)
    requires InCube(x, Pow2(b))
    ensures InCube(GrayDecode(x), Pow2(b))
  {
    hide Xor, Pow2;
    forall i | 0 <= i < |x| ensures GrayDecode(x)[i] < Pow2(b) {
      XorBound(x[i], Before(x, i), b);
    }
  }

  /** The Gray column of a digit compares each bit with the one before it. */
  lemma {:induction false} GrayColumnBit(d: nat, n: nat, c: bool, i: nat)
    requires i < n
    ensures GrayColumn(d, n, c)[i] == (Bit(d, n - 1 - i) != if i == 0 then c else Bit(d, n - i))
    decreases n
  {
    hide Bit;
    if i > 0 { GrayColumnBit(d, n - 1, Bit(d, n - 1), i - 1); }
  }

  lemma BeforeBit(x: Point, i: nat, k: nat)
    requires i < |x|
    ensures Bit(Before(x, i), k) == if i == 0 then Bit(x[|x| - 1], k + 1) else Bit(x[i - 1], k)
  {
    ShrAdd(x[|x| - 1], 1, k);
  }

  /** Bit k of decoded word i, read off the columns. */
  lemma GrayDecodeAt(x: Point, k: nat, i: nat)
    requires i < |x|
    ensures Bit(GrayDecode(x)[i], k) == (Bit(x[i], k) != if i == 0 then Bit(x[|x| - 1], k + 1) else Bit(x[i - 1], k))
  {
    hide Xor, Bit, Before, GrayDecode;
    XorBit(x[i], Before(x, i), k);
    BeforeBit(x, i, k);
  }

  /** The same bit of the Gray column of the digit. */
  lemma GrayColumnAt(g: seq<bool>, c: bool, i: nat)
    requires i < |g|
    ensures GrayColumn(ColumnValue(g), |g|, c)[i] == (g[i] != if i == 0 then c else g[i - 1])
  {
    hide ColumnValue, GrayColumn, Bit;
    GrayColumnBit(ColumnValue(g), |g|, c, i);
    ColumnValueBit(g, i);
    if i > 0 { ColumnValueBit(g, i - 1); }
  }

  /** Column k of the decoded words is the Gray column of digit k of the integer. */
  lemma GrayDecodeColumn(x: Point, k: nat)
    requires |x| >= 1
    ensures GrayColumn(ColumnValue(Column(x, k)), |x|, Bit(x[|x| - 1], k + 1)) == Column(GrayDecode(x), k)
  {
    hide ColumnValue, GrayColumn, Bit, Column, GrayDecode;
    forall i | 0 <= i < |x|
      ensures GrayColumn(ColumnValue(Column(x, k)), |x|, Bit(x[|x| - 1], k + 1))[i] == Column(GrayDecode(x), k)[i]
    {
      GrayDecodeAt(x, k, i);
      GrayColumnAt(Column(x, k), Bit(x[|x| - 1], k + 1), i);
    }
  }

  /** The point whose level bits are the columns of y, laid out level by level. */
  function Rebuild(y: Point, k: nat): (x: Point)
    ensures |x| == |y| && InCube(x, Pow2(k))
    decreases k
  {
    if k == 0 then seq(|y|, _ => 0) else Level(Column(y, k - 1), Rebuild(y, k - 1), Pow2(k - 1))
  }

  /** Rebuilding the decoded words follows the curve to the packed integer. */
  lemma {:induction false} RebuildIsCurve(x: Point, k: nat)
    requires |x| >= 1
    ensures Rebuild(GrayDecode(x), k) == CurvePoint(Interleave(x, k), k, |x|, Bit(x[|x| - 1], k))
    decreases k
  {
    hide Low, Shr, Bit, Glue, Level, GrayColumn, ColumnValue, Column, GrayDecode;
    if k > 0 {
      var n := |x|;
      var v, low, m := ColumnValue(Column(x, k - 1)), Interleave(x, k - 1), Span(n, k - 1);
      GlueWord(v, low, m);
      GrayDecodeColumn(x, k - 1);
      ColumnValueBit(Column(x, k - 1), n - 1);
      CurvePointLow(Glue(v, low, m), low, k - 1, n, Bit(v, 0));
      RebuildIsCurve(x, k - 1);
    }
  }

  // ----- one step and one stage on words

  /** Lines 57-58 and 76-77: with Q = 2^k, complement or exchange the bits below Q. */
  function WordStep(x: Point, k: nat, i: nat): (y: Point)
    requires i < |x|
    ensures |y| == |x|
  {
    var mask := Pow2(k) - 1;
    if And(x[i], Pow2(k)) != 0 then x[0 := Xor(x[0], mask)]
    else
      var t := And(Xor(x[0], x[i]), mask);
      x[0 := Xor(x[0], t)][i := Xor(x[i], t)]
  }

  function LowBits(x: Point, k: nat): (y: Point)
    ensures |y| == |x| && InCube(y, Pow2(k)) && forall i :: 0 <= i < |x| ==> y[i] == Low(x[i], k)
  {
    seq(|x|, i requires 0 <= i < |x| => Low(x[i], k))
  }

  /** A step keeps the high bits and acts as the curve's elementary step on the low bits. */
  lemma WordStepParts(x: Point, k: nat, i: nat)
    requires i < |x|
    ensures Coarse(WordStep(x, k, i), k) == Coarse(x, k)
    ensures LowBits(WordStep(x, k, i), k) == Step(Bit(x[i], k), LowBits(x, k), i, Pow2(k))
  {
    hide Xor, And, Glue, Shr, Low, Pow2;
    var mask := Pow2(k) - 1;
    AndPow2(x[i], k);
    if Bit(x[i], k) {
      XorMask(x[0], k);
      GlueWord(Shr(x[0], k), mask - Low(x[0], k), k);
      LowSmall(mask - Low(x[0], k), k);
    } else {
      XorExchange(x[0], x[i], k);
      XorExchange(x[i], x[0], k);
      XorComm(x[0], x[i]);
      GlueWord(Shr(x[0], k), x[i], k);
      GlueWord(Shr(x[i], k), x[0], k);
    }
  }

  lemma SameParts(x: Point, y: Point, k: nat)
    requires |x| == |y| && Coarse(x, k) == Coarse(y, k) && LowBits(x, k) == LowBits(y, k)
    ensures x == y
  {
    hide Shr, Low, Glue;
    forall i | 0 <= i < |x| ensures x[i] == y[i] {
      assert Coarse(x, k)[i] == Coarse(y, k)[i] && LowBits(x, k)[i] == LowBits(y, k)[i];
      SplitWord(x[i], k);
      SplitWord(y[i], k);
      GlueLow(Shr(x[i], k), x[i], y[i], k);
    }
  }

  /** Lines 56-59: the steps of one Q, dimensions j-1 down to 0. */
  function WordsDown(x: Point, k: nat, j: nat): (y: Point)
    requires j <= |x|
    ensures |y| == |x|
    decreases j
  {
    if j == 0 then x else WordsDown(WordStep(x, k, j - 1), k, j - 1)
  }

  /** Lines 74-77: the steps of one Q, dimensions 0 up to j-1. */
  function WordsUp(x: Point, k: nat, j: nat): (y: Point)
    requires j <= |x|
    ensures |y| == |x|
    decreases j
  {
    if j == 0 then x else WordStep(WordsUp(x, k, j - 1), k, j - 1)
  }

  lemma SameHighColumn(x: Point, y: Point, k: nat)
    requires |x| == |y| && Coarse(x, k) == Coarse(y, k)
    ensures Column(x, k) == Column(y, k)
    ensures Coarse(x, k + 1) == Coarse(y, k + 1)
  {
    hide Shr;
    forall i | 0 <= i < |x|
      ensures Column(x, k)[i] == Column(y, k)[i] && Coarse(x, k + 1)[i] == Coarse(y, k + 1)[i]
    {
      assert Coarse(x, k)[i] == Coarse(y, k)[i];
      ShrAdd(x[i], k, 1);
      ShrAdd(y[i], k, 1);
    }
  }

  lemma {:induction false} WordsDownParts(x: Point, k: nat, j: nat)
    requires j <= |x|
    ensures Coarse(WordsDown(x, k, j), k) == Coarse(x, k)
    ensures LowBits(WordsDown(x, k, j), k) == Down(Column(x, k), LowBits(x, k), j, Pow2(k))
    decreases j
  {
    hide WordStep, Coarse, LowBits, Pow2, Step;
    if j > 0 {
      WordStepParts(x, k, j - 1);
      SameHighColumn(WordStep(x, k, j - 1), x, k);
      WordsDownParts(WordStep(x, k, j - 1), k, j - 1);
    }
  }

  lemma WordStepInvolution(x: Point, k: nat, i: nat)
    requires i < |x|
    ensures WordStep(WordStep(x, k, i), k, i) == x
  {
    hide WordStep, Coarse, LowBits, Pow2, Step;
    var y := WordStep(x, k, i);
    WordStepParts(x, k, i);
    WordStepParts(y, k, i);
    SameHighColumn(x, y, k);
    assert Column(x, k)[i] == Column(y, k)[i];
    StepInvolution(Bit(x[i], k), LowBits(x, k), i, Pow2(k));
    SameParts(WordStep(y, k, i), x, k);
  }

  /** The ascending steps are undone by the descending ones. */
  lemma {:induction false} WordsDownUp(x: Point, k: nat, j: nat)
    requires j <= |x|
    ensures WordsDown(WordsUp(x, k, j), k, j) == x
    decreases j
  {
    hide WordStep;
    if j > 0 {
      WordStepInvolution(WordsUp(x, k, j - 1), k, j - 1);
      WordsDownUp(x, k, j - 1);
    }
  }

  /** Lines 53-60 from Q = 2^k on: the descending stages k, ..., b-1. */
  function Redo(x: Point, k: nat, b: nat): (y: Point)
    requires k <= b
    ensures |y| == |x|
    decreases b - k
  {
    if k == b then x else Redo(WordsDown(x, k, |x|), k + 1, b)
  }

  /** Between stages the bits below level k are rebuilt and the others untouched. */
  predicate Staged(x: Point, y: Point, k: nat) {
    |x| == |y| && Coarse(x, k) == Coarse(y, k) && LowBits(x, k) == Rebuild(y, k)
  }

  lemma StageStep(x: Point, y: Point, k: nat)
    requires Staged(x, y, k)
    ensures Staged(WordsDown(x, k, |x|), y, k + 1)
  {
    hide WordsDown, Coarse, Pow2, Down;
    var z := WordsDown(x, k, |x|);
    WordsDownParts(x, k, |x|);
    SameHighColumn(x, y, k);
    SameHighColumn(z, y, k);
    LowBitsLevel(z, k);
  }

  lemma LowBitsLevel(z: Point, k: nat)
    ensures LowBits(z, k + 1) == Attach(Column(z, k), LowBits(z, k), Pow2(k))
  {
    hide Low, Pow2, Bit;
    forall i | 0 <= i < |z|
      ensures LowBits(z, k + 1)[i] == Attach(Column(z, k), LowBits(z, k), Pow2(k))[i]
    {
      LowNext(z[i], k);
    }
  }

  lemma LowNext(w: nat, k: nat)
    ensures Low(w, k + 1) == if Bit(w, k) then Pow2(k) + Low(w, k) else Low(w, k)
  {
    TopBit(w, k + 1);
    GlueValue(ToNat(Bit(w, k)), w, k);
  }

  lemma {:induction false} RedoStages(x: Point, y: Point, k: nat, b: nat)
    requires k <= b && Staged(x, y, k)
    ensures Staged(Redo(x, k, b), y, b)
    decreases b - k
  {
    hide Staged, WordsDown;
    if k < b {
      StageStep(x, y, k);
      RedoStages(WordsDown(x, k, |x|), y, k + 1, b);
    }
  }

  lemma FirstStage(y: Point)
    ensures Staged(y, y, 1)
  {
    var z := Rebuild(y, 1);
    LowBitsLevel(y, 0);
    assert Pow2(0) == 1;
    assert LowBits(y, 0) == Rebuild(y, 0);
    assert Down(Column(y, 0), Rebuild(y, 0), |y|, 1) == LowBits(y, 0);
  }

  /** All descending stages together rebuild the point, level by level. */
  lemma RedoIsRebuild(y: Point, b: nat)
    requires b >= 1 && InCube(y, Pow2(b))
    ensures Redo(y, 1, b) == Rebuild(y, b)
  {
    hide Redo, Rebuild, Pow2;
    FirstStage(y);
    RedoStages(y, y, 1, b);
    var z := Redo(y, 1, b);
    forall i | 0 <= i < |y| ensures z[i] == Rebuild(y, b)[i] {
      assert Coarse(z, b)[i] == Coarse(y, b)[i] && LowBits(z, b)[i] == Rebuild(y, b)[i];
      LowSmall(y[i], b);
      SplitWord(z[i], b);
      GlueValue(Shr(z[i], b), z[i], b);
    }
  }

  /** The stages keep the words within b bits. */
  lemma SameHighRange(x: Point, y: Point, k: nat, b: nat)
    requires k <= b && |x| == |y| && Coarse(x, k) == Coarse(y, k) && InCube(x, Pow2(b))
    ensures InCube(y, Pow2(b))
  {
    hide Shr, Pow2, Glue;
    forall i | 0 <= i < |y| ensures y[i] < Pow2(b) {
      assert Coarse(x, k)[i] == Coarse(y, k)[i];
      ShrBound(x[i], k, b - k);
      SplitWord(y[i], k);
      GlueBound(Shr(y[i], k), y[i], k, b - k);
    }
  }

  lemma {:induction false} WordsUpHigh(x: Point, k: nat, j: nat)
    requires j <= |x|
    ensures Coarse(WordsUp(x, k, j), k) == Coarse(x, k)
    decreases j
  {
    hide WordStep, Coarse;
    if j > 0 {
      WordsUpHigh(x, k, j - 1);
      WordStepParts(WordsUp(x, k, j - 1), k, j - 1);
    }
  }

  // ----- inverting the Gray code of a word by doubling shifts

  /** w ^ (w >> 1) ^ ... ^ (w >> (s - 1)). */
  function XorOfShifts(w: nat, s: nat): nat
    decreases s
  {
    if s == 0 then 0 else Xor(w, XorOfShifts(Shr(w, 1), s - 1))
  }

  lemma {:induction false} XorOfShiftsShift(w: nat, s: nat, k: nat)
    ensures Shr(XorOfShifts(w, s), k) == XorOfShifts(Shr(w, k), s)
    decreases s
  {
    hide Xor, Shr;
    if s == 0 {
      ShrZero(k);
    } else {
      XorShift(w, XorOfShifts(Shr(w, 1), s - 1), k);
      XorOfShiftsShift(Shr(w, 1), s - 1, k);
      ShrAdd(w, 1, k);
      ShrAdd(w, k, 1);
    }
  }

  lemma {:induction false} XorOfShiftsAdd(w: nat, s: nat, r: nat)
    ensures XorOfShifts(w, s + r) == Xor(XorOfShifts(w, s), XorOfShifts(Shr(w, s), r))
    decreases s
  {
    hide Xor, Shr;
    var rest := XorOfShifts(Shr(w, s), r);
    if s == 0 {
      ShrBase(w);
      XorComm(0, rest);
      XorZero(rest);
    } else {
      XorOfShiftsAdd(Shr(w, 1), s - 1, r);
      ShrAdd(w, 1, s - 1);
      XorAssoc(w, XorOfShifts(Shr(w, 1), s - 1), rest);
    }
  }

  lemma ShrBase(w: nat)
    ensures Shr(w, 0) == w
  {
  }

  /** One turn of the loop at lines 84-85 doubles the number of shifts collected. */
  lemma XorOfShiftsDouble(w: nat, s: nat)
    ensures Xor(XorOfShifts(w, s), Shr(XorOfShifts(w, s), s)) == XorOfShifts(w, 2 * s)
  {
    XorOfShiftsAdd(w, s, s);
    XorOfShiftsShift(w, s, s);
  }

  lemma {:induction false} XorOfShiftsZero(s: nat)
    ensures XorOfShifts(0, s) == 0
  {
    if s > 0 { XorOfShiftsZero(s - 1); }
  }

  /** Shifts beyond the width add nothing. */
  lemma XorOfShiftsWide(w: nat, b: nat, s: nat)
    requires w < Pow2(b) && b <= s
    ensures XorOfShifts(w, s) == XorOfShifts(w, b)
  {
    hide Xor, Shr, XorOfShifts;
    XorOfShiftsAdd(w, b, s - b);
    LowSmall(w, b);
    XorOfShiftsZero(s - b);
    XorZero(XorOfShifts(w, b));
  }

  lemma {:induction false} XorOfShiftsRange(w: nat, b: nat, s: nat)
    requires w < Pow2(b)
    ensures XorOfShifts(w, s) < Pow2(b)
    decreases s
  {
    hide Xor, Shr;
    if s > 0 {
      ShrOne(w);
      XorOfShiftsRange(Shr(w, 1), b, s - 1);
      XorBound(w, XorOfShifts(Shr(w, 1), s - 1), b);
    }
  }

  lemma ShrOne(w: nat)
    ensures Shr(w, 1) <= w
  {
  }

  /** The collected shifts of a Gray code telescope. */
  lemma {:induction false} Telescope(h: nat, s: nat)
    ensures XorOfShifts(Xor(h, Shr(h, 1)), s) == Xor(h, Shr(h, s))
    decreases s
  {
    hide Xor, Shr;
    if s == 0 {
      ShrBase(h);
      XorSelf(h);
    } else {
      var k := Shr(h, 1);
      XorShift(h, k, 1);
      Telescope(k, s - 1);
      ShrAdd(h, 1, s - 1);
      XorAssoc(h, k, Xor(k, Shr(h, s)));
      XorComm(k, Xor(k, Shr(h, s)));
      XorComm(k, Shr(h, s));
      XorCancel(Shr(h, s), k);
    }
  }

  lemma XorSelf(h: nat)
    ensures Xor(h, h) == 0
  {
    XorCancel(0, h);
    XorComm(0, h);
    XorZero(h);
  }

  /** Collecting all shifts of a b-bit word inverts w ^ (w >> 1), in both directions. */
  lemma GrayWordInverse(w: nat, b: nat)
    requires w < Pow2(b)
    ensures XorOfShifts(Xor(w, Shr(w, 1)), b) == w
    ensures Xor(XorOfShifts(w, b), Shr(XorOfShifts(w, b), 1)) == w
  {
    hide Xor, Shr, XorOfShifts;
    Telescope(w, b);
    LowSmall(w, b);
    XorZero(w);
    var z := XorOfShifts(w, b);
    var v := XorOfShifts(Shr(w, 1), b);
    XorOfShiftsShift(w, b, 1);
    XorOfShiftsCons(w, b);
    ShrOne(w);
    XorOfShiftsWide(Shr(w, 1), b, b);
    XorOfShiftsWide(w, b, b + 1);
    XorCancel(w, v);
  }

  lemma XorOfShiftsCons(w: nat, s: nat)
    ensures XorOfShifts(w, s + 1) == Xor(w, XorOfShifts(Shr(w, 1), s))
  {
  }

  // ----- the Gray stage of AxestoTranspose on words

  /** Lines 81-82: running exclusive or over the dimensions. */
  function PrefixXor(y: Point, i: nat): nat
    requires i < |y|
  {
    if i == 0 then y[0] else Xor(y[i], PrefixXor(y, i - 1))
  }

  /** Lines 81-88: the words whose Gray decoding is y. */
  function GrayEncode(y: Point, b: nat): (x: Point)
    ensures |x| == |y|
  {
    if |y| == 0 then []
    else
      var last := PrefixXor(y, |y| - 1);
      var w := XorOfShifts(last, b);
      var t := Xor(last, w);
      seq(|y|, i requires 0 <= i < |y| => if i == |y| - 1 then w else Xor(PrefixXor(y, i), t))
  }

  lemma {:induction false} PrefixXorRange(y: Point, i: nat, b: nat)
    requires i < |y| && InCube(y, Pow2(b))
    ensures PrefixXor(y, i) < Pow2(b)
    decreases i
  {
    hide Xor, Pow2;
    if i > 0 {
      PrefixXorRange(y, i - 1, b);
      XorBound(y[i], PrefixXor(y, i - 1), b);
    }
  }

  lemma GrayEncodeRange(y: Point, b: nat)
    requires InCube(y, Pow2(b))
    ensures InCube(GrayEncode(y, b), Pow2(b))
  {
    hide Xor, Pow2, XorOfShifts, PrefixXor;
    if |y| > 0 {
      var last := PrefixXor(y, |y| - 1);
      PrefixXorRange(y, |y| - 1, b);
      XorOfShiftsRange(last, b, b);
      XorBound(last, XorOfShifts(last, b), b);
      forall i | 0 <= i < |y| ensures GrayEncode(y, b)[i] < Pow2(b) {
        PrefixXorRange(y, i, b);
        XorBound(PrefixXor(y, i), Xor(last, XorOfShifts(last, b)), b);
      }
    }
  }

  /** (p ^ t) ^ (q ^ t) is p ^ q. */
  lemma XorDifference(p: nat, q: nat, t: nat)
    ensures Xor(Xor(p, t), Xor(q, t)) == Xor(p, q)
  {
    XorComm(q, t);
    XorAssoc(Xor(p, t), t, q);
    XorCancel(p, t);
  }

  /** Lines 81-88 undo lines 46-49. */
  lemma GrayDecodeEncode(y: Point, b: nat)
    requires |y| >= 1 && InCube(y, Pow2(b))
    ensures GrayDecode(GrayEncode(y, b)) == y
  {
    hide Xor, Pow2, Shr, XorOfShifts, PrefixXor, GrayDecode;
    var n, x := |y|, GrayEncode(y, b);
    var last := PrefixXor(y, n - 1);
    var w := XorOfShifts(last, b);
    var t := Xor(last, w);
    PrefixXorRange(y, n - 1, b);
    GrayWordInverse(last, b);
    XorComm(w, Shr(w, 1));
    XorCancel(Shr(w, 1), w);
    assert t == Shr(w, 1) && Xor(w, t) == last;
    forall i | 0 <= i < n ensures Xor(x[i], Before(x, i)) == y[i] {
      PrefixXorUnfold(y, i);
      if i == 0 {
        XorCancel(y[0], t);
      } else {
        var p, q := PrefixXor(y, i), PrefixXor(y, i - 1);
        XorCancel(y[i], q);
        XorDifference(p, q, t);
        if i == n - 1 {
          XorComm(q, t);
          XorAssoc(w, t, q);
        }
      }
    }
  }

  lemma PrefixXorUnfold(y: Point, i: nat)
    requires i < |y|
    ensures PrefixXor(y, i) == if i == 0 then y[0] else Xor(y[i], PrefixXor(y, i - 1))
  {
  }

  // ----- packing is one-to-one and onto

  lemma InterleaveInjective(x: Point, y: Point, b: nat)
    requires |x| == |y| && InCube(x, Pow2(b)) && InCube(y, Pow2(b)) && Interleave(x, b) == Interleave(y, b)
    ensures x == y
  {
    hide Interleave, Pow2, Bit;
    forall i | 0 <= i < |x| ensures x[i] == y[i] {
      forall k: nat | k < b ensures Bit(x[i], k) == Bit(y[i], k) {
        InterleaveBit(x, b, k, i);
        InterleaveBit(y, b, k, i);
      }
      SameBits(x[i], y[i], b);
    }
  }

  /** The n bits of a digit, most significant first. */
  function DigitBits(d: nat, n: nat): (g: seq<bool>)
    ensures |g| == n && forall i :: 0 <= i < n ==> g[i] == Bit(d, n - 1 - i)
  {
    seq(n, i requires 0 <= i < n => Bit(d, n - 1 - i))
  }

  /** The n words of b bits that the low n * b bits of h spell. */
  function Deinterleave(h: nat, b: nat, n: nat): (x: Point)
    ensures |x| == n && InCube(x, Pow2(b))
    decreases b
  {
    if b == 0 then seq(n, _ => 0)
    else Attach(DigitBits(Shr(h, Span(n, b - 1)), n), Deinterleave(h, b - 1, n), Pow2(b - 1))
  }

  /** Bit k of word i of the unpacked integer is its bit k * n + (n - 1 - i). */
  lemma {:induction false} DeinterleaveBit(h: nat, b: nat, n: nat, k: nat, i: nat)
    requires k < b && i < n
    ensures Bit(Deinterleave(h, b, n)[i], k) == Bit(h, Span(n, k) + (n - 1 - i))
    decreases b
  {
    hide Bit, Shr, Glue, DigitBits, Pow2;
    var d := Shr(h, Span(n, b - 1));
    var g, low := DigitBits(d, n), Deinterleave(h, b - 1, n)[i];
    GlueValue(ToNat(g[i]), low, b - 1);
    LowSmall(low, b - 1);
    BitGlue(ToNat(g[i]), low, b - 1, k);
    if k == b - 1 {
      BitOfBool(g[i]);
      BitShr(h, Span(n, b - 1), n - 1 - i);
    } else {
      DeinterleaveBit(h, b - 1, n, k, i);
    }
  }

  lemma BitOfBool(g: bool)
    ensures Bit(ToNat(g), 0) == g
  {
  }

  lemma BitShr(h: nat, a: nat, k: nat)
    ensures Bit(Shr(h, a), k) == Bit(h, a + k)
  {
    ShrAdd(h, a, k);
  }

  lemma DeinterleaveInterleave(x: Point, b: nat)
    requires InCube(x, Pow2(b))
    ensures Deinterleave(Interleave(x, b), b, |x|) == x
  {
    hide Bit, Interleave, Deinterleave, Pow2;
    var y := Deinterleave(Interleave(x, b), b, |x|);
    forall i | 0 <= i < |x| ensures y[i] == x[i] {
      forall k: nat | k < b ensures Bit(y[i], k) == Bit(x[i], k) {
        DeinterleaveBit(Interleave(x, b), b, |x|, k, i);
        InterleaveBit(x, b, k, i);
      }
      SameBits(y[i], x[i], b);
    }
  }

  lemma {:induction false} InterleaveDeinterleave(h: nat, b: nat, n: nat)
    requires n >= 1
    ensures Interleave(Deinterleave(h, b, n), b) == Low(h, Span(n, b))
  {
    hide Bit, Interleave, Deinterleave, Pow2, Low;
    var x := Deinterleave(h, b, n);
    InterleaveBound(x, b);
    forall j: nat | j < Span(n, b) ensures Bit(Interleave(x, b), j) == Bit(Low(h, Span(n, b)), j) {
      var k, i := Locate(n, b, j);
      InterleaveBit(x, b, k, i);
      DeinterleaveBit(h, b, n, k, i);
      LowBit(h, Span(n, b), j);
    }
    SameBits(Interleave(x, b), Low(h, Span(n, b)), Span(n, b));
  }

  /** The level and dimension of bit j of the packed integer. */
  lemma {:induction false} Locate(n: nat, b: nat, j: nat) returns (k: nat, i: nat)
    requires j < Span(n, b)
    ensures k < b && i < n && j == Span(n, k) + (n - 1 - i)
    decreases b
  {
    if j >= Span(n, b - 1) {
      k, i := b - 1, n - 1 - (j - Span(n, b - 1));
    } else {
      k, i := Locate(n, b - 1, j);
    }
  }

  lemma {:induction false} LowBit(h: nat, m: nat, j: nat)
    requires j < m
    ensures Bit(Low(h, m), j) == Bit(h, j)
  {
    if j > 0 { LowBit(h / 2, m - 1, j - 1); }
  }

  /** Dropping the low m bits of every word drops n * m bits of the packed integer. */
  lemma CoarseDeinterleave(h: nat, j: nat, m: nat, n: nat)
    ensures Coarse(Deinterleave(h, j + m, n), m) == Deinterleave(Shr(h, Span(n, m)), j, n)
  {
    hide Bit, Deinterleave, Pow2, Coarse, Shr;
    var x, y := Deinterleave(h, j + m, n), Deinterleave(Shr(h, Span(n, m)), j, n);
    forall i | 0 <= i < n ensures Coarse(x, m)[i] == y[i] {
      ShrBound(x[i], m, j);
      forall k: nat | k < j ensures Bit(Shr(x[i], m), k) == Bit(y[i], k) {
        BitShr(x[i], m, k);
        DeinterleaveBit(h, j + m, n, m + k, i);
        DeinterleaveBit(Shr(h, Span(n, m)), j, n, k, i);
        SpanAdd(n, m, k);
        BitShr(h, Span(n, m), Span(n, k) + (n - 1 - i));
      }
      SameBits(Shr(x[i], m), y[i], j);
    }
  }

  // ----- the Gray stages are integer Gray code on the packed integer

  /** Bit j of the packed, decoded words compares neighbouring bits of the packed words. */
  lemma GrayDecodeBit(x: Point, b: nat, j: nat)
    requires InCube(x, Pow2(b)) && j < Span(|x|, b)
    ensures Bit(Interleave(GrayDecode(x), b), j) == (Bit(Interleave(x, b), j) != Bit(Interleave(x, b), j + 1))
  {
    hide Bit, Interleave, GrayDecode, Pow2, Before, Xor;
    var n := |x|;
    var k, i := Locate(n, b, j);
    InterleaveBit(GrayDecode(x), b, k, i);
    InterleaveBit(x, b, k, i);
    XorBit(x[i], Before(x, i), k);
    BeforeBit(x, i, k);
    if i > 0 {
      InterleaveBit(x, b, k, i - 1);
    } else if k + 1 < b {
      InterleaveBit(x, b, k + 1, n - 1);
    } else {
      InterleaveBound(x, b);
      BitAbove(Interleave(x, b), Span(n, b), j + 1);
      BitAbove(x[n - 1], b, b);
    }
  }

  /** Lines 46-49 compute h ^ (h >> 1) on the packed integer h. */
  lemma GrayDecodeIsIntegerGray(x: Point, b: nat)
    requires InCube(x, Pow2(b))
    ensures Interleave(GrayDecode(x), b) == Xor(Interleave(x, b), Shr(Interleave(x, b), 1))
  {
    hide Bit, Interleave, GrayDecode, Pow2, Xor, Shr;
    var h, m := Interleave(x, b), Span(|x|, b);
    var g := Interleave(GrayDecode(x), b);
    InterleaveBound(x, b);
    InterleaveBound(GrayDecode(x), b);
    ShrOne(h);
    XorBound(h, Shr(h, 1), m);
    forall j: nat | j < m ensures Bit(g, j) == Bit(Xor(h, Shr(h, 1)), j) {
      GrayDecodeBit(x, b, j);
      XorBit(h, Shr(h, 1), j);
      BitShr(h, 1, j);
    }
    SameBits(g, Xor(h, Shr(h, 1)), m);
  }

  /** Lines 81-88 compute the inverse Gray code, the exclusive or of all shifts of the
      packed integer, and so undo lines 46-49 on any words. */
  lemma GrayEncodeIsIntegerInverse(y: Point, b: nat)
    requires |y| >= 1 && InCube(y, Pow2(b))
    ensures Interleave(GrayEncode(y, b), b) == XorOfShifts(Interleave(y, b), Span(|y|, b))
  {
    hide Interleave, GrayDecode, GrayEncode, Pow2, Xor, Shr, XorOfShifts;
    var x := GrayEncode(y, b);
    GrayEncodeRange(y, b);
    GrayDecodeEncode(y, b);
    GrayDecodeIsIntegerGray(x, b);
    InterleaveBound(x, b);
    GrayWordInverse(Interleave(x, b), Span(|y|, b));
  }

  lemma GrayEncodeDecode(x: Point, b: nat)
    requires |x| >= 1 && InCube(x, Pow2(b))
    ensures GrayEncode(GrayDecode(x), b) == x
  {
    hide Interleave, GrayDecode, GrayEncode, Pow2, Xor, Shr, XorOfShifts;
    GrayDecodeRange(x, b);
    GrayEncodeRange(GrayDecode(x), b);
    GrayEncodeIsIntegerInverse(GrayDecode(x), b);
    GrayDecodeIsIntegerGray(x, b);
    InterleaveBound(x, b);
    GrayWordInverse(Interleave(x, b), Span(|x|, b));
    InterleaveInjective(GrayEncode(GrayDecode(x), b), x, b);
  }
}
