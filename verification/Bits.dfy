/** Machine words as natural numbers: powers of two, single bits, and the C operators
    `^`, `&` and `>>` on unsigned words, together with the algebra the Hilbert
    transform relies on. */
module Bits {

  function Pow2(e: nat): (p: nat)
    ensures p > 0
  {
    if e == 0 then 1 else 2 * Pow2(e - 1)
  }

  function ToNat(bit: bool): nat { if bit then 1 else 0 }

  /** The C operator `x >> k`. */
  function Shr(x: nat, k: nat): nat
    decreases k
  {
    if k == 0 then x else Shr(x / 2, k - 1)
  }

  /** The low k bits of x, the part that `x >> k` drops. */
  function Low(x: nat, k: nat): (r: nat)
    ensures r < Pow2(k)
    decreases k
  {
    if k == 0 then 0 else 2 * Low(x / 2, k - 1) + x % 2
  }

  /** Bit k of word x, as in `(x >> k) & 1`. */
  predicate Bit(x: nat, k: nat) { Shr(x, k) % 2 == 1 }

  /** The C operator `a ^ b`. */
  function Xor(a: nat, b: nat): nat
    decreases a + b
  {
    if a == 0 && b == 0 then 0 else 2 * Xor(a / 2, b / 2) + ToNat(a % 2 != b % 2)
  }

  /** The C operator `a & b`. */
  function And(a: nat, b: nat): nat
    decreases a + b
  {
    if a == 0 && b == 0 then 0 else 2 * And(a / 2, b / 2) + ToNat(a % 2 == 1 && b % 2 == 1)
  }

  /** The word with high part hi above the low k bits of lo. */
  function Glue(hi: nat, lo: nat, k: nat): nat
    decreases k
  {
    if k == 0 then hi else 2 * Glue(hi, lo / 2, k - 1) + lo % 2
  }

  // ----- powers of two, shifting and gluing

  lemma MulDouble(a: nat, p: nat)
    ensures a * (2 * p) == 2 * (a * p)
  {
  }

  /** Gluing is multiplying up and adding. */
  lemma {:induction false} GlueValue(hi: nat, lo: nat, k: nat)
    ensures Glue(hi, lo, k) == hi * Pow2(k) + Low(lo, k)
    decreases k
  {
    if k > 0 {
      GlueValue(hi, lo / 2, k - 1);
      MulDouble(hi, Pow2(k - 1));
    }
  }

  lemma {:induction false} ShrAdd(x: nat, a: nat, b: nat)
    ensures Shr(Shr(x, a), b) == Shr(x, a + b)
    decreases a
  {
    if a > 0 { ShrAdd(x / 2, a - 1, b); }
  }

  /** A word is its high part above its low part. */
  lemma {:induction false} SplitWord(x: nat, k: nat)
    ensures x == Glue(Shr(x, k), x, k)
    decreases k
  {
    if k > 0 { SplitWord(x / 2, k - 1); }
  }

  lemma {:induction false} GlueWord(hi: nat, lo: nat, k: nat)
    ensures Shr(Glue(hi, lo, k), k) == hi && Low(Glue(hi, lo, k), k) == Low(lo, k)
    decreases k
  {
    if k > 0 { GlueWord(hi, lo / 2, k - 1); }
  }

  lemma {:induction false} GlueBound(hi: nat, lo: nat, k: nat, m: nat)
    requires hi < Pow2(m)
    ensures Glue(hi, lo, k) < Pow2(m + k)
    decreases k
  {
    if k > 0 { GlueBound(hi, lo / 2, k - 1, m); }
  }

  lemma {:induction false} ShrBound(x: nat, k: nat, m: nat)
    requires x < Pow2(k + m)
    ensures Shr(x, k) < Pow2(m)
    decreases k
  {
    if k > 0 { ShrBound(x / 2, k - 1, m); }
  }

  lemma {:induction false} LowSmall(x: nat, k: nat)
    requires x < Pow2(k)
    ensures Low(x, k) == x && Shr(x, k) == 0
    decreases k
  {
    if k > 0 { LowSmall(x / 2, k - 1); }
  }

  lemma {:induction false} ShrZero(k: nat)
    ensures Shr(0, k) == 0 && Low(0, k) == 0
  {
    if k > 0 { ShrZero(k - 1); }
  }

  /** Counting up by one either stays within the low k bits or carries out of them. */
  lemma {:induction false} Increment(x: nat, k: nat)
    ensures Low(x, k) + 1 < Pow2(k) ==> Low(x + 1, k) == Low(x, k) + 1 && Shr(x + 1, k) == Shr(x, k)
    ensures Low(x, k) + 1 == Pow2(k) ==> Low(x + 1, k) == 0 && Shr(x + 1, k) == Shr(x, k) + 1
    decreases k
  {
    if k > 0 && x % 2 == 1 {
      Increment(x / 2, k - 1);
      assert (x + 1) / 2 == x / 2 + 1;
    } else if k > 0 {
      assert (x + 1) / 2 == x / 2;
    }
  }

  /** The low a + b bits are a bits above b bits. */
  lemma {:induction false} LowSplit(x: nat, a: nat, b: nat)
    ensures Low(x, a + b) == Glue(Low(Shr(x, b), a), x, b)
    decreases b
  {
    if b > 0 { LowSplit(x / 2, a, b - 1); }
  }

  /** The halves of a + b low bits can be read off it. */
  lemma {:induction false} LowHalves(x: nat, a: nat, b: nat)
    ensures Low(Low(x, a + b), b) == Low(x, b) && Shr(Low(x, a + b), b) == Low(Shr(x, b), a)
    decreases b
  {
    hide Low, Shr, Pow2;
    if b == 0 {
      Unshifted(x);
      Unshifted(Low(x, a));
    } else {
      LowHalves(x / 2, a, b - 1);
      LowUnfold(x, a + b);
      LowUnfold(Low(x, a + b), b);
      LowUnfold(x, b);
    }
  }

  lemma LowUnfold(x: nat, k: nat)
    requires k > 0
    ensures Low(x, k) == 2 * Low(x / 2, k - 1) + x % 2 && Low(x, k) / 2 == Low(x / 2, k - 1)
    ensures Low(x, k) % 2 == x % 2 && Shr(x, k) == Shr(x / 2, k - 1)
  {
  }

  lemma Unshifted(x: nat)
    ensures Shr(x, 0) == x && Low(x, 0) == 0
  {
  }

  /** All a + b low bits are clear, or set, when those of both halves are. */
  lemma {:induction false} LowExtremes(x: nat, a: nat, b: nat)
    ensures Low(x, a + b) == 0 <==> Low(Shr(x, b), a) == 0 && Low(x, b) == 0
    ensures Low(x, a + b) == Pow2(a + b) - 1 <==> Low(Shr(x, b), a) == Pow2(a) - 1 && Low(x, b) == Pow2(b) - 1
    decreases b
  {
    if b > 0 {
      assert a + b - 1 == a + (b - 1);
      LowExtremes(x / 2, a, b - 1);
    }
  }

  /** Dropping m bits of a word below 2^(j + m) keeps its order against 2^j, its
      difference to it and its complement. */
  lemma {:induction false} ShrCompare(x: nat, j: nat, m: nat)
    ensures x >= Pow2(j + m) <==> Shr(x, m) >= Pow2(j)
    ensures x >= Pow2(j + m) ==> Shr(x - Pow2(j + m), m) == Shr(x, m) - Pow2(j)
    ensures x < Pow2(j + m) ==> Shr(Pow2(j + m) - 1 - x, m) == Pow2(j) - 1 - Shr(x, m)
    decreases m
  {
    if m > 0 {
      assert j + m - 1 == j + (m - 1);
      var p := Pow2(j + (m - 1));
      ShrCompare(x / 2, j, m - 1);
      if x >= 2 * p { assert (x - 2 * p) / 2 == x / 2 - p; } else { assert (2 * p - 1 - x) / 2 == p - 1 - x / 2; }
    }
  }

  lemma {:induction false} ShrGlue(hi: nat, lo: nat, a: nat, b: nat)
    ensures Shr(Glue(hi, lo, a + b), b) == Glue(hi, Shr(lo, b), a)
    decreases b
  {
    if b > 0 { ShrGlue(hi, lo / 2, a, b - 1); }
  }

  // ----- bits

  /** Bits at or above the width are clear. */
  lemma BitAbove(x: nat, m: nat, k: nat)
    requires x < Pow2(m) && m <= k
    ensures !Bit(x, k)
  {
    LowSmall(x, m);
    ShrAdd(x, m, k - m);
    ShrZero(k - m);
  }

  /** Two words of width m with the same bits are the same word. */
  lemma {:induction false} SameBits(a: nat, b: nat, m: nat)
    requires a < Pow2(m) && b < Pow2(m)
    requires forall k: nat :: k < m ==> Bit(a, k) == Bit(b, k)
    ensures a == b
  {
    if m > 0 {
      assert Bit(a, 0) == Bit(b, 0);
      forall k: nat | k < m - 1
        ensures Bit(a / 2, k) == Bit(b / 2, k)
      {
        assert Bit(a, k + 1) == Bit(b, k + 1);
      }
      SameBits(a / 2, b / 2, m - 1);
    }
  }

  /** The bits of a word glued together from a high part and m low bits. */
  lemma {:induction false} BitGlue(hi: nat, lo: nat, m: nat, k: nat)
    ensures Bit(Glue(hi, lo, m), k) == if k < m then Bit(lo, k) else Bit(hi, k - m)
    decreases m
  {
    if m > 0 && k > 0 { BitGlue(hi, lo / 2, m - 1, k - 1); }
  }

  // ----- exclusive or

  lemma {:induction false} XorBit(a: nat, b: nat, k: nat)
    ensures Bit(Xor(a, b), k) == (Bit(a, k) != Bit(b, k))
    decreases k
  {
    if k > 0 { XorBit(a / 2, b / 2, k - 1); }
  }

  lemma {:induction false} XorZero(a: nat)
    ensures Xor(a, 0) == a
  {
    if a > 0 { XorZero(a / 2); }
  }

  /** How the operators act on a word and its last bit. */
  lemma Halves(a: nat, b: nat)
    ensures Xor(a, b) / 2 == Xor(a / 2, b / 2) && Xor(a, b) % 2 == ToNat(a % 2 != b % 2)
    ensures And(a, b) / 2 == And(a / 2, b / 2) && And(a, b) % 2 == ToNat(a % 2 == 1 && b % 2 == 1)
  {
  }

  lemma ZeroOps()
    ensures Xor(0, 0) == 0
  {
  }

  lemma {:induction false} XorComm(a: nat, b: nat)
    ensures Xor(a, b) == Xor(b, a)
    decreases a + b
  {
    if !(a == 0 && b == 0) { XorComm(a / 2, b / 2); }
  }

  lemma {:induction false} XorAssoc(a: nat, b: nat, c: nat)
    ensures Xor(Xor(a, b), c) == Xor(a, Xor(b, c))
    decreases a + b + c
  {
    hide Xor, And;
    if a == 0 && b == 0 && c == 0 {
      ZeroOps();
    } else {
      Halves(a, b);
      Halves(b, c);
      Halves(Xor(a, b), c);
      Halves(a, Xor(b, c));
      XorAssoc(a / 2, b / 2, c / 2);
    }
  }

  /** x ^ y ^ y is x again. */
  lemma {:induction false} XorCancel(a: nat, b: nat)
    ensures Xor(Xor(a, b), b) == a
    decreases a + b
  {
    if !(a == 0 && b == 0) { XorCancel(a / 2, b / 2); }
  }

  lemma {:induction false} XorBound(a: nat, b: nat, m: nat)
    requires a < Pow2(m) && b < Pow2(m)
    ensures Xor(a, b) < Pow2(m)
    decreases m
  {
    if m > 0 { XorBound(a / 2, b / 2, m - 1); }
  }

  /** Exclusive or shifts along with its operands. */
  lemma {:induction false} XorShift(a: nat, b: nat, k: nat)
    ensures Shr(Xor(a, b), k) == Xor(Shr(a, k), Shr(b, k))
    decreases k
  {
    hide Xor, Shr;
    if k == 0 {
      Unshifted(Xor(a, b));
      Unshifted(a);
      Unshifted(b);
    } else {
      XorShift(a / 2, b / 2, k - 1);
      Halves(a, b);
      LowUnfold(Xor(a, b), k);
      LowUnfold(a, k);
      LowUnfold(b, k);
    }
  }

  // ----- the masked operations of the transform

  lemma {:induction false} AndZero(x: nat)
    ensures And(x, 0) == 0
  {
    if x > 0 { AndZero(x / 2); }
  }

  /** `x & Q` for Q = 2^k tests bit k. */
  lemma {:induction false} AndPow2(x: nat, k: nat)
    ensures (And(x, Pow2(k)) != 0) == Bit(x, k)
    decreases k
  {
    if k == 0 { AndZero(x / 2); } else { AndPow2(x / 2, k - 1); }
  }

  /** `x & P` for P = 2^k - 1 keeps the low k bits. */
  lemma {:induction false} AndMask(x: nat, k: nat)
    ensures And(x, Pow2(k) - 1) == Low(x, k)
    decreases k
  {
    if k == 0 { AndZero(x); } else { AndMask(x / 2, k - 1); }
  }

  /** The word x with its low k bits replaced by those of lo. */
  function Join(x: nat, lo: nat, k: nat): nat { Glue(Shr(x, k), lo, k) }

  lemma JoinHalves(x: nat, lo: nat, k: nat)
    requires k > 0
    ensures Join(x, lo, k) == 2 * Join(x / 2, lo / 2, k - 1) + lo % 2
    ensures (Pow2(k) - 1) / 2 == Pow2(k - 1) - 1 && (Pow2(k) - 1) % 2 == 1
  {
  }

  /** `x ^= P` with P = 2^k - 1 complements the low k bits and keeps the rest. */
  lemma {:induction false} XorMask(x: nat, k: nat)
    ensures Xor(x, Pow2(k) - 1) == Join(x, Pow2(k) - 1 - Low(x, k), k)
    decreases k
  {
    if k == 0 { XorZero(x); } else { XorMask(x / 2, k - 1); }
  }

  /** Exclusive or with the masked difference copies the low k bits of y into x. */
  lemma {:induction false} XorExchange(x: nat, y: nat, k: nat)
    ensures Xor(x, And(Xor(x, y), Pow2(k) - 1)) == Join(x, y, k)
    decreases k
  {
    hide Xor, And, Join, Pow2;
    if k == 0 {
      XorExchangeNone(x, y);
    } else {
      var a, m := Xor(x, y), Pow2(k) - 1;
      JoinHalves(x, y, k);
      Halves(x, y);
      Halves(a, m);
      Halves(x, And(a, m));
      XorExchange(x / 2, y / 2, k - 1);
    }
  }

  lemma XorExchangeNone(x: nat, y: nat)
    ensures Xor(x, And(Xor(x, y), Pow2(0) - 1)) == Join(x, y, 0)
  {
    AndZero(Xor(x, y));
    XorZero(x);
  }
}
