/** The n-dimensional Hilbert curve as a recursive function, without machine words.

    A curve of order k visits every point of the cube [0, 2^k)^n. The top n bits of
    the index choose one of the 2^n sub-cubes by their Gray code g; inside it the
    curve of order k - 1 is laid out after a signed permutation of the axes that g
    determines. The carry c is the lowest index bit of the level above; it is what
    makes the Gray code of the whole index restart in the right place at each level. */
module HilbertCurve {
  import opened Bits

  type Point = seq<nat>

  predicate InCube(x: Point, p: nat) {
    forall i :: 0 <= i < |x| ==> x[i] < p
  }

  // ----- the signed permutation of one level

  /** One elementary step on points below p: complement coordinate 0, or exchange
      coordinates 0 and i. */
  function Step(flip: bool, x: Point, i: nat, p: nat): (y: Point)
    requires i < |x| && InCube(x, p)
    ensures |y| == |x| && InCube(y, p)
  {
    if flip then x[0 := p - 1 - x[0]] else x[0 := x[i]][i := x[0]]
  }

  /** The steps of dimensions j-1, ..., 0 in descending order, steered by g. */
  function Down(g: seq<bool>, x: Point, j: nat, p: nat): (y: Point)
    requires |g| == |x| && j <= |x| && InCube(x, p)
    ensures |y| == |x| && InCube(y, p)
    decreases j
  {
    if j == 0 then x else Down(g, Step(g[j - 1], x, j - 1, p), j - 1, p)
  }

  /** The steps of dimensions 0, ..., j-1 in ascending order, steered by g. */
  function Up(g: seq<bool>, x: Point, j: nat, p: nat): (y: Point)
    requires |g| == |x| && j <= |x| && InCube(x, p)
    ensures |y| == |x| && InCube(y, p)
    decreases j
  {
    if j == 0 then x else Step(g[j - 1], Up(g, x, j - 1, p), j - 1, p)
  }

  lemma StepInvolution(flip: bool, x: Point, i: nat, p: nat)
    requires i < |x| && InCube(x, p)
    ensures Step(flip, Step(flip, x, i, p), i, p) == x
  {
  }

  lemma {:induction false} UpDown(g: seq<bool>, x: Point, j: nat, p: nat)
    requires |g| == |x| && j <= |x| && InCube(x, p)
    ensures Up(g, Down(g, x, j, p), j, p) == x
    decreases j
  {
    if j > 0 {
      var y := Step(g[j - 1], x, j - 1, p);
      UpDown(g, y, j - 1, p);
      StepInvolution(g[j - 1], x, j - 1, p);
    }
  }

  lemma {:induction false} DownUp(g: seq<bool>, x: Point, j: nat, p: nat)
    requires |g| == |x| && j <= |x| && InCube(x, p)
    ensures Down(g, Up(g, x, j, p), j, p) == x
    decreases j
  {
    if j > 0 {
      var y := Up(g, x, j - 1, p);
      StepInvolution(g[j - 1], y, j - 1, p);
      DownUp(g, x, j - 1, p);
    }
  }

  // ----- attaching and detaching the top bit of every coordinate

  function Attach(g: seq<bool>, x: Point, p: nat): (y: Point)
    requires |g| == |x|
    ensures |y| == |x|
    ensures forall i :: 0 <= i < |x| ==> y[i] == if g[i] then p + x[i] else x[i]
  {
    seq(|x|, i requires 0 <= i < |x| => if g[i] then p + x[i] else x[i])
  }

  function TopBits(x: Point, p: nat): (g: seq<bool>)
    ensures |g| == |x|
    ensures forall i :: 0 <= i < |x| ==> g[i] == (x[i] >= p)
  {
    seq(|x|, i requires 0 <= i < |x| => x[i] >= p)
  }

  function Rest(x: Point, p: nat): (y: Point)
    requires InCube(x, 2 * p)
    ensures |y| == |x| && InCube(y, p)
    ensures forall i :: 0 <= i < |x| ==> y[i] == if x[i] >= p then x[i] - p else x[i]
  {
    seq(|x|, i requires 0 <= i < |x| => if x[i] >= p then x[i] - p else x[i])
  }

  // ----- the Gray code of one n-bit digit, most significant bit first

  function GrayColumn(d: nat, n: nat, c: bool): (g: seq<bool>)
    ensures |g| == n
    decreases n
  {
    if n == 0 then []
    else
      var top := Bit(d, n - 1);
      [top != c] + GrayColumn(d, n - 1, top)
  }

  function Ungray(g: seq<bool>, c: bool): (d: nat)
    decreases |g|
  {
    if |g| == 0 then 0
    else
      var top := g[0] != c;
      Glue(ToNat(top), Ungray(g[1..], top), |g| - 1)
  }

  // ----- the curve and its inverse

  /** The point with top bits g whose remaining bits are y, laid out as g prescribes. */
  function Level(g: seq<bool>, y: Point, p: nat): (x: Point)
    requires |g| == |y| && InCube(y, p)
    ensures |x| == |y| && InCube(x, 2 * p)
  {
    Attach(g, Down(g, y, |y|, p), p)
  }

  /** The remaining bits of x, with the layout of its top bits undone. */
  function Unlevel(x: Point, p: nat): (y: Point)
    requires InCube(x, 2 * p)
    ensures |y| == |x| && InCube(y, p)
  {
    Up(TopBits(x, p), Rest(x, p), |x|, p)
  }

  /** The number of index bits of k levels: n * k. */
  function Span(n: nat, k: nat): nat {
    if k == 0 then 0 else n + Span(n, k - 1)
  }

  /** The point that index h reaches on the curve of order k with carry c. */
  function CurvePoint(h: nat, k: nat, n: nat, c: bool): (x: Point)
    requires n >= 1
    ensures |x| == n && InCube(x, Pow2(k))
    decreases k
  {
    if k == 0 then seq(n, _ => 0)
    else
      var d := Shr(h, Span(n, k - 1));
      Level(GrayColumn(d, n, c), CurvePoint(h, k - 1, n, Bit(d, 0)), Pow2(k - 1))
  }

  /** The index at which the curve of order k with carry c visits x. */
  function CurveIndex(x: Point, k: nat, c: bool): (h: nat)
    requires |x| >= 1 && InCube(x, Pow2(k))
    decreases k
  {
    if k == 0 then 0
    else
      var d := Ungray(TopBits(x, Pow2(k - 1)), c);
      Glue(d, CurveIndex(Unlevel(x, Pow2(k - 1)), k - 1, Bit(d, 0)), Span(|x|, k - 1))
  }

  // ----- the Gray code of a digit

  lemma {:induction false} UngrayBound(g: seq<bool>, c: bool)
    ensures Ungray(g, c) < Pow2(|g|)
  {
    if |g| > 0 { GlueBound(ToNat(g[0] != c), Ungray(g[1..], g[0] != c), |g| - 1, 1); }
  }

  lemma {:induction false} UngrayGray(d: nat, n: nat, c: bool)
    ensures Ungray(GrayColumn(d, n, c), c) == Low(d, n)
    decreases n
  {
    if n > 0 {
      var top := Bit(d, n - 1);
      assert GrayColumn(d, n, c)[1..] == GrayColumn(d, n - 1, top);
      UngrayGray(d, n - 1, top);
      TopBit(d, n);
      LowLow(d, n - 1);
      GlueLow(ToNat(top), Low(d, n - 1), d, n - 1);
    }
  }

  /** The top of n bits, and the bits below it. */
  lemma TopBit(d: nat, n: nat)
    requires n > 0
    ensures Low(d, n) == Glue(ToNat(Bit(d, n - 1)), d, n - 1)
    ensures Low(d, n) == 0 <==> !Bit(d, n - 1) && Low(d, n - 1) == 0
    ensures Low(d, n) == Pow2(n) - 1 <==> Bit(d, n - 1) && Low(d, n - 1) == Pow2(n - 1) - 1
    ensures Low(Low(d, n), n - 1) == Low(d, n - 1) && Shr(Low(d, n), n - 1) == ToNat(Bit(d, n - 1))
  {
    hide Low, Shr, Glue, Pow2, Bit;
    LowOne(d, n - 1);
    LowSplit(d, 1, n - 1);
    LowHalves(d, 1, n - 1);
    LowExtremes(d, 1, n - 1);
  }

  lemma LowOne(d: nat, k: nat)
    ensures Low(Shr(d, k), 1) == ToNat(Bit(d, k)) && Pow2(1) == 2
  {
  }

  lemma LowLow(x: nat, k: nat)
    ensures Low(Low(x, k), k) == Low(x, k)
  {
    LowSmall(Low(x, k), k);
  }

  /** Only the low k bits of the lower part count. */
  lemma {:induction false} GlueLow(hi: nat, a: nat, b: nat, k: nat)
    requires Low(a, k) == Low(b, k)
    ensures Glue(hi, a, k) == Glue(hi, b, k)
  {
    SplitWord(Glue(hi, a, k), k);
    GlueValue(hi, a, k);
    GlueValue(hi, b, k);
  }

  /** Only the low n bits of the digit matter. */
  lemma {:induction false} GrayColumnLow(d: nat, e: nat, n: nat, c: bool)
    requires Low(d, n) == Low(e, n)
    ensures GrayColumn(d, n, c) == GrayColumn(e, n, c)
    decreases n
  {
    if n > 0 {
      TopBit(d, n);
      TopBit(e, n);
      GrayColumnLow(d, e, n - 1, Bit(d, n - 1));
    }
  }

  lemma {:induction false} GrayUngray(g: seq<bool>, c: bool)
    ensures GrayColumn(Ungray(g, c), |g|, c) == g
    decreases |g|
  {
    hide Glue, Low, Shr;
    if |g| > 0 {
      var n := |g|;
      var top := g[0] != c;
      var low := Ungray(g[1..], top);
      GlueWord(ToNat(top), low, n - 1);
      GrayColumnLow(Ungray(g, c), low, n - 1, top);
      GrayUngray(g[1..], top);
      assert g == [g[0]] + g[1..];
    }
  }

  /** The Gray column c, 0, ..., 0. */
  function Spike(n: nat, c: bool): (g: seq<bool>)
    ensures |g| == n && forall i :: 0 <= i < n ==> g[i] == (i == 0 && c)
  {
    seq(n, i => i == 0 && c)
  }

  /** The first and the last digit have a Gray column with at most its top bit set. */
  lemma {:induction false} GrayEnds(d: nat, n: nat, c: bool)
    ensures Low(d, n) == 0 ==> GrayColumn(d, n, c) == Spike(n, c)
    ensures Low(d, n) == Pow2(n) - 1 ==> GrayColumn(d, n, c) == Spike(n, !c)
    decreases n
  {
    if n > 0 {
      TopBit(d, n);
      GrayEnds(d, n - 1, Bit(d, n - 1));
    }
  }

  lemma LowParity(d: nat, n: nat)
    requires n > 0
    ensures Bit(d, 0) == (Low(d, n) % 2 == 1)
    ensures Bit(Low(d, n), 0) == Bit(d, 0)
    ensures Low(d, n) == Pow2(n) - 1 ==> Bit(d, 0)
    ensures Low(d, n) == 0 ==> !Bit(d, 0)
  {
    hide Low, Pow2, Bit;
    LowUnfold(d, n);
    OddPow2(n);
    OddBit(d);
    OddBit(Low(d, n));
  }

  lemma OddPow2(n: nat)
    requires n > 0
    ensures (Pow2(n) - 1) % 2 == 1
  {
  }

  lemma OddBit(d: nat)
    ensures Bit(d, 0) == (d % 2 == 1)
  {
  }

  /** What the inductions below use of the definitions of Pow2 and Low. */
  lemma Levels(h: nat, k: nat)
    ensures Low(h, 0) == 0 && Pow2(0) == 1
    ensures k > 0 ==> Pow2(k) == 2 * Pow2(k - 1)
  {
  }

  lemma GrayCons(d: nat, n: nat, c: bool)
    requires n > 0
    ensures GrayColumn(d, n, c) == [Bit(d, n - 1) != c] + GrayColumn(d, n - 1, Bit(d, n - 1))
  {
  }

  /** A bit flips from one number to the next when all bits below it are set. */
  lemma BitOfNext(d: nat, k: nat)
    ensures Low(d, k) + 1 == Pow2(k) ==> Bit(d + 1, k) == !Bit(d, k)
    ensures Low(d, k) + 1 < Pow2(k) ==> Bit(d + 1, k) == Bit(d, k)
  {
    Increment(d, k);
  }

  /** The Gray columns of d and d + 1 differ in one dimension i only; behind it there is
      a single 1, and i is the last dimension exactly when d is even. */
  lemma {:induction false} GrayStep(d: nat, n: nat, c: bool) returns (i: nat)
    requires Low(d, n) + 1 < Pow2(n)
    ensures i < n && GrayColumn(d, n, c)[i] != GrayColumn(d + 1, n, c)[i]
    ensures forall j :: 0 <= j < n && j != i ==> GrayColumn(d, n, c)[j] == GrayColumn(d + 1, n, c)[j]
    ensures forall j :: i < j < n ==> GrayColumn(d, n, c)[j] == (j == i + 1)
    ensures Bit(d, 0) == (i != n - 1)
    decreases n
  {
    hide Low, Shr, Bit, GrayColumn, Spike;
    Levels(d, n);
    TopBit(d, n);
    Increment(d, n - 1);
    BitOfNext(d, n - 1);
    GrayCons(d, n, c);
    GrayCons(d + 1, n, c);
    if Low(d, n - 1) + 1 < Pow2(n - 1) {
      i := GrayStep(d, n - 1, Bit(d, n - 1));
      i := i + 1;
    } else {
      i := 0;
      GrayEnds(d, n - 1, false);
      GrayEnds(d + 1, n - 1, true);
      if n > 1 { LowParity(d, n - 1); }
    }
  }

  // ----- the curve and its inverse undo each other

  lemma {:induction false} CurvePointLow(h: nat, l: nat, k: nat, n: nat, c: bool)
    requires n >= 1 && Low(h, Span(n, k)) == Low(l, Span(n, k))
    ensures CurvePoint(h, k, n, c) == CurvePoint(l, k, n, c)
    decreases k
  {
    if k > 0 {
      var m := Span(n, k - 1);
      var d, e := Shr(h, m), Shr(l, m);
      LowHalves(h, n, m);
      LowHalves(l, n, m);
      GrayColumnLow(d, e, n, c);
      LowParity(d, n);
      LowParity(e, n);
      CurvePointLow(h, l, k - 1, n, Bit(d, 0));
    }
  }

  lemma LevelParts(g: seq<bool>, y: Point, p: nat)
    requires |g| == |y| && InCube(y, p)
    ensures TopBits(Level(g, y, p), p) == g && Unlevel(Level(g, y, p), p) == y
  {
    var z := Down(g, y, |y|, p);
    assert TopBits(Attach(g, z, p), p) == g && Rest(Attach(g, z, p), p) == z;
    UpDown(g, y, |y|, p);
  }

  lemma LevelWhole(x: Point, p: nat)
    requires InCube(x, 2 * p)
    ensures Level(TopBits(x, p), Unlevel(x, p), p) == x
  {
    DownUp(TopBits(x, p), Rest(x, p), |x|, p);
    assert Attach(TopBits(x, p), Rest(x, p), p) == x;
  }

  /** The index found at the point of h is h, within the width of the curve. */
  lemma {:induction false} IndexOfPoint(h: nat, k: nat, n: nat, c: bool)
    requires n >= 1
    ensures CurveIndex(CurvePoint(h, k, n, c), k, c) == Low(h, Span(n, k))
    decreases k
  {
    hide Low, Shr, Glue, Pow2, Level, Unlevel, GrayColumn, Ungray;
    Levels(h, k);
    if k > 0 {
      var m := Span(n, k - 1);
      var d := Shr(h, m);
      LevelParts(GrayColumn(d, n, c), CurvePoint(h, k - 1, n, Bit(d, 0)), Pow2(k - 1));
      UngrayGray(d, n, c);
      LowParity(d, n);
      IndexOfPoint(h, k - 1, n, Bit(d, 0));
      LowSplit(h, n, m);
      LowLow(h, m);
      GlueLow(Low(d, n), Low(h, m), h, m);
    }
  }

  lemma {:induction false} IndexBound(x: Point, k: nat, c: bool)
    requires |x| >= 1 && InCube(x, Pow2(k))
    ensures CurveIndex(x, k, c) < Pow2(Span(|x|, k))
    decreases k
  {
    if k > 0 {
      var g := TopBits(x, Pow2(k - 1));
      var d := Ungray(g, c);
      UngrayBound(g, c);
      GlueBound(d, CurveIndex(Unlevel(x, Pow2(k - 1)), k - 1, Bit(d, 0)), Span(|x|, k - 1), |x|);
    }
  }

  /** The curve at the index of x is x. */
  lemma {:induction false} PointOfIndex(x: Point, k: nat, c: bool)
    requires |x| >= 1 && InCube(x, Pow2(k))
    ensures CurvePoint(CurveIndex(x, k, c), k, |x|, c) == x
    decreases k
  {
    hide Low, Shr, Glue, Pow2, Level, Unlevel, GrayColumn, Ungray;
    Levels(0, k);
    if k > 0 {
      var m, p := Span(|x|, k - 1), Pow2(k - 1);
      var d := Ungray(TopBits(x, p), c);
      var y := Unlevel(x, p);
      var low := CurveIndex(y, k - 1, Bit(d, 0));
      GlueWord(d, low, m);
      CurvePointLow(Glue(d, low, m), low, k - 1, |x|, Bit(d, 0));
      PointOfIndex(y, k - 1, Bit(d, 0));
      GrayUngray(TopBits(x, p), c);
      LevelWhole(x, p);
    }
  }

  // ----- where a curve enters and leaves its cube

  /** The corner (p - 1, 0, ..., 0), or the origin. */
  function Corner(n: nat, p: nat, far: bool): (x: Point)
    requires p > 0
    ensures |x| == n && forall i :: 0 <= i < n ==> x[i] == if i == 0 && far then p - 1 else 0
  {
    seq(n, i => if i == 0 && far then p - 1 else 0)
  }

  lemma {:induction false} DownOrigin(n: nat, c: bool, j: nat, p: nat)
    requires n >= 1 && 1 <= j <= n && p > 0
    ensures Down(Spike(n, c), Corner(n, p, false), j, p) == Corner(n, p, c)
    decreases j
  {
    var g, x := Spike(n, c), Corner(n, p, false);
    if j > 1 {
      assert Step(g[j - 1], x, j - 1, p) == x;
      DownOrigin(n, c, j - 1, p);
    } else {
      assert Step(g[0], x, 0, p) == Corner(n, p, c);
      assert Down(g, Step(g[0], x, 0, p), 0, p) == Step(g[0], x, 0, p);
    }
  }

  /** With carry c the curve runs from Corner(c) to Corner(!c). */
  lemma {:induction false} CurveEnds(h: nat, k: nat, n: nat, c: bool)
    requires n >= 1
    ensures Low(h, Span(n, k)) == 0 ==> CurvePoint(h, k, n, c) == Corner(n, Pow2(k), c)
    ensures Low(h, Span(n, k)) == Pow2(Span(n, k)) - 1 ==> CurvePoint(h, k, n, c) == Corner(n, Pow2(k), !c)
    decreases k
  {
    hide Low, Shr, Level, GrayColumn, Spike, Corner;
    Levels(h, k);
    if k > 0 {
      var m, p := Span(n, k - 1), Pow2(k - 1);
      var d := Shr(h, m);
      LowExtremes(h, n, m);
      GrayEnds(d, n, c);
      LowParity(d, n);
      CurveEnds(h, k - 1, n, Bit(d, 0));
      LevelOrigin(n, c, p);
      LevelOrigin(n, !c, p);
    }
  }

  lemma LevelOrigin(n: nat, c: bool, p: nat)
    requires n >= 1 && p > 0
    ensures Level(Spike(n, c), Corner(n, p, false), p) == Corner(n, 2 * p, c)
  {
    DownOrigin(n, c, n, p);
  }

  // ----- neighbours on the curve are neighbours in the cube

  /** x and y differ in coordinate i only, and there by exactly one. */
  predicate AdjacentAt(x: Point, y: Point, i: nat) {
    && |x| == |y| && i < |x|
    && (x[i] == y[i] + 1 || y[i] == x[i] + 1)
    && forall j :: 0 <= j < |x| && j != i ==> x[j] == y[j]
  }

  /** The signed permutation of a level keeps neighbours neighbours. */
  lemma {:induction false} DownAdjacent(g: seq<bool>, x: Point, y: Point, j: nat, p: nat, a: nat) returns (b: nat)
    requires |g| == |x| && j <= |x| && InCube(x, p) && InCube(y, p) && AdjacentAt(x, y, a)
    ensures AdjacentAt(Down(g, x, j, p), Down(g, y, j, p), b)
    decreases j
  {
    if j == 0 {
      b := a;
    } else {
      var i := j - 1;
      b := if g[i] then a else if a == 0 then i else if a == i then 0 else a;
      b := DownAdjacent(g, Step(g[i], x, i, p), Step(g[i], y, i, p), i, p, b);
    }
  }

  /** Steps below j leave a difference at coordinate i >= j as it is. */
  lemma {:induction false} DownFrame(g: seq<bool>, f: seq<bool>, x: Point, y: Point, j: nat, i: nat, p: nat)
    requires |g| == |f| == |x| == |y| && j <= i < |x| && InCube(x, p) && InCube(y, p)
    requires forall t :: 0 <= t < j ==> g[t] == f[t]
    requires forall t :: 0 <= t < |x| && t != i ==> x[t] == y[t]
    ensures Down(g, x, j, p)[i] == x[i] && Down(f, y, j, p)[i] == y[i]
    ensures forall t :: 0 <= t < |x| && t != i ==> Down(g, x, j, p)[t] == Down(f, y, j, p)[t]
    decreases j
  {
    if j > 0 {
      DownFrame(g, f, Step(g[j - 1], x, j - 1, p), Step(f[j - 1], y, j - 1, p), j - 1, i, p);
    }
  }

  /** Before dimension i takes its turn, the corner has become the far corner. */
  lemma {:induction false} DownToFar(g: seq<bool>, n: nat, j: nat, i: nat, p: nat)
    requires n >= 1 && |g| == n && i < j <= n && p > 0
    requires forall t :: i < t < n ==> g[t] == (t == i + 1)
    ensures Down(g, Corner(n, p, j == i + 1), j, p) == Down(g, Corner(n, p, true), i + 1, p)
    decreases j
  {
    if j > i + 1 {
      var x := Corner(n, p, false);
      assert Step(g[j - 1], x, j - 1, p) == Corner(n, p, j - 1 == i + 1);
      DownToFar(g, n, j - 1, i, p);
    }
  }

  /** Two sub-cubes that share a face: the exit of one touches the entry of the other. */
  lemma LevelAdjacent(g: seq<bool>, f: seq<bool>, n: nat, i: nat, p: nat)
    requires n >= 1 && |g| == |f| == n && i < n && p > 0 && g[i] && !f[i]
    requires forall t :: 0 <= t < n && t != i ==> g[t] == f[t]
    requires forall t :: i < t < n ==> g[t] == (t == i + 1)
    ensures AdjacentAt(Level(g, Corner(n, p, i == n - 1), p), Level(f, Corner(n, p, i == n - 1), p), i)
  {
    hide Down, Corner, Step;
    DownToFar(g, n, n, i, p);
    DownToFar(f, n, n, i, p);
    var e := Corner(n, p, true);
    DownNext(g, e, i, p);
    DownNext(f, e, i, p);
    FarSteps(n, p, i);
    DownFrame(g, f, Step(true, e, i, p), Step(false, e, i, p), i, i, p);
  }

  lemma DownNext(g: seq<bool>, x: Point, i: nat, p: nat)
    requires |g| == |x| && i < |x| && InCube(x, p)
    ensures Down(g, x, i + 1, p) == Down(g, Step(g[i], x, i, p), i, p)
  {
  }

  /** From the far corner, complementing goes to the origin and exchanging moves the
      large coordinate to dimension i. */
  lemma FarSteps(n: nat, p: nat, i: nat)
    requires n >= 1 && p > 0 && i < n
    ensures
      var x, y := Step(true, Corner(n, p, true), i, p), Step(false, Corner(n, p, true), i, p);
      x[i] == 0 && y[i] == p - 1 && forall t :: 0 <= t < n && t != i ==> x[t] == y[t]
  {
  }

  lemma AdjacentSymmetric(x: Point, y: Point, i: nat)
    requires AdjacentAt(x, y, i)
    ensures AdjacentAt(y, x, i)
  {
  }

  /** Consecutive indices reach points that differ in exactly one coordinate, by exactly 1. */
  lemma {:induction false} CurveAdjacent(h: nat, k: nat, n: nat, c: bool) returns (i: nat)
    requires n >= 1 && Low(h, Span(n, k)) + 1 < Pow2(Span(n, k))
    ensures AdjacentAt(CurvePoint(h, k, n, c), CurvePoint(h + 1, k, n, c), i)
    decreases k
  {
    hide Low, Shr, Pow2, Level, GrayColumn, AdjacentAt;
    Levels(h, k);
    var m, p := Span(n, k - 1), Pow2(k - 1);
    var d := Shr(h, m);
    Increment(h, m);
    var g := GrayColumn(d, n, c);
    if Low(h, m) + 1 < Pow2(m) {
      i := CurveAdjacent(h, k - 1, n, Bit(d, 0));
      i := SameLevel(g, CurvePoint(h, k - 1, n, Bit(d, 0)), CurvePoint(h + 1, k - 1, n, Bit(d, 0)), p, i);
    } else {
      LowExtremes(h, n, m);
      i := GrayStep(d, n, c);
      Levels(d, 0);
      BitOfNext(d, 0);
      var f := GrayColumn(d + 1, n, c);
      CurveEnds(h, k - 1, n, Bit(d, 0));
      CurveEnds(h + 1, k - 1, n, Bit(d + 1, 0));
      if g[i] {
        LevelAdjacent(g, f, n, i, p);
      } else {
        LevelAdjacent(f, g, n, i, p);
        AdjacentSymmetric(Level(f, Corner(n, p, i == n - 1), p), Level(g, Corner(n, p, i == n - 1), p), i);
      }
    }
  }

  lemma SameLevel(g: seq<bool>, x: Point, y: Point, p: nat, a: nat) returns (b: nat)
    requires |g| == |x| && InCube(x, p) && InCube(y, p) && AdjacentAt(x, y, a)
    ensures AdjacentAt(Level(g, x, p), Level(g, y, p), b)
  {
    b := DownAdjacent(g, x, y, |x|, p, a);
  }

  // ----- the curve is nested: coarse cubes are visited one after the other

  /** The cell of side 2^m that contains x. */
  function Coarse(x: Point, m: nat): (y: Point)
    ensures |y| == |x| && forall i :: 0 <= i < |x| ==> y[i] == Shr(x[i], m)
  {
    seq(|x|, i requires 0 <= i < |x| => Shr(x[i], m))
  }

  lemma CoarseCube(x: Point, j: nat, m: nat)
    requires InCube(x, Pow2(j + m))
    ensures InCube(Coarse(x, m), Pow2(j))
  {
    forall i | 0 <= i < |x| ensures Coarse(x, m)[i] < Pow2(j) { ShrBound(x[i], m, j); }
  }

  lemma CoarseStep(flip: bool, x: Point, i: nat, j: nat, m: nat)
    requires i < |x| && InCube(x, Pow2(j + m)) && InCube(Coarse(x, m), Pow2(j))
    ensures Step(flip, Coarse(x, m), i, Pow2(j)) == Coarse(Step(flip, x, i, Pow2(j + m)), m)
  {
    ShrCompare(x[0], j, m);
  }

  lemma {:induction false} CoarseUp(g: seq<bool>, x: Point, t: nat, j: nat, m: nat)
    requires |g| == |x| && t <= |x| && InCube(x, Pow2(j + m)) && InCube(Coarse(x, m), Pow2(j))
    ensures Up(g, Coarse(x, m), t, Pow2(j)) == Coarse(Up(g, x, t, Pow2(j + m)), m)
    decreases t
  {
    if t > 0 {
      CoarseUp(g, x, t - 1, j, m);
      var y := Up(g, x, t - 1, Pow2(j + m));
      CoarseStep(g[t - 1], y, t - 1, j, m);
    }
  }

  lemma CoarseTop(x: Point, j: nat, m: nat)
    requires InCube(x, 2 * Pow2(j + m)) && InCube(Coarse(x, m), 2 * Pow2(j))
    ensures TopBits(Coarse(x, m), Pow2(j)) == TopBits(x, Pow2(j + m))
    ensures Rest(Coarse(x, m), Pow2(j)) == Coarse(Rest(x, Pow2(j + m)), m)
  {
    hide Pow2, Shr;
    forall i | 0 <= i < |x|
      ensures TopBits(Coarse(x, m), Pow2(j))[i] == TopBits(x, Pow2(j + m))[i]
      ensures Rest(Coarse(x, m), Pow2(j))[i] == Coarse(Rest(x, Pow2(j + m)), m)[i]
    {
      ShrCompare(x[i], j, m);
    }
  }

  lemma CoarseUnlevel(x: Point, j: nat, m: nat)
    requires InCube(x, 2 * Pow2(j + m)) && InCube(Coarse(x, m), 2 * Pow2(j))
    ensures Unlevel(Coarse(x, m), Pow2(j)) == Coarse(Unlevel(x, Pow2(j + m)), m)
  {
    CoarseTop(x, j, m);
    CoarseUp(TopBits(x, Pow2(j + m)), Rest(x, Pow2(j + m)), |x|, j, m);
  }

  lemma {:induction false} SpanAdd(n: nat, j: nat, m: nat)
    ensures Span(n, j + m) == Span(n, j) + Span(n, m)
  {
    if j > 0 { SpanAdd(n, j - 1, m); }
  }

  lemma {:induction false} SpanIsProduct(n: nat, k: nat)
    ensures Span(n, k) == n * k
  {
    if k > 0 { SpanIsProduct(n, k - 1); }
  }

  /** Dropping m bits of every coordinate drops n * m bits of the index. */
  lemma {:induction false} CurveIndexCoarse(x: Point, j: nat, m: nat, c: bool)
    requires |x| >= 1 && InCube(x, Pow2(j + m)) && InCube(Coarse(x, m), Pow2(j))
    ensures CurveIndex(Coarse(x, m), j, c) == Shr(CurveIndex(x, j + m, c), Span(|x|, m))
    decreases j
  {
    hide Pow2, Shr, Low, Glue, Unlevel, Coarse, Ungray;
    if j == 0 {
      IndexBound(x, m, c);
      LowSmall(CurveIndex(x, m, c), Span(|x|, m));
    } else {
      var i := j - 1;
      assert j + m - 1 == i + m;
      Levels(0, j);
      Levels(0, j + m);
      CoarseTop(x, i, m);
      CoarseUnlevel(x, i, m);
      var y := Unlevel(x, Pow2(i + m));
      var d := Ungray(TopBits(x, Pow2(i + m)), c);
      CurveIndexCoarse(y, i, m, Bit(d, 0));
      SpanAdd(|x|, i, m);
      ShrGlue(d, CurveIndex(y, i + m, Bit(d, 0)), Span(|x|, i), Span(|x|, m));
    }
  }

  // ----- distances

  function Gap(a: nat, b: nat): nat { if a < b then b - a else a - b }

  /** The L1 distance of two points, the number of unit steps between them. */
  function Distance(x: Point, y: Point): nat
    requires |x| == |y|
  {
    if |x| == 0 then 0 else Gap(x[0], y[0]) + Distance(x[1..], y[1..])
  }

  lemma {:induction false} DistanceTriangle(x: Point, y: Point, z: Point)
    requires |x| == |y| == |z|
    ensures Distance(x, z) <= Distance(x, y) + Distance(y, z)
    decreases |x|
  {
    if |x| > 0 { DistanceTriangle(x[1..], y[1..], z[1..]); }
  }

  lemma {:induction false} DistanceSelf(x: Point)
    ensures Distance(x, x) == 0
  {
    if |x| > 0 { DistanceSelf(x[1..]); }
  }

  lemma {:induction false} DistanceAdjacent(x: Point, y: Point, i: nat)
    requires AdjacentAt(x, y, i)
    ensures Distance(x, y) == 1
    decreases |x|
  {
    if i == 0 {
      assert x[1..] == y[1..];
      DistanceSelf(x[1..]);
    } else {
      DistanceAdjacent(x[1..], y[1..], i - 1);
    }
  }
}
