/**
 * The shift-and-subtract division of src/scrn.c, `div64_slow` and `modulo`, on unsigned 64-bit values.
 *
 * The doubling loop stops one step early when it meets exactly half of the dividend, so on one family of
 * dividends the subtracting loop runs past the divisor. The family, the result on it, and the inputs on
 * which the loop never ends are determined here exactly.
 */
module Division {
  import opened Types

  ghost predicate Doubling(a: nat, b: nat, j: nat, e: nat) {
    1 <= j && e <= 1 && a == Pow2(j) * b + e
  }

  /** The dividends the guard mishandles: 2^j * b and 2^j * b + 1, j >= 1. */
  ghost predicate Trapped(a: nat, b: nat) {
    exists j: nat, e: nat :: Doubling(a, b, j, e)
  }

  /** Exactly the inputs on which `div64_slow` and `modulo` return. */
  ghost predicate Halts(a: nat, b: nat) {
    1 <= b && (Trapped(a, b) ==> a % b < b / 2)
  }

  ghost function Quotient(a: nat, b: nat): int
    requires 1 <= b
  {
    if Trapped(a, b) then a / b - 1 else a / b
  }

  ghost function Remainder(a: nat, b: nat): int
    requires 1 <= b
  {
    if Trapped(a, b) then a % b + b - b / 2 else a % b
  }

  // ---- the two loops as a machine

  /** `A`, `X`, `quotient` and `quotient_per_removal`, and which loop runs. */
  datatype Config = Config(doubling: bool, A: nat, X: nat, quotient: nat, per: nat)

  function Start(a: nat, b: nat): Config {
    Config(true, a, b, 0, 1)
  }

  function Step(c: Config): Config {
    if c.doubling then
      if c.X < c.A / 2 then c.(X := 2 * c.X, per := 2 * c.per) else c.(doubling := false)
    else
      var d := if c.A >= c.X then c.(A := c.A - c.X, quotient := c.quotient + c.per) else c;
      d.(X := c.X / 2, per := c.per / 2)
  }

  predicate Done(c: Config, b: nat) {
    !c.doubling && c.A < b
  }

  // ---- the invariant

  ghost predicate InDoubling(c: Config, a: nat, b: nat, j: nat) {
    c.doubling && c.A == a && c.quotient == 0 && c.per == Pow2(j) && c.X == b * c.per &&
    (j > 0 ==> c.X + 2 <= a)
  }

  /** Ordinary dividends: the remaining dividend is below 2X, and X is the divisor times `per`. */
  ghost predicate Ordinary(c: Config, a: nat, b: nat, k: nat) {
    !c.doubling && c.per == Pow2(k) && c.X == b * c.per && c.A < 2 * c.X && c.quotient * b + c.A == a
  }

  /** Trapped dividends: the remaining dividend stays at 2X or 2X + 1 ... */
  ghost predicate Falling(c: Config, a: nat, b: nat, k: nat, e: nat) {
    !c.doubling && c.per == Pow2(k) && c.X == b * c.per && c.A == 2 * c.X + e && c.quotient * b + c.A == a
  }

  /** ... until X has been shifted below the divisor, with the dividend still at or above it. */
  ghost predicate Below(c: Config, a: nat, b: nat, e: nat) {
    !c.doubling && c.per == 0 && c.X == b / 2 && c.A == b + e && c.quotient * b + c.A == a
  }

  ghost predicate Bottom(c: Config, a: nat, b: nat, e: nat) {
    !c.doubling && c.per == 0 && c.A == b + e - b / 2 && c.quotient * b + b + e == a && (c.A >= b ==> c.X == 0)
  }

  ghost predicate Inv(c: Config, a: nat, b: nat) {
    || (exists j: nat :: InDoubling(c, a, b, j))
    || (!Trapped(a, b) && (Ends(c, a, b) || exists k: nat :: Ordinary(c, a, b, k)))
    || (Trapped(a, b) && exists e: nat :: e <= 1 && TrappedInv(c, a, b, e))
  }

  ghost predicate Ends(c: Config, a: nat, b: nat) {
    !c.doubling && c.A < b && c.quotient * b + c.A == a
  }

  ghost predicate TrappedInv(c: Config, a: nat, b: nat, e: nat) {
    || (exists k: nat :: Falling(c, a, b, k, e))
    || Below(c, a, b, e)
    || Bottom(c, a, b, e)
  }

  lemma StartInv(a: nat, b: nat)
    ensures Inv(Start(a, b), a, b)
  {
    assert InDoubling(Start(a, b), a, b, 0);
  }

  lemma DoubleProduct(b: nat, p: nat)
    ensures b * (2 * p) == 2 * (b * p) && 2 * p * b == 2 * (b * p)
  {
  }

  lemma DoublingStep(c: Config, a: nat, b: nat, j: nat)
    requires 1 <= b && InDoubling(c, a, b, j)
    ensures Inv(Step(c), a, b)
  {
    var d := Step(c);
    if c.X < c.A / 2 {
      assert InDoubling(d, a, b, j + 1) by {
        DoubleProduct(b, c.per);
      }
    } else if a >= 2 * c.X {
      var e := a - 2 * c.X;
      assert Doubling(a, b, j + 1, e) by {
        DoubleProduct(b, c.per);
      }
      assert Falling(d, a, b, j, e);
      assert TrappedInv(d, a, b, e);
    } else {
      NotTrapped(c, a, b, j);
      assert Ordinary(d, a, b, j);
    }
  }

  /** Between two consecutive doublings of the divisor no dividend is trapped. */
  lemma NotTrapped(c: Config, a: nat, b: nat, j: nat)
    requires 1 <= b && InDoubling(c, a, b, j) && a < 2 * c.X
    ensures !Trapped(a, b)
  {
    if i: nat, e: nat :| Doubling(a, b, i, e) {
      if i <= j {
        PowMonotonic(i, j);
        MulMonotonic(Pow2(i), Pow2(j), b);
        assert false;
      } else {
        PowMonotonic(j + 1, i);
        MulMonotonic(Pow2(j + 1), Pow2(i), b);
        assert false;
      }
    }
  }

  lemma PowMonotonic(i: nat, j: nat)
    requires i <= j
    ensures Pow2(i) <= Pow2(j)
  {
    if i < j {
      Pow2Monotonic(i, j);
    }
  }

  lemma HalvePer(c: Config, b: nat, k: nat)
    requires c.per == Pow2(k) && c.X == b * c.per && k > 0
    ensures c.per / 2 == Pow2(k - 1) && c.X / 2 == b * Pow2(k - 1) && c.X == 2 * (c.X / 2) && b <= c.X / 2
  {
    var half := Pow2(k - 1);
    assert c.X == 2 * (b * half);
    MulMonotonic(1, half, b);
  }

  lemma OrdinaryStep(c: Config, a: nat, b: nat, k: nat)
    requires 1 <= b && Ordinary(c, a, b, k) && c.A >= b && !Trapped(a, b)
    ensures Inv(Step(c), a, b) && Step(c).X < c.X
  {
    var d := Step(c);
    if c.A >= c.X {
      MulDistributes(c.quotient, c.per, b);
    }
    if k == 0 {
      assert Ends(d, a, b);
    } else {
      HalvePer(c, b, k);
      assert Ordinary(d, a, b, k - 1);
    }
  }

  lemma FallingStep(c: Config, a: nat, b: nat, k: nat, e: nat)
    requires 1 <= b && Falling(c, a, b, k, e)
    ensures TrappedInv(Step(c), a, b, e) && Step(c).X < c.X && Step(c).A >= b && c.A >= b
  {
    var d := Step(c);
    MulDistributes(c.quotient, c.per, b);
    MulMonotonic(1, c.per, b);
    if k == 0 {
      assert Below(d, a, b, e);
    } else {
      HalvePer(c, b, k);
      assert Falling(d, a, b, k - 1, e);
    }
  }

  lemma TrappedStep(c: Config, a: nat, b: nat, e: nat)
    requires 1 <= b && e <= 1 && TrappedInv(c, a, b, e) && c.A >= b
    ensures TrappedInv(Step(c), a, b, e)
    ensures e < b / 2 ==> Step(c).X < c.X
    ensures e >= b / 2 ==> Step(c).A >= b
  {
    if k: nat :| Falling(c, a, b, k, e) {
      FallingStep(c, a, b, k, e);
    } else {
      assert Bottom(Step(c), a, b, e);
    }
  }

  /** The offset of a trapped dividend is its remainder. */
  lemma TrappedOffset(c: Config, a: nat, b: nat, e: nat)
    requires 2 <= b && e <= 1 && TrappedInv(c, a, b, e)
    ensures e == a % b
  {
    if k: nat :| Falling(c, a, b, k, e) {
      var q := c.quotient + 2 * c.per;
      assert q * b == c.quotient * b + 2 * c.X by {
        MulDistributes(c.quotient, 2 * c.per, b);
        DoubleProduct(b, c.per);
      }
      DivModUnique(a, b, q, e);
    } else {
      MulDistributes(c.quotient, 1, b);
      DivModUnique(a, b, c.quotient + 1, e);
    }
  }

  /** While the subtracting loop runs on an input that halts, X keeps shrinking. */
  lemma SubtractStep(c: Config, a: nat, b: nat)
    requires Halts(a, b) && Inv(c, a, b) && !c.doubling && c.A >= b
    ensures Inv(Step(c), a, b) && Step(c).X < c.X
  {
    if Trapped(a, b) {
      var e: nat :| e <= 1 && TrappedInv(c, a, b, e);
      TrappedStep(c, a, b, e);
      TrappedOffset(c, a, b, e);
    } else {
      var k: nat :| Ordinary(c, a, b, k);
      OrdinaryStep(c, a, b, k);
    }
  }

  lemma QuotientBounded(c: Config, a: nat, b: nat)
    requires 1 <= b && Inv(c, a, b) && !c.doubling
    ensures c.quotient <= a
  {
    MulMonotonic(1, b, c.quotient);
  }

  lemma DoublingBounded(c: Config, a: nat, b: nat)
    requires 1 <= b && Inv(c, a, b) && c.doubling
    ensures c.A == a && 1 <= c.per <= c.X && c.quotient == 0
    ensures Inv(Step(c), a, b)
  {
    var j: nat :| InDoubling(c, a, b, j);
    MulMonotonic(1, b, c.per);
    DoublingStep(c, a, b, j);
  }

  lemma AtExit(c: Config, a: nat, b: nat)
    requires 1 <= b && Inv(c, a, b) && Done(c, b)
    ensures c.quotient == Quotient(a, b) && c.A == Remainder(a, b)
  {
    if Trapped(a, b) {
      var e: nat :| e <= 1 && TrappedInv(c, a, b, e);
      if k: nat :| Falling(c, a, b, k, e) {
        FallingStep(c, a, b, k, e);
        assert false;
      }
      assert b >= 2;
      TrappedOffset(c, a, b, e);
      assert (c.quotient + 1) * b == c.quotient * b + b;
      DivModUnique(a, b, c.quotient + 1, e);
    } else {
      DivModUnique(a, b, c.quotient, c.A);
    }
  }

  // ---- the code

  /** `div64_slow`; no shift leaves 64 bits. */
  method Div64Slow(dividend: u64, divisor: u64) returns (quotient: u64, remainder: u64)
    requires Halts(dividend, divisor)
    ensures quotient == Quotient(dividend, divisor)
    ensures remainder == Remainder(dividend, divisor)
  {
    hide Inv, Halts, Quotient, Remainder;
    quotient := 0;
    var quotientPerRemoval: u64 := 1;
    var A: u64, B: u64 := dividend, divisor;
    var X: u64 := B;
    HaltsIsGuarded(dividend, divisor);
    StartInv(dividend, divisor);
    while X < A / 2
      invariant A == dividend && quotient == 0
      invariant Inv(Config(true, A, X, quotient, quotientPerRemoval), dividend, divisor)
    {
      DoublingBounded(Config(true, A, X, quotient, quotientPerRemoval), dividend, divisor);
      X := 2 * X;
      quotientPerRemoval := 2 * quotientPerRemoval;
    }
    DoublingBounded(Config(true, A, X, quotient, quotientPerRemoval), dividend, divisor);
    while A >= B
      invariant Inv(Config(false, A, X, quotient, quotientPerRemoval), dividend, divisor)
      decreases X
    {
      ghost var c := Config(false, A, X, quotient, quotientPerRemoval);
      SubtractStep(c, dividend, divisor);
      QuotientBounded(Step(c), dividend, divisor);
      if A >= X {
        A := A - X;
        quotient := quotient + quotientPerRemoval;
      }
      X := X / 2;
      quotientPerRemoval := quotientPerRemoval / 2;
    }
    remainder := A;
    AtExit(Config(false, A, X, quotient, quotientPerRemoval), dividend, divisor);
  }

  lemma HaltsIsGuarded(a: nat, b: nat)
    requires Halts(a, b)
    ensures 1 <= b
  {
  }

  /** `modulo`: the same loops without the quotient, hence the same remainder. */
  method Modulo(dividend: u64, divisor: u64) returns (remainder: u64)
    requires Halts(dividend, divisor)
    ensures remainder == Remainder(dividend, divisor)
  {
    hide Inv, Halts, Quotient, Remainder;
    var A: u64, B: u64 := dividend, divisor;
    var X: u64 := B;
    ghost var per: nat, quotient: nat := 1, 0;
    HaltsIsGuarded(dividend, divisor);
    StartInv(dividend, divisor);
    while X < A / 2
      invariant A == dividend && quotient == 0
      invariant Inv(Config(true, A, X, quotient, per), dividend, divisor)
    {
      DoublingBounded(Config(true, A, X, quotient, per), dividend, divisor);
      X := 2 * X;
      per := 2 * per;
    }
    DoublingBounded(Config(true, A, X, quotient, per), dividend, divisor);
    while A >= B
      invariant Inv(Config(false, A, X, quotient, per), dividend, divisor)
      decreases X
    {
      SubtractStep(Config(false, A, X, quotient, per), dividend, divisor);
      if A >= X {
        A := A - X;
        quotient := quotient + per;
      }
      X := X / 2;
      per := per / 2;
    }
    remainder := A;
    AtExit(Config(false, A, X, quotient, per), dividend, divisor);
  }

  // ---- when the result is right, and when there is one

  /** The remainder is always below the divisor, and the division equation fails on the trapped
      dividends only, by half of the divisor. */
  lemma EuclideanUnlessTrapped(a: nat, b: nat)
    requires Halts(a, b)
    ensures 0 <= Quotient(a, b) <= a / b && 0 <= Remainder(a, b) < b
    ensures Quotient(a, b) * b + Remainder(a, b) == a - (if Trapped(a, b) then b / 2 else 0)
    ensures Quotient(a, b) * b + Remainder(a, b) == a <==> !Trapped(a, b)
  {
    var q, r := a / b, a % b;
    assert a == q * b + r;
    DivNonNegative(a, b);
    if Trapped(a, b) {
      var j: nat, e: nat :| Doubling(a, b, j, e);
      DivModUnique(a, b, Pow2(j), e);
      MulDistributes(q, -1, b);
      assert Quotient(a, b) == q + -1 && Remainder(a, b) == r + b - b / 2;
    } else {
      assert Quotient(a, b) == q && Remainder(a, b) == r;
    }
  }

  ghost predicate IsPower(x: int, j: nat) {
    1 <= j && x == Pow2(j)
  }

  /** The trapped dividends as a caller can test them: the quotient is a power of two from 2 on, and the
      remainder is at most 1. */
  lemma TrappedIff(a: nat, b: nat)
    requires 2 <= b
    ensures Trapped(a, b) <==> a % b <= 1 && exists j: nat :: IsPower(a / b, j)
  {
    if Trapped(a, b) {
      var j: nat, e: nat :| Doubling(a, b, j, e);
      DivModUnique(a, b, Pow2(j), e);
      assert IsPower(a / b, j);
    }
    var q, r := a / b, a % b;
    assert a == q * b + r;
    if r <= 1 && exists j: nat :: IsPower(q, j) {
      var j: nat :| IsPower(q, j);
      assert Doubling(a, b, j, r);
    }
  }

  /** The machine after `n` steps; it rests once the subtracting loop is left. */
  function Run(a: nat, b: nat, n: nat): Config {
    if n == 0 then Start(a, b)
    else
      var c := Run(a, b, n - 1);
      if Done(c, b) then c else Step(c)
  }

  predicate EndsAfter(a: nat, b: nat, n: nat) {
    Done(Run(a, b, n), b)
  }

  ghost predicate Endless(c: Config, a: nat, b: nat) {
    (exists j: nat :: InDoubling(c, a, b, j)) ||
    (exists e: nat :: e <= 1 && b / 2 <= e && TrappedInv(c, a, b, e) && c.A >= b)
  }

  lemma EndlessStep(c: Config, a: nat, b: nat)
    requires 1 <= b && !Halts(a, b) && Endless(c, a, b) && !Done(c, b)
    ensures Endless(Step(c), a, b)
  {
    if j: nat :| InDoubling(c, a, b, j) {
      DoublingStep(c, a, b, j);
      if !Step(c).doubling {
        var e: nat :| e <= 1 && TrappedInv(Step(c), a, b, e);
        if b >= 2 {
          TrappedOffset(Step(c), a, b, e);
        }
        StillAbove(Step(c), c, a, b, e);
      }
    } else {
      var e: nat :| e <= 1 && b / 2 <= e && TrappedInv(c, a, b, e) && c.A >= b;
      TrappedStep(c, a, b, e);
    }
  }

  lemma StillAbove(d: Config, c: Config, a: nat, b: nat, e: nat)
    requires 1 <= b && (exists j: nat :: InDoubling(c, a, b, j))
    requires d == Step(c) && Trapped(a, b)
    ensures d.A >= b
  {
    var j: nat, e: nat :| Doubling(a, b, j, e);
    MulMonotonic(1, Pow2(j), b);
  }

  lemma {:induction false} RunsForever(a: nat, b: nat, n: nat)
    requires !Halts(a, b)
    ensures !Done(Run(a, b, n), b)
    ensures 1 <= b ==> Endless(Run(a, b, n), a, b)
  {
    if n == 0 {
      assert InDoubling(Start(a, b), a, b, 0);
    } else {
      RunsForever(a, b, n - 1);
      if 1 <= b {
        EndlessStep(Run(a, b, n - 1), a, b);
      }
    }
  }

  lemma {:induction false} RunToEnd(a: nat, b: nat, n: nat) returns (m: nat)
    requires Halts(a, b) && Inv(Run(a, b, n), a, b)
    ensures Done(Run(a, b, m), b)
    decreases Run(a, b, n).doubling, if Run(a, b, n).doubling then a - Run(a, b, n).X else Run(a, b, n).X
  {
    var c := Run(a, b, n);
    if Done(c, b) {
      return n;
    }
    assert Run(a, b, n + 1) == Step(c);
    if c.doubling {
      DoublingBounded(c, a, b);
    } else {
      SubtractStep(c, a, b);
    }
    m := RunToEnd(a, b, n + 1);
  }

  /** The loops end on an input exactly when `Halts` says so. In particular division by 10 always ends,
      while 2 / 1 does not. */
  lemma HaltsExactly(a: nat, b: nat)
    ensures (exists n: nat :: EndsAfter(a, b, n)) <==> Halts(a, b)
  {
    if Halts(a, b) {
      StartInv(a, b);
      var n := RunToEnd(a, b, 0);
      assert EndsAfter(a, b, n);
    } else if n: nat :| EndsAfter(a, b, n) {
      RunsForever(a, b, n);
    }
  }

  lemma WideDivisorHalts(a: nat, b: nat)
    requires 4 <= b
    ensures Halts(a, b)
  {
    if Trapped(a, b) {
      TrappedIff(a, b);
    }
  }

  lemma HaltsForOne(a: nat)
    ensures Halts(a, 1) <==> forall j: nat :: 1 <= j ==> a != Pow2(j) && a != Pow2(j) + 1
  {
    hide Pow2;
    if !Halts(a, 1) {
      var j: nat, e: nat :| Doubling(a, 1, j, e);
      assert a == Pow2(j) + e;
    }
    forall j: nat | 1 <= j && (a == Pow2(j) || a == Pow2(j) + 1)
      ensures !Halts(a, 1)
    {
      assert Doubling(a, 1, j, a - Pow2(j));
    }
  }

  /** The endless inputs, divisor by divisor. */
  lemma HaltsByDivisor(a: nat, b: nat)
    ensures b == 0 ==> !Halts(a, b)
    ensures b == 1 ==> (Halts(a, b) <==> forall j: nat :: 1 <= j ==> a != Pow2(j) && a != Pow2(j) + 1)
    ensures 2 <= b <= 3 ==> (Halts(a, b) <==> forall j: nat :: 1 <= j ==> a != Pow2(j) * b + 1)
    ensures 4 <= b ==> Halts(a, b)
  {
    if b == 1 {
      HaltsForOne(a);
    } else if 2 <= b <= 3 {
      if !Halts(a, b) {
        var j: nat, e: nat :| Doubling(a, b, j, e);
        DivModUnique(a, b, Pow2(j), e);
        assert a == Pow2(j) * b + 1;
      }
      forall j: nat | 1 <= j && a == Pow2(j) * b + 1
        ensures !Halts(a, b)
      {
        DivModUnique(a, b, Pow2(j), 1);
        assert Doubling(a, b, j, 1);
      }
    } else if 4 <= b {
      WideDivisorHalts(a, b);
    }
  }

  lemma TwoByOneRunsForever(n: nat)
    ensures !Done(Run(2, 1, n), 1)
  {
    assert Doubling(2, 1, 1, 0);
    RunsForever(2, 1, n);
  }
}
