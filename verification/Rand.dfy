/** The linear congruential generator of src/main.c and its full period. */
module Rand {
  import opened Types

  const MULTIPLIER := 1103515245
  const INCREMENT := 12345
  const MODULUS := 0x1_0000_0000

  /** `_next_rand * 1103515245 + 12345` in 32 bits. */
  function Next(x: u32): u32 {
    (x * MULTIPLIER + INCREMENT) % MODULUS
  }

  /** `(_next_rand / 65536) % 32768`. */
  function Output(x: u32): int {
    x / 65536 % 32768
  }

  class Generator {
    var nextRand: u32

    constructor ()
      ensures nextRand == 1
    {
      nextRand := 1;
    }

    method SRand(seed: u32)
      modifies this
      ensures nextRand == seed
    {
      nextRand := seed;
    }

    method KRand() returns (r: int)
      modifies this
      ensures nextRand == (old(nextRand) * 1103515245 + 12345) % 0x1_0000_0000 && r == nextRand / 65536 % 32768
      ensures nextRand == Next(old(nextRand)) && r == Output(nextRand)
    {
      nextRand := (nextRand * MULTIPLIER + INCREMENT) % MODULUS;
      r := nextRand / 65536 % 32768;
    }
  }

  /** The state after `n` calls. */
  function State(seed: u32, n: nat): u32 {
    if n == 0 then seed else Next(State(seed, n - 1))
  }

  /** The states are those of successive calls. */
  lemma StateStep(seed: u32, n: nat)
    ensures State(seed, 0) == seed && State(seed, n + 1) == (State(seed, n) * 1103515245 + 12345) % 0x1_0000_0000
  {
  }

  // ---- the orbit in closed form

  function Power(n: nat): nat {
    if n == 0 then 1 else MULTIPLIER * Power(n - 1)
  }

  /** 1 + a + ... + a^(n-1) for the multiplier a. */
  function Geometric(n: nat): nat {
    if n == 0 then 0 else MULTIPLIER * Geometric(n - 1) + 1
  }

  /** The orbit before reduction modulo 2^32. */
  function Unreduced(x: int, n: nat): int {
    if n == 0 then x else MULTIPLIER * Unreduced(x, n - 1) + INCREMENT
  }

  /** After `n` steps the state has moved by a multiple of `Geometric(n)`, the other factor being odd. */
  lemma {:induction false} ClosedForm(x: int, n: nat)
    ensures Unreduced(x, n) - x == Geometric(n) * ((MULTIPLIER - 1) * x + INCREMENT)
  {
    if n > 0 {
      ClosedForm(x, n - 1);
      var odd := (MULTIPLIER - 1) * x + INCREMENT;
      assert Unreduced(x, n) - x == MULTIPLIER * (Unreduced(x, n - 1) - x) + odd;
      Extend(Geometric(n - 1), odd);
    }
  }

  lemma Extend(g: int, odd: int)
    ensures (MULTIPLIER * g + 1) * odd == MULTIPLIER * (g * odd) + odd
  {
    MulDistributes(MULTIPLIER * g, 1, odd);
    assert MULTIPLIER * g * odd == MULTIPLIER * (g * odd);
  }

  lemma {:induction false} StateIsReduced(seed: u32, n: nat)
    ensures State(seed, n) == Unreduced(seed, n) % MODULUS
  {
    if n > 0 {
      StateIsReduced(seed, n - 1);
      var u := Unreduced(seed, n - 1);
      assert u == u / MODULUS * MODULUS + State(seed, n - 1);
      ReduceLate(u / MODULUS, State(seed, n - 1));
    }
  }

  lemma ReduceLate(q: int, r: int)
    ensures (MULTIPLIER * (q * MODULUS + r) + INCREMENT) % MODULUS == (r * MULTIPLIER + INCREMENT) % MODULUS
  {
    var a := r * MULTIPLIER + INCREMENT;
    var t := MULTIPLIER * q;
    assert MULTIPLIER * (q * MODULUS + r) + INCREMENT == (a / MODULUS + t) * MODULUS + a % MODULUS;
    DivModUnique(MULTIPLIER * (q * MODULUS + r) + INCREMENT, MODULUS, a / MODULUS + t, a % MODULUS);
  }

  // ---- powers of two in the geometric sum

  /** 2^k divides `a`. */
  predicate PowerDivides(k: nat, a: int) {
    k == 0 || (a % 2 == 0 && PowerDivides(k - 1, a / 2))
  }

  lemma {:induction false} PowerDividesMeaning(k: nat, a: int)
    ensures PowerDivides(k, a) <==> a % Pow2(k) == 0
  {
    if k > 0 {
      PowerDividesMeaning(k - 1, a / 2);
      HalfModulo(a, Pow2(k - 1));
    }
  }

  lemma OddTimes(h: int, y: int)
    ensures (2 * h + 1) * y == 2 * (h * y) + y
  {
  }

  /** An odd factor does not change divisibility by a power of two. */
  lemma {:induction false} OddFactor(k: nat, h: int, a: int)
    ensures PowerDivides(k, (2 * h + 1) * a) <==> PowerDivides(k, a)
  {
    if k > 0 {
      OddTimes(h, a);
      OddTimes(h, a / 2);
      if a % 2 == 0 {
        assert h * a == 2 * (h * (a / 2));
        OddFactor(k - 1, h, a / 2);
      }
    }
  }

  /** The multiplier is 1 modulo 4, and so are its powers. */
  lemma {:induction false} PowerModFour(n: nat)
    ensures Power(n) % 4 == 1
  {
    if n > 0 {
      PowerModFour(n - 1);
      var p := Power(n - 1);
      assert Power(n) == 4 * (275878811 * p) + p;
    }
  }

  lemma {:induction false} GeometricAdd(m: nat, n: nat)
    ensures Geometric(m + n) == Power(m) * Geometric(n) + Geometric(m)
  {
    if m > 0 {
      GeometricAdd(m - 1, n);
      var p, g, h := Power(m - 1), Geometric(n), Geometric(m - 1);
      assert Geometric(m + n) == MULTIPLIER * Geometric(m - 1 + n) + 1;
      Spread(p, g, h);
    }
  }

  lemma Spread(p: int, g: int, h: int)
    ensures MULTIPLIER * (p * g + h) + 1 == MULTIPLIER * p * g + (MULTIPLIER * h + 1)
  {
    assert MULTIPLIER * p * g == MULTIPLIER * (p * g);
  }

  lemma {:induction false} GeometricParity(n: nat)
    ensures Geometric(n) % 2 == 0 <==> n % 2 == 0
  {
    if n > 0 {
      hide Geometric;
      GeometricParity(n - 1);
      GeometricStep(n);
    }
  }

  lemma GeometricStep(n: nat)
    requires n > 0
    ensures Geometric(n) % 2 == 0 <==> Geometric(n - 1) % 2 != 0
  {
    var g := Geometric(n - 1);
    assert Geometric(n) == 2 * (551757622 * g) + (g + 1);
  }

  /** Summing twice as many powers doubles the sum, up to an odd factor. */
  lemma GeometricDouble(m: nat)
    ensures var h := Power(m) / 4;
      Geometric(2 * m) == 2 * ((2 * h + 1) * Geometric(m))
  {
    hide Power, Geometric;
    GeometricAdd(m, m);
    PowerModFour(m);
    Regroup(Power(m) / 4, Geometric(m));
  }

  lemma Regroup(h: int, g: int)
    ensures (4 * h + 1) * g + g == 2 * ((2 * h + 1) * g)
  {
  }

  /** The heart of the period: 2^k divides the sum of `n` powers exactly when it divides `n`. */
  lemma {:induction false} GeometricDivisible(k: nat, n: nat)
    ensures PowerDivides(k, Geometric(n)) <==> PowerDivides(k, n)
  {
    if k > 0 {
      GeometricParity(n);
      if n % 2 == 0 {
        GeometricDouble(n / 2);
        GeometricDivisible(k - 1, n / 2);
        OddFactor(k - 1, Power(n / 2) / 4, Geometric(n / 2));
      }
    }
  }

  // ---- the period

  /** The unreduced state is back at `x` modulo 2^k after `n` steps exactly when 2^k divides `n`. */
  lemma UnreducedPeriod(x: int, n: nat, k: nat)
    ensures (Unreduced(x, n) - x) % Pow2(k) == 0 <==> n % Pow2(k) == 0
  {
    ClosedForm(x, n);
    var h := 551757622 * x + 6172;
    assert (MULTIPLIER - 1) * x + INCREMENT == 2 * h + 1;
    assert Geometric(n) * (2 * h + 1) == (2 * h + 1) * Geometric(n);
    OddFactor(k, h, Geometric(n));
    GeometricDivisible(k, n);
    PowerDividesMeaning(k, Unreduced(x, n) - x);
    PowerDividesMeaning(k, n);
  }

  /** The low `k` bits of the state are back after `n` calls exactly when 2^k divides `n`: they have period
      2^k, however good the whole generator is. */
  lemma LowBitsPeriod(seed: u32, n: nat, k: nat)
    requires k <= 32
    ensures State(seed, n) % Pow2(k) == seed % Pow2(k) <==> n % Pow2(k) == 0
  {
    hide State, Unreduced, Pow2;
    ModulusIsPower();
    Pow2Add(32 - k, k);
    StateIsReduced(seed, n);
    LowOfLow(Unreduced(seed, n), Pow2(32 - k), Pow2(k));
    SameResidue(Unreduced(seed, n), seed, Pow2(k));
    UnreducedPeriod(seed, n, k);
  }

  /** Reducing modulo a multiple of `p` first does not change the residue modulo `p`. */
  lemma LowOfLow(u: int, q: nat, p: nat)
    requires 1 <= q && 1 <= p
    ensures 1 <= q * p && u % (q * p) % p == u % p
  {
    MulMonotonic(1, q, p);
    var m := q * p;
    var d, r := u / m, u % m;
    var e, t := r / p, r % p;
    assert u == d * m + r && r == e * p + t;
    assert d * m == d * q * p;
    MulDistributes(d * q, e, p);
    DivModUnique(u, p, d * q + e, t);
  }

  lemma SameResidue(u: int, x: int, p: nat)
    requires 1 <= p
    ensures (u - x) % p == 0 <==> u % p == x % p
  {
    var a, r := u / p, u % p;
    var b, t := x / p, x % p;
    assert u == a * p + r && x == b * p + t;
    MulDistributes(a, -b, p);
    if r >= t {
      DivModUnique(u - x, p, a - b, r - t);
    } else {
      MulDistributes(a - b, -1, p);
      DivModUnique(u - x, p, a - b - 1, r - t + p);
    }
  }

  lemma ModulusIsPower()
    ensures Pow2(32) == MODULUS
  {
    assert Pow2(8) == 256;
    assert Pow2(16) == 65536 by { Pow2Add(8, 8); }
    Pow2Add(16, 16);
  }

  /** The generator returns to a state after `n` calls exactly when 2^32 divides `n`. */
  lemma StateReturns(seed: u32, n: nat)
    ensures State(seed, n) == seed <==> n % MODULUS == 0
  {
    hide State;
    ModulusIsPower();
    LowBitsPeriod(seed, n, 32);
    DivModUnique(State(seed, n), MODULUS, 0, State(seed, n));
    DivModUnique(seed, MODULUS, 0, seed);
  }

  lemma {:induction false} StateAdd(seed: u32, m: nat, n: nat)
    ensures State(seed, m + n) == State(State(seed, m), n)
  {
    if n > 0 {
      StateAdd(seed, m, n - 1);
    }
  }

  /** Two calls leave the same state exactly when their distance is a multiple of 2^32. */
  lemma StatesDistinct(seed: u32, i: nat, j: nat)
    requires i <= j
    ensures State(seed, i) == State(seed, j) <==> (j - i) % MODULUS == 0
  {
    StateAdd(seed, i, j - i);
    StateReturns(State(seed, i), j - i);
  }

  // ---- counting

  ghost function Interval(lo: int, hi: int): (s: set<int>)
    requires lo <= hi
    ensures |s| == hi - lo && forall i :: i in s <==> lo <= i < hi
    decreases hi - lo
  {
    if lo == hi then {} else Interval(lo, hi - 1) + {hi - 1}
  }

  lemma {:induction false} SubsetSize<T>(a: set<T>, b: set<T>)
    requires a <= b
    ensures |a| <= |b| && (|a| == |b| ==> a == b)
  {
    if x :| x in a {
      SubsetSize(a - {x}, b - {x});
    }
  }

  /** The states seen after the calls numbered in `calls`. */
  ghost function Seen(seed: u32, calls: set<int>): set<int>
    requires forall i :: i in calls ==> 0 <= i
  {
    set i | i in calls :: State(seed, i)
  }

  lemma {:induction false} SeenSize(seed: u32, calls: set<int>)
    requires forall i :: i in calls ==> 0 <= i
    requires forall i, j :: i in calls && j in calls && i != j ==> State(seed, i) != State(seed, j)
    ensures |Seen(seed, calls)| == |calls|
  {
    if calls == {} {
      assert Seen(seed, calls) == {};
    } else {
      var i := AnyOf(calls);
      SeenSize(seed, calls - {i});
      assert Seen(seed, calls) == Seen(seed, calls - {i}) + {State(seed, i)};
    }
  }

  lemma AnyOf<T>(s: set<T>) returns (x: T)
    requires s != {}
    ensures x in s
  {
    x :| x in s;
  }

  lemma PeriodDistinct(seed: u32, calls: set<int>)
    requires forall i :: i in calls ==> 0 <= i < MODULUS
    ensures |Seen(seed, calls)| == |calls|
  {
    forall i, j | i in calls && j in calls && i != j
      ensures State(seed, i) != State(seed, j)
    {
      StatesDistinct(seed, if i < j then i else j, if i < j then j else i);
    }
    SeenSize(seed, calls);
  }

  /** Full period: from any seed the first 2^32 calls reach every 32-bit state ... */
  lemma EveryStateReached(seed: u32, x: u32) returns (n: nat)
    ensures n < MODULUS && State(seed, n) == x
  {
    hide Interval, State, Next;
    var calls := Interval(0, MODULUS);
    PeriodDistinct(seed, calls);
    SubsetSize(Seen(seed, calls), calls);
    assert x in Seen(seed, calls);
    var i: int :| i in calls && State(seed, i) == x;
    n := i;
  }

  /** ... and each exactly once. */
  lemma FullPeriod(seed: u32, x: u32)
    ensures exists n: nat :: n < MODULUS && ReachedOnlyAt(seed, x, n)
  {
    hide State, Next;
    var n := EveryStateReached(seed, x);
    forall m: nat | m < MODULUS && State(seed, m) == x
      ensures m == n
    {
      StatesDistinct(seed, if m < n then m else n, if m < n then n else m);
    }
    assert ReachedOnlyAt(seed, x, n);
  }

  ghost predicate ReachedOnlyAt(seed: u32, x: u32, n: nat) {
    forall m: nat :: m < MODULUS ==> (State(seed, m) == x <==> m == n)
  }

  /** The calls of one period that output `v`. */
  ghost function CallsWithOutput(seed: u32, v: int): set<int> {
    set i | i in Interval(0, MODULUS) && Output(State(seed, i)) == v
  }

  /** Over one period every 15-bit output occurs exactly 2^17 times. */
  lemma OutputsAreEven(seed: u32, v: int)
    requires 0 <= v < 32768
    ensures |CallsWithOutput(seed, v)| == 0x2_0000
  {
    hide Interval, State, Next, Output;
    var calls := CallsWithOutput(seed, v);
    PeriodDistinct(seed, calls);
    var low := Interval(0x1_0000 * v, 0x1_0000 * v + 0x1_0000);
    var high := Interval(0x1_0000 * (v + 32768), 0x1_0000 * (v + 32768) + 0x1_0000);
    forall s: u32
      ensures s in low + high <==> Output(s) == v
    {
      OutputIntervals(s, v);
    }
    forall s | s in low + high
      ensures s in Seen(seed, calls)
    {
      var n := EveryStateReached(seed, s);
      assert n in calls;
    }
    assert Seen(seed, calls) == low + high;
  }

  lemma OutputIntervals(s: u32, v: int)
    requires 0 <= v < 32768
    ensures Output(s) == v <==>
      0x1_0000 * v <= s < 0x1_0000 * v + 0x1_0000 || 0x1_0000 * (v + 32768) <= s < 0x1_0000 * (v + 32768) + 0x1_0000
  {
  }
}
