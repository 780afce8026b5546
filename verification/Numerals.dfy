/** The texts that the number printers of src/scrn.c produce, and how they read back. */
module Numerals {
  import opened Types
  import opened Division

  // ---- reading: the partner of every printer

  const ZERO: u8 := 0x30
  const LOWER_A: u8 := 0x61
  const MINUS: u8 := 0x2D

  /** `"0123456789abcdef"[d]`, and `d + '0'` for decimal digits. */
  function DigitChar(d: nat): u8
    requires d < 16
  {
    if d < 10 then ZERO + d else LOWER_A + (d - 10)
  }

  function DigitValue(c: u8): int {
    if c < LOWER_A then c - ZERO else c - LOWER_A + 10
  }

  /** One more digit at the low end. */
  function Shift(v: int, base: nat, d: int): int {
    v * base + d
  }

  /** The value of a text read left to right in a base. */
  function Parse(text: seq<u8>, base: nat): int {
    if text == [] then 0 else Shift(Parse(text[..|text| - 1], base), base, DigitValue(text[|text| - 1]))
  }

  lemma ParseAppend(text: seq<u8>, d: nat, base: nat)
    requires d < 16
    ensures Parse(text + [DigitChar(d)], base) == Shift(Parse(text, base), base, d)
  {
    assert (text + [DigitChar(d)])[..|text + [DigitChar(d)]| - 1] == text;
  }

  function Pow(base: nat, n: nat): nat {
    if n == 0 then 1 else Pow(base, n - 1) * base
  }

  lemma {:induction false} PowPositive(base: nat, n: nat)
    requires 1 <= base
    ensures Pow(base, n) >= 1
  {
    if n > 0 {
      PowPositive(base, n - 1);
      MulMonotonic(1, Pow(base, n - 1), base);
    }
  }

  // ---- fixed width: hexadecimal and binary

  /** A number without its last digit, and that digit. */
  function Rest(num: nat, base: nat): (q: nat)
    requires 2 <= base
  {
    num / base
  }

  function Last(num: nat, base: nat): (d: nat)
    requires 2 <= base
    ensures d < base
  {
    num % base
  }

  /** The low `n` digits of a number in a base. */
  function Digits(num: nat, n: nat, base: nat): (text: seq<u8>)
    requires 2 <= base <= 16
    ensures |text| == n
  {
    if n == 0 then [] else Digits(Rest(num, base), n - 1, base) + [DigitChar(Last(num, base))]
  }

  /** The number the low `n` digits denote. */
  function Low(num: nat, n: nat, base: nat): int
    requires 2 <= base
  {
    if n == 0 then 0 else Shift(Low(Rest(num, base), n - 1, base), base, Last(num, base))
  }

  lemma {:induction false} DigitsDenoteLow(num: nat, n: nat, base: nat)
    requires 2 <= base <= 16
    ensures Parse(Digits(num, n, base), base) == Low(num, n, base)
  {
    if n > 0 {
      hide Parse, DigitChar, Shift, Rest, Last;
      var q, r := Rest(num, base), Last(num, base);
      DigitsDenoteLow(q, n - 1, base);
      ParseAppend(Digits(q, n - 1, base), r, base);
      assert Digits(num, n, base) == Digits(q, n - 1, base) + [DigitChar(r)];
    }
  }

  lemma {:induction false} LowIsModulo(num: nat, n: nat, base: nat)
    requires 2 <= base
    ensures Pow(base, n) >= 1 && Low(num, n, base) == num % Pow(base, n)
  {
    PowPositive(base, n);
    if n > 0 {
      PowPositive(base, n - 1);
      LowIsModulo(Rest(num, base), n - 1, base);
      ModSplits(num, base, Pow(base, n - 1));
    }
  }

  /** Fixed-width digits read back as the number modulo what the width can hold. */
  lemma DigitsReadBack(num: nat, n: nat, base: nat)
    requires 2 <= base <= 16
    ensures Pow(base, n) >= 1 && Parse(Digits(num, n, base), base) == num % Pow(base, n)
  {
    hide Digits, Parse, Low, Pow;
    DigitsDenoteLow(num, n, base);
    LowIsModulo(num, n, base);
  }

  lemma ModSplits(num: nat, base: nat, p: nat)
    requires 2 <= base && 1 <= p
    ensures 1 <= p * base && num % (p * base) == (num / base) % p * base + num % base
  {
    MulMonotonic(1, p, base);
    var q, r := num / base, num % base;
    var t, u := q / p, q % p;
    assert num == q * base + r;
    assert q == t * p + u;
    MulDistributes(t * p, u, base);
    assert t * p * base == t * (p * base);
    MulMonotonic(u + 1, p, base);
    MulDistributes(u, 1, base);
    MulMonotonic(0, u, base);
    DivModUnique(num, p * base, t, u * base + r);
  }

  lemma DivDiv(a: nat, b: nat, c: nat)
    requires 1 <= b && 1 <= c
    ensures 1 <= b * c && a / b / c == a / (b * c)
  {
    MulMonotonic(1, b, c);
    var q, r := a / b, a % b;
    var t, u := q / c, q % c;
    assert a == q * b + r;
    assert q == t * c + u;
    MulDistributes(t * c, u, b);
    assert t * c * b == t * (b * c);
    MulMonotonic(u + 1, c, b);
    MulDistributes(u, 1, b);
    MulMonotonic(0, u, b);
    assert c * b == b * c;
    DivModUnique(a, b * c, t, u * b + r);
  }

  /** `num >> k`. */
  function ShiftRight(num: nat, k: nat): nat {
    DivNonNegative(num, Pow2(k));
    num / Pow2(k)
  }

  lemma ShiftByZero(num: nat)
    ensures ShiftRight(num, 0) == num
  {
  }

  /** `k + 1` digits of the number shifted right end in the digit at that shift. */
  lemma NextDigit(num: nat, shift: nat, width: nat, k: nat, base: nat)
    requires base == Pow2(width) && 2 <= base <= 16
    ensures Digits(ShiftRight(num, shift), k + 1, base) ==
      Digits(ShiftRight(num, shift + width), k, base) + [DigitChar(Last(ShiftRight(num, shift), base))]
  {
    Pow2Add(shift, width);
    DivDiv(num, Pow2(shift), base);
  }

  /** The two masks: `x & 0x0f` and `x & 1`. */
  lemma Masks(x: nat)
    ensures Last(x, 16) == x % 16 && Last(x, 2) == x % 2
    ensures Pow2(4) == 16 && Pow2(1) == 2
  {
    assert Pow2(4) == 2 * Pow2(3) && Pow2(3) == 2 * Pow2(2) && Pow2(2) == 2 * Pow2(1) && Pow2(1) == 2 * Pow2(0);
  }

  function HexText(num: nat, nibbles: nat): seq<u8> {
    [ZERO, 0x78] + Digits(num, nibbles, 16)
  }

  function BinaryText(num: nat): seq<u8> {
    [ZERO, 0x62] + Digits(num, 32, 2)
  }

  /** `high` shifted left by `n` nibbles. */
  function Nibbles(high: nat, n: nat): nat {
    if n == 0 then high else 16 * Nibbles(high, n - 1)
  }

  /** Bits above the printed width do not change the text. */
  lemma {:induction false} DigitsIgnoreHighBits(num: nat, high: nat, n: nat)
    ensures Digits(num + Nibbles(high, n), n, 16) == Digits(num, n, 16)
  {
    if n > 0 {
      DigitsIgnoreHighBits(num / 16, high, n - 1);
    }
  }

  lemma HexReadsBack(num: u64, nibbles: nat)
    ensures Pow(16, nibbles) >= 1
    ensures Parse(HexText(num, nibbles)[2..], 16) == num % Pow(16, nibbles)
  {
    DigitsReadBack(num, nibbles, 16);
  }

  /** Hexadecimal and binary texts of a 32-bit number denote the same number, namely that number. */
  lemma HexAndBinaryAgree(num: u32)
    ensures Parse(HexText(num, 8)[2..], 16) == num == Parse(BinaryText(num)[2..], 2)
  {
    hide Digits, Parse, Pow;
    DigitsReadBack(num, 8, 16);
    DigitsReadBack(num, 32, 2);
    PowersOfSixteen();
    PowersOfTwo();
    DivModUnique(num, 0x1_0000_0000, 0, num);
    assert HexText(num, 8)[2..] == Digits(num, 8, 16);
    assert BinaryText(num)[2..] == Digits(num, 32, 2);
  }

  lemma DigitCharIs(d: nat)
    requires d < 16
    ensures DigitChar(d) as char == "0123456789abcdef"[d]
  {
  }

  lemma PowUnfolds(base: nat, k: nat)
    requires 1 <= base
    ensures Pow(base, k) >= 1 && Pow(base, 0) == 1
    ensures k > 0 ==> Pow(base, k - 1) >= 1 && Pow(base, k) == base * Pow(base, k - 1)
  {
    PowPositive(base, k);
    if k > 0 {
      PowPositive(base, k - 1);
    }
  }

  /** The digit of weight base^k. */
  function Place(num: nat, base: nat, k: nat): (d: nat)
    requires 2 <= base
    ensures d < base
  {
    PowUnfolds(base, k);
    DivNonNegative(num, Pow(base, k));
    num / Pow(base, k) % base
  }

  lemma PlaceFirst(num: nat, base: nat)
    requires 2 <= base
    ensures Place(num, base, 0) == Last(num, base)
  {
    assert num / 1 == num;
  }

  lemma PlaceNext(num: nat, base: nat, k: nat)
    requires 2 <= base && 0 < k
    ensures Place(num, base, k) == Place(Rest(num, base), base, k - 1)
  {
    hide Pow;
    PowUnfolds(base, k);
    DivDiv(num, base, Pow(base, k - 1));
  }

  /** Position by position: counted from the right, the digit at `k` has the weight base^k. */
  lemma {:induction false} DigitAt(num: nat, n: nat, base: nat, k: nat)
    requires 2 <= base <= 16 && k < n
    ensures Digits(num, n, base)[n - 1 - k] as char == "0123456789abcdef"[Place(num, base, k)]
    decreases n
  {
    hide Place, DigitChar, Rest, Last;
    if k == 0 {
      PlaceFirst(num, base);
      DigitCharIs(Last(num, base));
    } else {
      DigitAt(Rest(num, base), n - 1, base, k - 1);
      PlaceNext(num, base, k);
    }
  }

  /** The characters of hexadecimal and binary text, most significant first. */
  lemma HexCharacters(num: nat, nibbles: nat, k: nat)
    requires k < nibbles
    ensures var text := HexText(num, nibbles);
      |text| == 2 + nibbles && text[0] as char == '0' && text[1] as char == 'x'
    ensures Pow(16, k) >= 1 && 0 <= num / Pow(16, k) % 16 < 16
    ensures HexText(num, nibbles)[1 + nibbles - k] as char == "0123456789abcdef"[num / Pow(16, k) % 16]
  {
    hide Digits, Pow;
    PowUnfolds(16, k);
    DivNonNegative(num, Pow(16, k));
    DigitAt(num, nibbles, 16, k);
  }

  lemma BinaryCharacters(num: nat, k: nat)
    requires k < 32
    ensures |BinaryText(num)| == 34 && BinaryText(num)[0] as char == '0' && BinaryText(num)[1] as char == 'b'
    ensures Pow(2, k) >= 1
    ensures BinaryText(num)[33 - k] as char == if num / Pow(2, k) % 2 == 0 then '0' else '1'
  {
    hide Digits, Pow;
    PowUnfolds(2, k);
    DivNonNegative(num, Pow(2, k));
    DigitAt(num, 32, 2, k);
  }

  lemma PowersOfSixteen()
    ensures Pow(16, 8) == 0x1_0000_0000
  {
    assert Pow(16, 4) == 0x1_0000;
  }

  lemma PowersOfTwo()
    ensures Pow(2, 32) == 0x1_0000_0000
  {
    assert Pow(2, 8) == 0x100;
    assert Pow(2, 16) == 0x1_0000;
    assert Pow(2, 24) == 0x100_0000;
  }

  // ---- variable width: decimal

  /** The canonical decimal text. */
  function Decimal(n: nat): (text: seq<u8>)
    ensures text != []
  {
    if n < 10 then [DigitChar(n)] else Decimal(n / 10) + [DigitChar(n % 10)]
  }

  lemma {:induction false} DecimalPlace(n: nat, k: nat)
    requires k < |Decimal(n)|
    ensures Decimal(n)[|Decimal(n)| - 1 - k] as char == "0123456789"[Place(n, 10, k)]
  {
    hide Place, DigitChar;
    if k == 0 {
      PlaceFirst(n, 10);
      DigitCharIs(n % 10);
    } else {
      DecimalPlace(n / 10, k - 1);
      PlaceNext(n, 10, k);
    }
  }

  /** The digits of the decimal text, counted from the right. */
  lemma DecimalAt(n: nat, k: nat)
    requires k < |Decimal(n)|
    ensures Pow(10, k) >= 1 && 0 <= n / Pow(10, k) % 10 < 10
    ensures Decimal(n)[|Decimal(n)| - 1 - k] as char == "0123456789"[n / Pow(10, k) % 10]
  {
    hide Decimal, Pow;
    PowUnfolds(10, k);
    DivNonNegative(n, Pow(10, k));
    DecimalPlace(n, k);
  }

  predicate IsDecimal(text: seq<u8>) {
    forall i :: 0 <= i < |text| ==> ZERO <= text[i] < ZERO + 10
  }

  /** Decimal text reads back, has no leading zero, and is as long as the number needs. */
  lemma {:induction false} DecimalReadsBack(n: nat)
    ensures Parse(Decimal(n), 10) == n
    ensures IsDecimal(Decimal(n))
    ensures Decimal(n)[0] == ZERO <==> n == 0
  {
    if n < 10 {
      ParseAppend([], n, 10);
      assert [] + [DigitChar(n)] == [DigitChar(n)];
    } else {
      DecimalReadsBack(n / 10);
      ParseAppend(Decimal(n / 10), n % 10, 10);
    }
  }

  /** It is the only text of decimal digits without a leading zero that reads back as the number. */
  lemma {:induction false} DecimalIsCanonical(text: seq<u8>)
    requires text != [] && IsDecimal(text) && (|text| > 1 ==> text[0] != ZERO)
    ensures Parse(text, 10) >= 0 && text == Decimal(Parse(text, 10))
    ensures |text| > 1 ==> Parse(text, 10) >= 10
  {
    var front, d := text[..|text| - 1], text[|text| - 1] - ZERO;
    assert text == front + [DigitChar(d)];
    ParseAppend(front, d, 10);
    if front == [] {
      assert Parse([], 10) == 0;
    } else {
      hide Parse, Decimal, DigitChar;
      assert IsDecimal(front) && front[0] == text[0];
      DecimalIsCanonical(front);
      PositiveFront(front);
      DecimalAppend(Parse(front, 10), d);
    }
  }

  lemma PositiveFront(text: seq<u8>)
    requires Parse(text, 10) >= 0 && text == Decimal(Parse(text, 10)) && text[0] != ZERO
    ensures Parse(text, 10) > 0
  {
    DecimalReadsBack(Parse(text, 10));
  }

  lemma DecimalAppend(v: nat, d: nat)
    requires 0 < v && d < 10
    ensures Shift(v, 10, d) >= 10 && Decimal(Shift(v, 10, d)) == Decimal(v) + [DigitChar(d)]
  {
    DivModUnique(10 * v + d, 10, v, d);
  }

  lemma {:induction false} DecimalLength(n: nat, k: nat)
    requires n < Pow(10, k) && 1 <= k
    ensures |Decimal(n)| <= k
  {
    if n >= 10 {
      DecimalLength(n / 10, k - 1);
    }
  }

  function IntText(n: int): seq<u8> {
    if n < 0 then [MINUS] + Decimal(-n) else Decimal(n)
  }

  function ParseInt(text: seq<u8>): int {
    if text != [] && text[0] == MINUS then -Parse(text[1..], 10) else Parse(text, 10)
  }

  lemma IntReadsBack(n: int)
    ensures ParseInt(IntText(n)) == n
    ensures n < 0 ==> IntText(n)[0] as char == '-' && IntText(n)[1..] == Decimal(-n)
    ensures n >= 0 ==> IntText(n) == Decimal(n)
  {
    DecimalReadsBack(if n < 0 then -n else n);
  }

  /** Ten digits and a sign are enough for 32 bits. */
  lemma IntLength(n: int)
    requires -0x8000_0000 <= n < 0x1_0000_0000
    ensures |IntText(n)| <= if n < 0 then 11 else 10
  {
    PowersOfTen();
    DecimalLength(if n < 0 then -n else n, 10);
  }

  lemma PowersOfTen()
    ensures Pow(10, 10) == 10_000_000_000 && Pow(10, 20) == 100_000_000_000_000_000_000
  {
    assert Pow(10, 5) == 100_000;
    assert Pow(10, 10) == 10_000_000_000 by {
      assert Pow(10, 8) == 100_000_000;
    }
    assert Pow(10, 15) == 1_000_000_000_000_000 by {
      assert Pow(10, 13) == 10_000_000_000_000;
    }
    assert Pow(10, 18) == 1_000_000_000_000_000_000;
  }

  // ---- decimal by way of div64_slow

  /** What `writeUInt64` prints for a positive number: the digits that `div64_slow` delivers. */
  ghost function SlowDigits(n: nat): (text: seq<u8>)
    requires 0 < n
    ensures text != []
  {
    SlowStep(n);
    (if Quotient(n, 10) == 0 then [] else SlowDigits(Quotient(n, 10))) + [DigitChar(Remainder(n, 10))]
  }

  ghost function SlowDecimal(n: nat): seq<u8> {
    if n == 0 then [ZERO] else SlowDigits(n)
  }

  /** Division by 10 always ends; it goes wrong on the trapped numbers only, which come out 5 too low. */
  lemma SlowStep(n: nat)
    requires 0 < n
    ensures Halts(n, 10)
    ensures 0 <= Quotient(n, 10) < n && Quotient(n, 10) <= n / 10 && 0 <= Remainder(n, 10) < 10
    ensures Quotient(n, 10) * 10 + Remainder(n, 10) == n - (if Trapped(n, 10) then 5 else 0)
    ensures Trapped(n, 10) ==> n >= 20 && 5 <= Remainder(n, 10) <= 6 && Remainder(n, 10) != n % 10
  {
    WideDivisorHalts(n, 10);
    EuclideanUnlessTrapped(n, 10);
    if Trapped(n, 10) {
      TrappedIff(n, 10);
      var j: nat :| IsPower(n / 10, j);
      assert Pow2(j) == 2 * Pow2(j - 1);
    }
  }

  /** The number a printed decimal is short of the number asked for: 5 at every trapped step. */
  ghost function Deficit(n: nat): nat {
    if n == 0 then 0
    else
      SlowStep(n);
      10 * Deficit(Quotient(n, 10)) + if Trapped(n, 10) then 5 else 0
  }

  lemma {:induction false} SlowDigitsValue(n: nat)
    requires 0 < n
    ensures Parse(SlowDigits(n), 10) == n - Deficit(n)
    ensures IsDecimal(SlowDigits(n))
  {
    SlowStep(n);
    var q := Quotient(n, 10);
    if q == 0 {
      ParseAppend([], Remainder(n, 10), 10);
    } else {
      SlowDigitsValue(q);
      ParseAppend(SlowDigits(q), Remainder(n, 10), 10);
    }
  }

  lemma {:induction false} SlowDigitsLength(n: nat, k: nat)
    requires 0 < n < Pow(10, k)
    ensures 1 <= |SlowDigits(n)| <= k
  {
    SlowStep(n);
    if Quotient(n, 10) != 0 {
      SlowDigitsLength(Quotient(n, 10), k - 1);
    }
  }

  /** `writeUInt64` prints between 1 and 20 decimal digits for every 64-bit number. */
  lemma SlowDecimalFits(n: u64)
    ensures 1 <= |SlowDecimal(n)| <= 20 && IsDecimal(SlowDecimal(n))
    ensures Parse(SlowDecimal(n), 10) == n - Deficit(n)
  {
    if n == 0 {
      DecimalReadsBack(0);
      assert Decimal(0) == [ZERO];
    } else {
      PowersOfTen();
      SlowDigitsLength(n, 20);
      SlowDigitsValue(n);
    }
  }

  /** No decimal prefix of the number is trapped. */
  ghost predicate Clean(n: nat) {
    forall i: nat :: !Trapped(Prefix(n, i), 10)
  }

  /** The number without its last `i` decimal digits. */
  function Prefix(n: nat, i: nat): nat {
    if i == 0 then n else Prefix(n / 10, i - 1)
  }

  lemma CleanStep(n: nat)
    ensures Clean(n) <==> !Trapped(n, 10) && Clean(n / 10)
  {
    assert Prefix(n, 0) == n;
    if Clean(n) {
      forall i: nat
        ensures !Trapped(Prefix(n / 10, i), 10)
      {
        assert Prefix(n, i + 1) == Prefix(n / 10, i);
      }
    }
    if !Trapped(n, 10) && Clean(n / 10) {
      forall i: nat
        ensures !Trapped(Prefix(n, i), 10)
      {
        assert i > 0 ==> Prefix(n, i) == Prefix(n / 10, i - 1);
      }
    }
  }

  lemma {:induction false} ZeroClean(i: nat)
    ensures !Trapped(Prefix(0, i), 10)
  {
    if i == 0 {
      TrappedIff(0, 10);
    } else {
      ZeroClean(i - 1);
    }
  }

  /** `writeUInt64` prints the canonical decimal exactly when no decimal prefix is 10 * 2^j or
      10 * 2^j + 1 with j >= 1. */
  lemma {:induction false} SlowDecimalCanonical(n: nat)
    ensures SlowDecimal(n) == Decimal(n) <==> Clean(n)
  {
    if n == 0 {
      forall i: nat
        ensures !Trapped(Prefix(0, i), 10)
      {
        ZeroClean(i);
      }
    } else {
      SlowStep(n);
      CleanStep(n);
      var q, r := Quotient(n, 10), Remainder(n, 10);
      if !Trapped(n, 10) {
        SlowDecimalCanonical(q);
        LastDigit(n, q, r);
      } else {
        assert SlowDigits(n)[|SlowDigits(n)| - 1] == DigitChar(r);
        assert Decimal(n)[|Decimal(n)| - 1] == DigitChar(n % 10);
      }
    }
  }

  lemma LastDigit(n: nat, q: nat, r: nat)
    requires 0 < n && q == Quotient(n, 10) == n / 10 && r == Remainder(n, 10) == n % 10
    ensures SlowDecimal(n) == Decimal(n) <==> SlowDecimal(q) == Decimal(q)
  {
    SlowStep(n);
    if q != 0 {
      assert SlowDigits(n) == SlowDigits(q) + [DigitChar(r)];
      assert Decimal(n) == Decimal(q) + [DigitChar(r)];
      assert SlowDigits(n)[..|SlowDigits(n)| - 1] == SlowDigits(q);
      assert Decimal(n)[..|Decimal(n)| - 1] == Decimal(q);
    }
  }

  /** What is printed is always the canonical decimal of some number: of the one asked for less its deficit,
      which is nothing exactly for the clean numbers. */
  lemma SlowDecimalOfLess(n: nat)
    ensures Deficit(n) <= n && SlowDecimal(n) == Decimal(n - Deficit(n))
    ensures Deficit(n) == 0 <==> Clean(n)
  {
    if n == 0 {
      DecimalReadsBack(0);
    } else {
      SlowDigitsValue(n);
      FirstSlowDigit(n);
      DecimalIsCanonical(SlowDigits(n));
    }
    SlowDecimalCanonical(n);
    DecimalReadsBack(n);
    DecimalReadsBack(n - Deficit(n));
  }

  lemma {:induction false} FirstSlowDigit(n: nat)
    requires 0 < n
    ensures SlowDigits(n)[0] != ZERO
  {
    SlowStep(n);
    if Quotient(n, 10) != 0 {
      FirstSlowDigit(Quotient(n, 10));
    }
  }

  /** The smallest number that comes out wrong: 20 is printed as 15. */
  lemma TwentyPrintsFifteen()
    ensures SlowDecimal(20) == [0x31, 0x35]
  {
    assert Doubling(20, 10, 1, 0) by {
      assert Pow2(1) == 2;
    }
    SlowStep(20);
    SlowStep(1);
    assert !Trapped(1, 10) by {
      TrappedIff(1, 10);
    }
    assert Quotient(20, 10) == 1 && Remainder(20, 10) == 5;
    assert SlowDigits(1) == [ZERO + 1];
  }
}
