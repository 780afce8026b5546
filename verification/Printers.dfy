/** The number and string printers of src/scrn.c, writing through an `output_writer` to the device. */
module Printers {
  import opened Types
  import opened Console
  import opened Division
  import opened Numerals

  /** A C string: its bytes in front of the terminating NUL. */
  type CStr = s: seq<u8> | 0 !in s

  /** `s[i]` for every position up to the terminator. */
  function At(s: CStr, i: nat): u8
    requires i <= |s|
  {
    if i < |s| then s[i] else 0
  }

  lemma EmitNext(w: Writer, s: State, text: seq<u8>, k: nat)
    requires OnScreen(s) && k < |text|
    ensures EmitAll(w, s, text[..k + 1]) == Emit(w, EmitAll(w, s, text[..k]), text[k])
  {
    assert text[..k + 1][..k] == text[..k];
  }

  lemma EmitNone(w: Writer, s: State)
    requires OnScreen(s)
    ensures EmitAll(w, s, []) == s
  {
  }

  lemma EmitOne(w: Writer, s: State, c: u8)
    requires OnScreen(s)
    ensures EmitAll(w, s, [c]) == Emit(w, s, c)
  {
    EmitNext(w, s, [c], 0);
    assert [c][..1] == [c];
  }

  /** Text that goes through the screen writer is a run of the console, so what is said about runs there
      holds for everything printed. */
  lemma {:induction false} PrintedTextIsRun(s: State, text: seq<u8>)
    requires OnScreen(s)
    ensures EmitAll(Screen, s, text) == Console.Run(s, Chars(text))
  {
    if text != [] {
      var most := text[..|text| - 1];
      PrintedTextIsRun(s, most);
      assert Chars(text)[..|text| - 1] == Chars(most);
    }
  }

  /** `kwrites`. */
  method KWriteS(dev: Device, w: Writer, text: CStr)
    requires dev.Valid()
    modifies dev, dev.textmem
    ensures dev.Valid() && dev.View() == EmitAll(w, old(dev.View()), text)
  {
    hide Emit, EmitAll;
    var i := 0;
    EmitNone(w, dev.View());
    assert text[..0] == [];
    while At(text, i) != 0
      invariant i <= |text| && dev.Valid() && dev.View() == EmitAll(w, old(dev.View()), text[..i])
      decreases |text| - i
    {
      EmitNext(w, old(dev.View()), text, i);
      dev.Write(w, At(text, i));
      i := i + 1;
    }
    assert text[..i] == text;
  }

  /** The printing loop shared by the decimal printers: `for(; cur < end; ++cur) writer(buf[cur])`. */
  method WriteBuffer(dev: Device, w: Writer, buf: array<u8>, start: nat, end: nat)
    requires dev.Valid() && buf != dev.textmem && start <= end <= buf.Length
    modifies dev, dev.textmem
    ensures dev.Valid() && dev.View() == EmitAll(w, old(dev.View()), old(buf[start..end]))
  {
    hide Emit, EmitAll;
    ghost var text := buf[start..end];
    var cur := start;
    EmitNone(w, dev.View());
    assert text[..0] == [];
    while cur < end
      invariant start <= cur <= end && buf[start..end] == text
      invariant dev.Valid() && dev.View() == EmitAll(w, old(dev.View()), text[..cur - start])
    {
      EmitNext(w, old(dev.View()), text, cur - start);
      assert buf[cur] == text[cur - start];
      dev.Write(w, buf[cur]);
      cur := cur + 1;
    }
    assert text[..end - start] == text;
  }

  const MAX_INT_DIGITS := 24
  const LAST := 23   // MAX_INT_DIGITS - 1, where writeUInt puts the terminator

  lemma PowStep(k: nat)
    requires k > 0
    ensures Pow(10, k) == 10 * Pow(10, k - 1)
  {
  }

  lemma DigitInFront(front: seq<u8>, d: u8, written: seq<u8>)
    ensures front + [d] + written == front + ([d] + written)
  {
  }

  /** One turn of the digit loop: `num % 10` and `num / 10`. */
  lemma DecimalUnfolds(n: nat, p: nat)
    requires 0 < n < 10 * p
    ensures Decimal(n) == (if Rest(n, 10) == 0 then [] else Decimal(Rest(n, 10))) + [DigitChar(Last(n, 10))]
    ensures Rest(n, 10) < n && Rest(n, 10) < p
  {
  }

  /** The digit loop of `writeUInt`: the digits end up at the end of the buffer, which never underflows. */
  method FillDigits(num: u32) returns (buf: array<u8>, cur: nat)
    requires 0 < num
    ensures fresh(buf) && cur <= LAST <= buf.Length && buf[cur..LAST] == Decimal(num)
  {
    hide Pow, Decimal, DigitChar, Rest, Last;
    buf := new u8[MAX_INT_DIGITS];
    cur := LAST;
    var n: nat := num;
    buf[cur] := 0;
    PowersOfTen();
    while n != 0
      invariant 13 <= cur <= LAST && 0 <= n < Pow(10, cur - 13)
      invariant (if n == 0 then [] else Decimal(n)) + buf[cur..LAST] == Decimal(num)
      decreases n
    {
      assert cur > 13 by {
        PowZero();
      }
      PowStep(cur - 13);
      DecimalUnfolds(n, Pow(10, cur - 14));
      ghost var written := buf[cur..LAST];
      var temp := Last(n, 10);
      DecimalChar(temp);
      cur := cur - 1;
      buf[cur] := temp + ZERO;
      assert buf[cur..LAST] == [DigitChar(temp)] + written;
      DigitInFront(if Rest(n, 10) == 0 then [] else Decimal(Rest(n, 10)), DigitChar(temp), written);
      n := Rest(n, 10);
    }
    assert [] + buf[cur..LAST] == buf[cur..LAST];
  }

  /** `writeUInt`. */
  method WriteUInt(dev: Device, w: Writer, num: u32)
    requires dev.Valid()
    modifies dev, dev.textmem
    ensures dev.Valid() && dev.View() == EmitAll(w, old(dev.View()), Decimal(num))
  {
    hide Emit, EmitAll, Decimal;
    if num == 0 {
      dev.Write(w, ZERO);
      EmitOne(w, old(dev.View()), ZERO);
      DecimalZero();
      return;
    }
    var buf, cur := FillDigits(num);
    WriteBuffer(dev, w, buf, cur, LAST);
  }

  lemma DecimalChar(d: nat)
    requires d < 10
    ensures DigitChar(d) == d + ZERO
  {
  }

  lemma DecimalZero()
    ensures Decimal(0) == [ZERO]
  {
  }

  lemma PowZero()
    ensures Pow(10, 0) == 1
  {
  }

  /** `writeInt`; the negation wraps at the minimum. */
  method WriteInt(dev: Device, w: Writer, num: i32)
    requires dev.Valid()
    modifies dev, dev.textmem
    ensures dev.Valid() && dev.View() == EmitAll(w, old(dev.View()), IntText(num))
  {
    hide Emit, EmitAll, Decimal;
    if num < 0 {
      dev.Write(w, MINUS);
      EmitOne(w, old(dev.View()), MINUS);
      var negated := -(num as int) % 0x1_0000_0000;
      WriteUInt(dev, w, negated);
      EmitAppend(w, old(dev.View()), [MINUS], Decimal(negated));
    } else {
      WriteUInt(dev, w, num);
    }
  }

  lemma SlowDigitsUnfold(n: nat)
    requires 0 < n
    ensures 0 <= Quotient(n, 10) && 0 <= Remainder(n, 10) < 10
    ensures SlowDigits(n) ==
      (if Quotient(n, 10) == 0 then [] else SlowDigits(Quotient(n, 10))) + [DigitChar(Remainder(n, 10))]
  {
    SlowStep(n);
  }

  /** The digit loop of `writeUInt64`. */
  method FillDigits64(num: u64) returns (buf: array<u8>, cur: nat)
    requires 0 < num
    ensures fresh(buf) && cur <= MAX_INT_DIGITS <= buf.Length && buf[cur..MAX_INT_DIGITS] == SlowDigits(num)
  {
    hide Pow, Halts, Quotient, Remainder, Trapped, SlowDigits, DigitChar;
    buf := new u8[MAX_INT_DIGITS + 1];
    cur := MAX_INT_DIGITS;
    var n: u64 := num;
    buf[cur] := 0;
    PowersOfTen();
    while n != 0
      invariant 4 <= cur <= MAX_INT_DIGITS && n < Pow(10, cur - 4)
      invariant (if n == 0 then [] else SlowDigits(n)) + buf[cur..MAX_INT_DIGITS] == SlowDigits(num)
      decreases n
    {
      SlowStep(n);
      SlowDigitsUnfold(n);
      assert cur > 4 by {
        PowZero();
      }
      PowStep(cur - 4);
      ghost var written := buf[cur..MAX_INT_DIGITS];
      cur := cur - 1;
      var quotient, remainder := Div64Slow(n, 10);
      DecimalChar(remainder);
      buf[cur] := remainder + ZERO;
      assert buf[cur..MAX_INT_DIGITS] == [DigitChar(remainder)] + written;
      DigitInFront(if quotient == 0 then [] else SlowDigits(quotient), DigitChar(remainder), written);
      n := quotient;
    }
    assert [] + buf[cur..MAX_INT_DIGITS] == buf[cur..MAX_INT_DIGITS];
  }

  /** `writeUInt64`: always ends, and its digits always fit the buffer. */
  method WriteUInt64(dev: Device, w: Writer, num: u64)
    requires dev.Valid()
    modifies dev, dev.textmem
    ensures dev.Valid() && dev.View() == EmitAll(w, old(dev.View()), SlowDecimal(num))
  {
    hide Emit, EmitAll, SlowDigits;
    if num == 0 {
      dev.Write(w, ZERO);
      EmitOne(w, old(dev.View()), ZERO);
      return;
    }
    var buf, cur := FillDigits64(num);
    WriteBuffer(dev, w, buf, cur, MAX_INT_DIGITS);
  }

  /** `writeHexDigit`. */
  method WriteHexDigit(dev: Device, w: Writer, digit: u8)
    requires dev.Valid() && digit < 16
    modifies dev, dev.textmem
    ensures dev.Valid() && dev.View() == Emit(w, old(dev.View()), DigitChar(digit))
  {
    dev.Write(w, DigitChar(digit));
  }

  /** `writeHex_bytes`; a nibble count above 16 would shift by more than the width of the number. */
  method WriteHexBytes(dev: Device, w: Writer, num: u64, nibbles: u8)
    requires dev.Valid() && nibbles <= 16
    modifies dev, dev.textmem
    ensures dev.Valid() && dev.View() == EmitAll(w, old(dev.View()), HexText(num, nibbles))
  {
    hide Emit, EmitAll, Digits, Pow2, DigitChar, ShiftRight, Last;
    ghost var s0 := dev.View();
    dev.Write(w, ZERO);
    EmitOne(w, s0, ZERO);
    dev.Write(w, 0x78);
    EmitOne(w, dev.View(), 0x78);
    ghost var prefix := [ZERO, 0x78];
    assert EmitAll(w, s0, prefix) == dev.View() by {
      EmitNext(w, s0, prefix, 1);
      assert prefix[..2] == prefix && prefix[..1] == [ZERO];
    }
    ghost var printed := 0;
    var i := nibbles * 4 - 4;
    NoDigits(ShiftRight(num, i + 4), 16);
    assert prefix + [] == prefix;
    while i >= 0
      invariant 0 <= printed <= nibbles && i == 4 * (nibbles - printed) - 4
      invariant dev.Valid() && dev.View() == EmitAll(w, s0, prefix + Digits(ShiftRight(num, i + 4), printed, 16))
      decreases i + 4
    {
      var digit := ShiftRight(num, i) % 16;
      Masks(ShiftRight(num, i));
      NextDigit(num, i, 4, printed, 16);
      EmitAfter(w, s0, prefix + Digits(ShiftRight(num, i + 4), printed, 16), DigitChar(digit));
      assert prefix + Digits(ShiftRight(num, i), printed + 1, 16)
          == prefix + Digits(ShiftRight(num, i + 4), printed, 16) + [DigitChar(digit)];
      WriteHexDigit(dev, w, digit);
      i := i - 4;
      printed := printed + 1;
    }
    ShiftByZero(num);
  }

  lemma NoDigits(num: nat, base: nat)
    requires 2 <= base <= 16
    ensures Digits(num, 0, base) == []
  {
  }

  lemma EmitAfter(w: Writer, s: State, text: seq<u8>, c: u8)
    requires OnScreen(s)
    ensures EmitAll(w, s, text + [c]) == Emit(w, EmitAll(w, s, text), c)
  {
    EmitAppend(w, s, text, [c]);
    EmitOne(w, EmitAll(w, s, text), c);
  }

  /** `writeHex`. */
  method WriteHex(dev: Device, w: Writer, num: u32)
    requires dev.Valid()
    modifies dev, dev.textmem
    ensures dev.Valid() && dev.View() == EmitAll(w, old(dev.View()), HexText(num, 8))
  {
    WriteHexBytes(dev, w, num, 8);
  }

  /** `writeAddr`: the pointer is sign-extended to 64 bits, which the eight nibbles do not show. */
  method WriteAddr(dev: Device, w: Writer, ptr: u32)
    requires dev.Valid()
    modifies dev, dev.textmem
    ensures dev.Valid() && dev.View() == EmitAll(w, old(dev.View()), HexText(ptr, 8))
  {
    var num: u64 := if ptr < 0x8000_0000 then ptr else 0xFFFF_FFFF_0000_0000 + ptr;
    SignExtensionHidden(ptr);
    WriteHexBytes(dev, w, num, 8);
  }

  lemma SignExtensionHidden(ptr: u32)
    ensures Digits(0xFFFF_FFFF_0000_0000 + ptr, 8, 16) == Digits(ptr, 8, 16)
  {
    assert Nibbles(0xFFFF_FFFF, 4) == 0xF_FFFF_FFF0_000;
    assert Nibbles(0xFFFF_FFFF, 8) == 0xFFFF_FFFF_0000_0000;
    DigitsIgnoreHighBits(ptr, 0xFFFF_FFFF, 8);
  }

  /** `writeBinary`: 32 bits from the top, `(num & (1 << i)) >> i`. */
  method WriteBinary(dev: Device, w: Writer, num: u32)
    requires dev.Valid()
    modifies dev, dev.textmem
    ensures dev.Valid() && dev.View() == EmitAll(w, old(dev.View()), BinaryText(num))
  {
    hide Emit, EmitAll, Digits, Pow2, DigitChar, ShiftRight, Last;
    ghost var s0 := dev.View();
    dev.Write(w, ZERO);
    EmitOne(w, s0, ZERO);
    dev.Write(w, 0x62);
    ghost var prefix := [ZERO, 0x62];
    assert EmitAll(w, s0, prefix) == dev.View() by {
      EmitNext(w, s0, prefix, 1);
      assert prefix[..2] == prefix && prefix[..1] == [ZERO];
    }
    var i := 32;
    NoDigits(ShiftRight(num, i), 2);
    assert prefix + [] == prefix;
    while i != 0
      invariant 0 <= i <= 32
      invariant dev.Valid() && dev.View() == EmitAll(w, s0, prefix + Digits(ShiftRight(num, i), 32 - i, 2))
      decreases i
    {
      i := i - 1;
      var bit := ShiftRight(num, i) % 2;
      Masks(ShiftRight(num, i));
      NextDigit(num, i, 1, 31 - i, 2);
      EmitAfter(w, s0, prefix + Digits(ShiftRight(num, i + 1), 31 - i, 2), DigitChar(bit));
      assert prefix + Digits(ShiftRight(num, i), 32 - i, 2)
          == prefix + Digits(ShiftRight(num, i + 1), 31 - i, 2) + [DigitChar(bit)];
      BitChars();
      dev.Write(w, if bit != 0 then ZERO + 1 else ZERO);
    }
    ShiftByZero(num);
  }

  lemma BitChars()
    ensures DigitChar(0) == ZERO && DigitChar(1) == ZERO + 1
  {
  }
}
