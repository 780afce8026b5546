/**
 * `kmemchr` of src/main.c: a byte search that reads aligned 32-bit words and tests a whole word for a
 * zero byte at once. `mem[a]` is the byte at address `a`; words are little-endian.
 */
module MemChr {
  import opened Types

  type byte = bv8

  // ---- the word tricks of src/include/system.h

  const ONES: bv32 := 0xFFFF_FFFF / 255
  const HIGHS: bv32 := ONES * (255 / 2 + 1)

  function HasZero(x: bv32): bv32 {
    (x - ONES) & !x & HIGHS
  }

  function Word(b0: byte, b1: byte, b2: byte, b3: byte): bv32 {
    (b0 as bv32) | ((b1 as bv32) << 8) | ((b2 as bv32) << 16) | ((b3 as bv32) << 24)
  }

  /** Byte `j` of a word is zero, counting from the lowest. */
  predicate ZeroByte(x: bv32, j: nat) {
    if j == 0 then x & 0xFF == 0
    else if j == 1 then x & 0xFF00 == 0
    else if j == 2 then x & 0xFF_0000 == 0
    else x & 0xFF00_0000 == 0
  }

  lemma HasZeroBits(x: bv32)
    ensures HasZero(x) != 0 <==> x & 0xFF == 0 || x & 0xFF00 == 0 || x & 0xFF_0000 == 0 || x & 0xFF00_0000 == 0
  {
  }

  /** HASZERO is exact: no carry of the subtraction can produce a false positive. */
  lemma HasZeroExact(x: bv32)
    ensures HasZero(x) != 0 <==> ZeroByte(x, 0) || ZeroByte(x, 1) || ZeroByte(x, 2) || ZeroByte(x, 3)
  {
    hide HasZero;
    HasZeroBits(x);
  }

  /** `k`, the searched byte in every lane. */
  function Splat(c: byte): bv32 {
    ONES * (c as bv32)
  }

  /** `ONES * c` repeats the byte in all four lanes. */
  lemma OnesSplats(c: byte)
    ensures Splat(c) == Word(c, c, c, c)
  {
  }

  lemma XorLane(w: bv32, k: bv32, lane: bv32)
    ensures (w ^ k) & lane == 0 <==> w & lane == k & lane
  {
    assert (w ^ k) & lane == (w & lane) ^ (k & lane);
  }

  lemma Lane0(b0: byte, b1: byte, b2: byte, b3: byte)
    ensures Word(b0, b1, b2, b3) & 0xFF == b0 as bv32
  {
  }

  lemma Lane1(b0: byte, b1: byte, b2: byte, b3: byte)
    ensures Word(b0, b1, b2, b3) & 0xFF00 == (b1 as bv32) << 8
  {
  }

  lemma Lane2(b0: byte, b1: byte, b2: byte, b3: byte)
    ensures Word(b0, b1, b2, b3) & 0xFF_0000 == (b2 as bv32) << 16
  {
  }

  lemma Lane3(b0: byte, b1: byte, b2: byte, b3: byte)
    ensures Word(b0, b1, b2, b3) & 0xFF00_0000 == (b3 as bv32) << 24
  {
  }

  lemma LaneDiffers0(b0: byte, b1: byte, b2: byte, b3: byte, c: byte)
    ensures ZeroByte(Word(b0, b1, b2, b3) ^ Word(c, c, c, c), 0) <==> b0 == c
  {
    hide Word;
    Lane0(b0, b1, b2, b3);
    Lane0(c, c, c, c);
    XorLane(Word(b0, b1, b2, b3), Word(c, c, c, c), 0xFF);
  }

  lemma LaneDiffers1(b0: byte, b1: byte, b2: byte, b3: byte, c: byte)
    ensures ZeroByte(Word(b0, b1, b2, b3) ^ Word(c, c, c, c), 1) <==> b1 == c
  {
    hide Word;
    Lane1(b0, b1, b2, b3);
    Lane1(c, c, c, c);
    XorLane(Word(b0, b1, b2, b3), Word(c, c, c, c), 0xFF00);
  }

  lemma LaneDiffers2(b0: byte, b1: byte, b2: byte, b3: byte, c: byte)
    ensures ZeroByte(Word(b0, b1, b2, b3) ^ Word(c, c, c, c), 2) <==> b2 == c
  {
    hide Word;
    Lane2(b0, b1, b2, b3);
    Lane2(c, c, c, c);
    XorLane(Word(b0, b1, b2, b3), Word(c, c, c, c), 0xFF_0000);
  }

  lemma LaneDiffers3(b0: byte, b1: byte, b2: byte, b3: byte, c: byte)
    ensures ZeroByte(Word(b0, b1, b2, b3) ^ Word(c, c, c, c), 3) <==> b3 == c
  {
    hide Word;
    Lane3(b0, b1, b2, b3);
    Lane3(c, c, c, c);
    XorLane(Word(b0, b1, b2, b3), Word(c, c, c, c), 0xFF00_0000);
  }

  /** The loop test `HASZERO(*w ^ k)`: it stops at exactly the words that hold the byte searched for. */
  lemma WordTestExact(b0: byte, b1: byte, b2: byte, b3: byte, c: byte)
    ensures HasZero(Word(b0, b1, b2, b3) ^ Splat(c)) != 0 <==> c == b0 || c == b1 || c == b2 || c == b3
  {
    hide HasZero, Word, Splat, ZeroByte;
    OnesSplats(c);
    HasZeroExact(Word(b0, b1, b2, b3) ^ Word(c, c, c, c));
    LaneDiffers0(b0, b1, b2, b3, c);
    LaneDiffers1(b0, b1, b2, b3, c);
    LaneDiffers2(b0, b1, b2, b3, c);
    LaneDiffers3(b0, b1, b2, b3, c);
  }

  // ---- the search

  /** `*s`, a read the caller must show to lie inside `[lo, hi)`. */
  function LoadByte(mem: seq<byte>, a: nat, ghost lo: nat, ghost hi: nat): byte
    requires lo <= a < hi <= |mem|
  {
    mem[a]
  }

  /** `*w`: an aligned 32-bit load inside `[lo, hi)`. */
  function LoadWord(mem: seq<byte>, a: nat, ghost lo: nat, ghost hi: nat): bv32
    requires a % 4 == 0 && lo <= a && a + 4 <= hi <= |mem|
  {
    Word(mem[a], mem[a + 1], mem[a + 2], mem[a + 3])
  }

  lemma NoHitInWord(mem: seq<byte>, a: nat, lo: nat, hi: nat, c: byte)
    requires a % 4 == 0 && lo <= a && a + 4 <= hi <= |mem|
    ensures HasZero(LoadWord(mem, a, lo, hi) ^ Splat(c)) == 0 <==> forall i :: a <= i < a + 4 ==> mem[i] != c
  {
    hide HasZero, Word, Splat;
    WordTestExact(mem[a], mem[a + 1], mem[a + 2], mem[a + 3], c);
  }

  /** `kmemchr(src, ch, n)`; None is the null pointer. Every read lies inside the range searched. */
  method KMemChr(mem: array<byte>, src: nat, ch: i32, n: nat) returns (r: Option<nat>)
    requires src + n <= mem.Length
    ensures r.Some? ==> src <= r.value < src + n && mem[r.value] == (ch % 256) as bv8
    ensures r.Some? ==> forall i :: src <= i < r.value ==> mem[i] != (ch % 256) as bv8
    ensures r.None? ==> forall i :: src <= i < src + n ==> mem[i] != (ch % 256) as bv8
  {
    hide HasZero, Word, Splat;
    ghost var end := src + n;
    var c := (ch % 256) as bv8;
    var s, left := src, n;
    while s % 4 != 0 && left != 0 && LoadByte(mem[..], s, src, end) != c
      invariant 0 <= left <= n && s == src + (n - left)
      invariant forall i :: src <= i < s ==> mem[i] != c
      decreases left
    {
      s, left := s + 1, left - 1;
    }
    if left != 0 && LoadByte(mem[..], s, src, end) != c {
      var k := Splat(c);
      var w := s;
      while left >= 4 && HasZero(LoadWord(mem[..], w, src, end) ^ k) == 0
        invariant 0 <= left <= n && w == src + (n - left) && w % 4 == 0
        invariant forall i :: src <= i < w ==> mem[i] != c
      {
        NoHitInWord(mem[..], w, src, end, c);
        w, left := w + 4, left - 4;
      }
      s := w;
      while left != 0 && LoadByte(mem[..], s, src, end) != c
        invariant 0 <= left <= n && s == src + (n - left)
        invariant forall i :: src <= i < s ==> mem[i] != c
        decreases left
      {
        s, left := s + 1, left - 1;
      }
    }
    r := if left != 0 then Some(s) else None;
  }
}
