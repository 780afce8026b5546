/**
 * The overlapping copies of src/main.c over one flat memory.
 *
 * `mem[a]` is the byte at address `a`. Copying never looks at the bytes, so the routines are generic
 * in them; 4 is sizeof(size_t) on i386.
 */
module Memory {
  import opened Types

  /** The address whose old byte ends up at address `i` when `n` bytes move from `src` to `dest`
      through a snapshot. */
  function MoveSource(dest: nat, src: nat, n: nat, i: nat): nat {
    if dest <= i < dest + n then src + (i - dest) else i
  }

  /** `after` is `before` with `n` bytes moved from `src` to `dest` through a snapshot. */
  ghost predicate IsMove<T>(before: seq<T>, after: seq<T>, dest: nat, src: nat, n: nat)
    requires dest + n <= |before| && src + n <= |before|
  {
    |after| == |before| &&
    forall i :: 0 <= i < |after| ==> after[i] == before[MoveSource(dest, src, n, i)]
  }

  /** `*d = *s` for bytes. */
  method MoveByte<T>(mem: array<T>, d: nat, s: nat)
    requires d < mem.Length && s < mem.Length
    modifies mem
    ensures IsMove(old(mem[..]), mem[..], d, s, 1)
  {
    mem[d] := mem[s];
  }

  /** `*(size_t *)d = *(size_t *)s`: one aligned 32-bit load, then one aligned store. */
  method MoveWord<T>(mem: array<T>, d: nat, s: nat)
    requires Residue(d) == 0 && Residue(s) == 0
    requires d + 4 <= mem.Length && s + 4 <= mem.Length
    requires d + 4 <= s || s + 4 <= d
    modifies mem
    ensures IsMove(old(mem[..]), mem[..], d, s, 4)
  {
    var b0, b1, b2, b3 := mem[s], mem[s + 1], mem[s + 2], mem[s + 3];
    mem[d], mem[d + 1], mem[d + 2], mem[d + 3] := b0, b1, b2, b3;
  }

  // ---- kmemcpyb: the byte-by-byte forward copy

  /** The address whose old byte ends up at address `i` after a forward copy: when the destination
      starts inside the source, the bytes in between repeat. */
  function ForwardSource(dest: nat, src: nat, n: nat, i: nat): (a: nat)
    ensures a < i || a < src + n || a == i
  {
    if !(dest <= i < dest + n) then i
    else if src < dest then ModAtMost(i - dest, dest - src); src + (i - dest) % (dest - src)
    else src + (i - dest)
  }

  ghost predicate IsForwardCopy<T>(before: seq<T>, after: seq<T>, dest: nat, src: nat, n: nat)
    requires dest + n <= |before| && src + n <= |before|
  {
    |after| == |before| &&
    forall i :: 0 <= i < |after| ==> after[i] == before[ForwardSource(dest, src, n, i)]
  }

  lemma ForwardSourceStep(dest: nat, src: nat, k: nat, i: nat)
    ensures ForwardSource(dest, src, k + 1, i) == ForwardSource(dest, src, k, MoveSource(dest + k, src + k, 1, i))
  {
    if src < dest && i == dest + k {
      var period := dest - src;
      if k < period {
        DivModUnique(k, period, 0, k);
      } else {
        var q, r := (k - period) / period, (k - period) % period;
        assert (q + 1) * period == q * period + period;
        DivModUnique(k, period, q + 1, r);
      }
    }
  }

  lemma ForwardCopyStep<T>(before: seq<T>, now: seq<T>, after: seq<T>, dest: nat, src: nat, k: nat)
    requires dest + k < |before| && src + k < |before|
    requires IsForwardCopy(before, now, dest, src, k)
    requires IsMove(now, after, dest + k, src + k, 1)
    ensures IsForwardCopy(before, after, dest, src, k + 1)
  {
    forall i | 0 <= i < |after|
      ensures after[i] == before[ForwardSource(dest, src, k + 1, i)]
    {
      ForwardSourceStep(dest, src, k, i);
    }
  }

  /** `kmemcpyb`, for every overlap. */
  method KMemCpyB<T>(mem: array<T>, dest: nat, src: nat, count: nat)
    requires dest + count <= mem.Length && src + count <= mem.Length
    modifies mem
    ensures IsForwardCopy(old(mem[..]), mem[..], dest, src, count)
    ensures mem[..dest] == old(mem[..dest]) && mem[dest + count..] == old(mem[dest + count..])
    ensures dest <= src ==> forall a :: dest <= a < dest + count ==> mem[a] == old(mem[src + (a - dest)])
    ensures src < dest ==> forall a :: dest <= a < dest + count ==> mem[a] == mem[src + (a - dest)]
  {
    hide IsMove, Residue;
    ghost var before := mem[..];
    var dp, sp, left := dest, src, count;
    while left != 0
      invariant 0 <= left <= count && dp == dest + (count - left) && sp == src + (count - left)
      invariant IsForwardCopy(before, mem[..], dest, src, count - left)
      decreases left
    {
      ghost var now := mem[..];
      MoveByte(mem, dp, sp);
      ForwardCopyStep(before, now, mem[..], dest, src, count - left);
      dp, sp, left := dp + 1, sp + 1, left - 1;
    }
    hide IsForwardCopy;
    ForwardCopyMeans(before, mem[..], dest, src, count);
  }

  /** The bytes of a forward copy, one by one: from above they are those of the source before, from below
      those of the source as the copy itself leaves it. */
  lemma ForwardCopyMeans<T>(before: seq<T>, after: seq<T>, dest: nat, src: nat, n: nat)
    requires dest + n <= |before| && src + n <= |before| && IsForwardCopy(before, after, dest, src, n)
    ensures |after| == |before| && after[..dest] == before[..dest] && after[dest + n..] == before[dest + n..]
    ensures dest <= src ==> forall a :: dest <= a < dest + n ==> after[a] == before[src + (a - dest)]
    ensures src < dest ==> forall a :: dest <= a < dest + n ==> after[a] == after[src + (a - dest)]
  {
    forall a | dest <= a < dest + n && src < dest
      ensures after[a] == after[src + (a - dest)]
    {
      ForwardPeriod(dest, src, n, a);
    }
  }

  lemma ForwardPeriod(dest: nat, src: nat, n: nat, a: nat)
    requires src < dest <= a < dest + n
    ensures ForwardSource(dest, src, n, a) == ForwardSource(dest, src, n, src + (a - dest))
  {
    var period := dest - src;
    var k := a - dest;
    if k < period {
      DivModUnique(k, period, 0, k);
    } else {
      var q, r := (k - period) / period, (k - period) % period;
      assert (q + 1) * period == q * period + period;
      DivModUnique(k, period, q + 1, r);
    }
  }

  /** A forward byte copy is a move through a snapshot, whatever the memory holds, when no source byte
      is overwritten before it is read ... */
  lemma ForwardCopyIsMove<T>(before: seq<T>, after: seq<T>, dest: nat, src: nat, n: nat)
    requires dest + n <= |before| && src + n <= |before|
    requires dest <= src || src + n <= dest
    requires IsForwardCopy(before, after, dest, src, n)
    ensures IsMove(before, after, dest, src, n)
  {
    forall i | dest <= i < dest + n
      ensures ForwardSource(dest, src, n, i) == MoveSource(dest, src, n, i)
    {
      if src < dest {
        DivModUnique(i - dest, dest - src, 0, i - dest);
      }
    }
  }

  /** ... and is none as soon as an overwritten byte differs from the one that replaced it. */
  lemma ForwardCopySmears<T>(before: seq<T>, after: seq<T>, dest: nat, src: nat, n: nat)
    requires dest + n <= |before| && src < dest < src + n
    requires before[src] != before[dest]
    requires IsForwardCopy(before, after, dest, src, n)
    ensures !IsMove(before, after, dest, src, n)
  {
    DivModUnique(dest - src, dest - src, 1, 0);
    assert after[dest + (dest - src)] == before[src];
  }

  // ---- kmemmove

  /** Moving `k` bytes and then the next `j` is one move, when the destination is below the source. */
  lemma MoveOnward<T>(before: seq<T>, now: seq<T>, after: seq<T>, dest: nat, src: nat, k: nat, j: nat)
    requires dest <= src && src + k + j <= |before|
    requires IsMove(before, now, dest, src, k) && IsMove(now, after, dest + k, src + k, j)
    ensures IsMove(before, after, dest, src, k + j)
  {
  }

  /** The same from the top, when the destination is above the source. */
  lemma MoveBackward<T>(before: seq<T>, now: seq<T>, after: seq<T>, dest: nat, src: nat, j: nat, k: nat)
    requires src <= dest && dest + j + k <= |before|
    requires IsMove(before, now, dest + j, src + j, k) && IsMove(now, after, dest, src, j)
    ensures IsMove(before, after, dest, src, j + k)
  {
  }

  lemma MoveNothing<T>(before: seq<T>, dest: nat, src: nat)
    requires dest <= |before| && src <= |before|
    ensures IsMove(before, before, dest, src, 0)
  {
  }

  /** The position of an address inside its 32-bit word. */
  function Residue(a: nat): (r: nat) {
    a % 4
  }

  /** Two pointers at the same position in their words stay so when both move, and a step of a whole
      word keeps the position. */
  lemma ResidueStep(a: nat, b: nat, k: nat)
    requires Residue(a) == Residue(b)
    ensures Residue(a + k) == Residue(b + k)
    ensures Residue(a + 4) == Residue(a) && (a >= 4 ==> Residue(a - 4) == Residue(a))
  {
  }

  lemma WordBelow(a: nat)
    requires a >= 4
    ensures Residue(a - 4) == Residue(a)
  {
  }

  /** Distinct pointers at the same position in their words are at least a word apart, so the words that
      are copied never overlap. */
  lemma WordsApart(a: nat, b: nat)
    requires Residue(a) == Residue(b) && a < b
    ensures a + 4 <= b
  {
  }

  /** Aligned part of the branch for a destination below the source: single bytes up to a word boundary,
      then whole words; `n` bytes are left. */
  method WordsAscending<T>(mem: array<T>, dest: nat, src: nat, count: nat) returns (n: nat)
    requires dest < src && src + count <= mem.Length && Residue(src) == Residue(dest)
    modifies mem
    ensures n <= count && IsMove(old(mem[..]), mem[..], dest, src, count - n)
  {
    hide IsMove, Residue;
    ghost var before := mem[..];
    n := count;
    var d, s := dest, src;
    MoveNothing(before, dest, src);
    while Residue(d) != 0
      invariant n <= count && d == dest + (count - n) && s == src + (count - n) && Residue(s) == Residue(d)
      invariant IsMove(before, mem[..], dest, src, count - n)
      decreases n
    {
      if n == 0 {
        return;
      }
      ghost var now := mem[..];
      MoveByte(mem, d, s);
      MoveOnward(before, now, mem[..], dest, src, count - n, 1);
      ResidueStep(s, d, 1);
      d, s, n := d + 1, s + 1, n - 1;
    }
    while n >= 4
      invariant n <= count && d == dest + (count - n) && s == src + (count - n)
      invariant Residue(d) == 0 && Residue(s) == 0
      invariant IsMove(before, mem[..], dest, src, count - n)
    {
      ghost var now := mem[..];
      ResidueStep(d, s, 4);
      WordsApart(d, s);
      MoveWord(mem, d, s);
      MoveOnward(before, now, mem[..], dest, src, count - n, 4);
      n, d, s := n - 4, d + 4, s + 4;
    }
  }

  method MoveAscending<T>(mem: array<T>, dest: nat, src: nat, count: nat)
    requires dest < src && src + count <= mem.Length
    modifies mem
    ensures IsMove(old(mem[..]), mem[..], dest, src, count)
  {
    hide IsMove, Residue;
    ghost var before := mem[..];
    var n := count;
    MoveNothing(before, dest, src);
    if Residue(src) == Residue(dest) {
      n := WordsAscending(mem, dest, src, count);
    }
    var d, s := dest + (count - n), src + (count - n);
    while n != 0
      invariant 0 <= n <= count && d == dest + (count - n) && s == src + (count - n)
      invariant IsMove(before, mem[..], dest, src, count - n)
      decreases n
    {
      ghost var now := mem[..];
      MoveByte(mem, d, s);
      MoveOnward(before, now, mem[..], dest, src, count - n, 1);
      d, s, n := d + 1, s + 1, n - 1;
    }
  }

  /** The branch for a destination above the source, from the top down: single bytes to a word boundary ... */
  method AlignDescending<T>(mem: array<T>, d: nat, s: nat, count: nat) returns (n: nat)
    requires s < d && d + count <= mem.Length
    modifies mem
    ensures n <= count && IsMove(old(mem[..]), mem[..], d + n, s + n, count - n)
    ensures n == 0 || Residue(d + n) == 0
  {
    hide IsMove, Residue;
    ghost var before := mem[..];
    n := count;
    MoveNothing(before, d + n, s + n);
    while Residue(d + n) != 0
      invariant n <= count && IsMove(before, mem[..], d + n, s + n, count - n)
      decreases n
    {
      if n == 0 {
        return;
      }
      n := n - 1;
      ghost var now := mem[..];
      MoveByte(mem, d + n, s + n);
      MoveBackward(before, now, mem[..], d + n, s + n, 1, count - n - 1);
    }
  }

  /** ... and then whole words. */
  method WordsDescending<T>(mem: array<T>, d: nat, s: nat, count: nat) returns (n: nat)
    requires s < d && d + count <= mem.Length && Residue(d + count) == 0 && Residue(s + count) == 0
    modifies mem
    ensures n <= count && IsMove(old(mem[..]), mem[..], d + n, s + n, count - n)
  {
    hide IsMove, Residue;
    ghost var before := mem[..];
    n := count;
    MoveNothing(before, d + n, s + n);
    while n >= 4
      invariant n <= count && Residue(d + n) == 0 && Residue(s + n) == 0
      invariant IsMove(before, mem[..], d + n, s + n, count - n)
    {
      WordBelow(d + n);
      WordBelow(s + n);
      n := n - 4;
      ghost var now := mem[..];
      WordsApart(s + n, d + n);
      MoveWord(mem, d + n, s + n);
      MoveBackward(before, now, mem[..], d + n, s + n, 4, count - n - 4);
    }
  }

  method MoveDescending<T>(mem: array<T>, d: nat, s: nat, count: nat)
    requires s < d && d + count <= mem.Length
    modifies mem
    ensures IsMove(old(mem[..]), mem[..], d, s, count)
  {
    hide IsMove, Residue;
    ghost var before := mem[..];
    var n := count;
    MoveNothing(before, d + n, s + n);
    if Residue(s) == Residue(d) {
      n := AlignDescending(mem, d, s, count);
      if n == 0 {
        return;
      }
      ghost var now := mem[..];
      ResidueStep(s, d, n);
      var rest := WordsDescending(mem, d, s, n);
      MoveBackward(before, now, mem[..], d + rest, s + rest, n - rest, count - n);
      n := rest;
    }
    while n != 0
      invariant 0 <= n <= count
      invariant IsMove(before, mem[..], d + n, s + n, count - n)
      decreases n
    {
      n := n - 1;
      ghost var now := mem[..];
      MoveByte(mem, d + n, s + n);
      MoveBackward(before, now, mem[..], d + n, s + n, 1, count - n - 1);
    }
  }

  /** `kmemmove`: for every overlap and alignment the destination receives the old source bytes and
      no other byte of memory changes. */
  method KMemMove<T>(mem: array<T>, d: nat, s: nat, n: nat) returns (r: nat)
    requires d + n <= mem.Length && s + n <= mem.Length
    modifies mem
    ensures r == d
    ensures mem[d..d + n] == old(mem[s..s + n])
    ensures mem[..d] == old(mem[..d]) && mem[d + n..] == old(mem[d + n..])
  {
    Move(mem, d, s, n);
    MoveMeans(old(mem[..]), mem[..], d, s, n);
    r := d;
  }

  lemma MoveMeans<T>(before: seq<T>, after: seq<T>, d: nat, s: nat, n: nat)
    requires d + n <= |before| && s + n <= |before| && IsMove(before, after, d, s, n)
    ensures |after| == |before| && after[d..d + n] == before[s..s + n]
    ensures after[..d] == before[..d] && after[d + n..] == before[d + n..]
  {
  }

  /** The branches of `kmemmove`. */
  method Move<T>(mem: array<T>, d: nat, s: nat, n: nat)
    requires d + n <= mem.Length && s + n <= mem.Length
    modifies mem
    ensures IsMove(old(mem[..]), mem[..], d, s, n)
  {
    if d == s {
      return;
    }
    if s + n <= d || d + n <= s {
      KMemCpyB(mem, d, s, n);   // kmemcpy is `rep movsb`, the same forward byte copy
      ForwardCopyIsMove(old(mem[..]), mem[..], d, s, n);
      return;
    }
    if d < s {
      MoveAscending(mem, d, s, n);
    } else {
      MoveDescending(mem, d, s, n);
    }
  }
}
