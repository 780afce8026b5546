/**
 * `switchTask` of src/asm/kernel.s as a register and stack machine, and what one call does. Memory gives
 * the 32-bit word at each word-aligned address; all tasks share one identity-mapped page directory, and
 * loading cr3 leaves flags alone.
 */
module ContextSwitch {
  import opened Types

  const TOP := 0x1_0000_0000

  /** The registers a task owns. */
  datatype Context = Context(eax: u32, ebx: u32, ecx: u32, edx: u32, esi: u32, edi: u32,
                             esp: u32, ebp: u32, eip: u32, eflags: u32, cr3: u32)

  type Memory = map<int, u32>

  datatype Machine = Machine(regs: Context, mem: Memory)

  /** All of memory is there. */
  ghost predicate Mapped(mem: Memory) {
    forall a :: 0 <= a < TOP ==> a in mem
  }

  ghost predicate Aligned(a: int, size: nat) {
    0 <= a && a % 4 == 0 && a + size <= TOP
  }

  ghost predicate Inside(a: int, lo: int, size: nat) {
    lo <= a < lo + size
  }

  ghost predicate Apart(a: int, aSize: nat, b: int, bSize: nat) {
    a + aSize <= b || b + bSize <= a
  }

  const RECORD := 44

  /** The `TaskRegisters` record at an address. */
  ghost function Record(mem: Memory, at: int): Context
    requires Mapped(mem) && Aligned(at, RECORD)
  {
    Context(mem[at], mem[at + 4], mem[at + 8], mem[at + 12], mem[at + 16], mem[at + 20],
            mem[at + 24], mem[at + 28], mem[at + 32], mem[at + 36], mem[at + 40])
  }

  /** The context in which a caller of `switchTask` wants to go on: its own registers, the return
      address, and the stack pointer just after the return. */
  ghost function CallerContext(m: Machine): Context
    requires Mapped(m.mem) && Aligned(m.regs.esp, 12)
  {
    m.regs.(esp := m.regs.esp + 4, eip := m.mem[m.regs.esp])
  }

  const SCRATCH := 48

  /** A call `switchTask(prev, next)` whose frame, records and stacks do not get in each other's way. */
  ghost predicate Callable(m: Machine, prev: int, next: int) {
    && Mapped(m.mem) && Aligned(m.regs.esp, 12) && m.regs.esp >= SCRATCH
    && m.mem[m.regs.esp + 4] == prev && m.mem[m.regs.esp + 8] == next
    && Aligned(prev, RECORD) && Aligned(next, RECORD)
    && Apart(prev, RECORD, m.regs.esp - SCRATCH, SCRATCH + 12)
    && Apart(next, RECORD, m.regs.esp - SCRATCH, SCRATCH + 12)
    && (prev == next || Apart(prev, RECORD, next, RECORD))
    && var esp := if prev == next then m.regs.esp + 4 else m.mem[next + 24];
       && Aligned(esp - 4, 4)
       && Apart(prev, RECORD, esp - 4, 4) && Apart(next, RECORD, esp - 4, 4)
  }

  /** What a switch does: `prev` holds the caller's context, the machine runs in the context stored at
      `next`, and beside the record only the caller's stack below its frame and one word below the new
      stack pointer have changed. */
  ghost predicate Switched(m: Machine, m': Machine, prev: int, next: int)
    requires Callable(m, prev, next)
  {
    && Mapped(m'.mem)
    && Record(m'.mem, prev) == CallerContext(m)
    && m'.regs == (if prev == next then CallerContext(m) else Record(m.mem, next))
    && Elsewhere(m.mem, m'.mem, prev, m.regs.esp, m'.regs.esp)
  }

  /** Words outside the record, the scratch area and the word below the new stack pointer are as before. */
  ghost predicate Elsewhere(before: Memory, after: Memory, prev: int, esp: int, newEsp: int)
    requires Mapped(before) && Mapped(after)
  {
    forall a ::
      0 <= a < TOP && !Inside(a, prev, RECORD) && !Inside(a, esp - SCRATCH, SCRATCH) && !Inside(a, newEsp - 4, 4)
      ==> after[a] == before[a]
  }

  /** All words outside one range, or outside two, are as before. */
  ghost predicate Only(before: Memory, after: Memory, lo: int, size: nat)
    requires Mapped(before) && Mapped(after)
  {
    forall a :: 0 <= a < TOP && !Inside(a, lo, size) ==> after[a] == before[a]
  }

  ghost predicate Unchanged(before: Memory, after: Memory, lo: int, size: nat, lo2: int, size2: nat)
    requires Mapped(before) && Mapped(after)
  {
    forall a :: 0 <= a < TOP && !Inside(a, lo, size) && !Inside(a, lo2, size2) ==>
      after[a] == before[a]
  }

  /** A change confined to a record leaves the words of a stack frame alone, ... */
  lemma KeepFrame(before: Memory, after: Memory, rec: int, esp: int)
    requires Mapped(before) && Mapped(after)
    requires Only(before, after, rec, RECORD) && Apart(rec, RECORD, esp, 52) && Aligned(esp, 52)
    ensures after[esp] == before[esp] && after[esp + 4] == before[esp + 4] && after[esp + 16] == before[esp + 16]
    ensures after[esp + 20] == before[esp + 20] && after[esp + 36] == before[esp + 36]
    ensures after[esp + 40] == before[esp + 40] && after[esp + 48] == before[esp + 48]
  {
  }

  /** ... and a change confined to a range apart from a record leaves the record alone. */
  lemma KeepRecord(before: Memory, after: Memory, rec: int, lo: int, size: nat)
    requires Mapped(before) && Mapped(after)
    requires Aligned(rec, RECORD) && Only(before, after, lo, size) && Apart(rec, RECORD, lo, size)
    ensures Record(after, rec) == Record(before, rec)
  {
  }

  /** The return address and the arguments are above what a call pushes. */
  lemma KeepArguments(before: Memory, after: Memory, esp: int)
    requires Mapped(before) && Mapped(after) && Aligned(esp, 52)
    requires Only(before, after, esp, 40)
    ensures after[esp + 40] == before[esp + 40] && after[esp + 44] == before[esp + 44]
    ensures after[esp + 48] == before[esp + 48]
  {
  }

  /** Storing cr3 leaves the rest of its record alone. */
  lemma KeepWords(before: Memory, after: Memory, rec: int)
    requires Mapped(before) && Mapped(after)
    requires Aligned(rec, RECORD) && Only(before, after, rec + 40, 4)
    ensures Record(after, rec) == Record(before, rec).(cr3 := after[rec + 40])
  {
  }

  lemma OnlyTwice(a: Memory, b: Memory, c: Memory, lo: int, size: nat)
    requires Mapped(a) && Mapped(b) && Mapped(c)
    requires Only(a, b, lo, size) && Only(b, c, lo, size)
    ensures Only(a, c, lo, size)
  {
  }

  lemma OnlyWider(a: Memory, b: Memory, lo: int, size: nat, lo2: int, size2: nat)
    requires Mapped(a) && Mapped(b)
    requires Only(a, b, lo, size) && lo2 <= lo && lo + size <= lo2 + size2
    ensures Only(a, b, lo2, size2)
  {
  }

  lemma OnlyBoth(a: Memory, b: Memory, c: Memory, lo: int, size: nat, lo2: int, size2: nat)
    requires Mapped(a) && Mapped(b) && Mapped(c)
    requires Only(a, b, lo, size) && Only(b, c, lo2, size2)
    ensures Unchanged(a, c, lo, size, lo2, size2) && Unchanged(a, c, lo2, size2, lo, size)
  {
  }

  /** A switch word by word: where each register of the caller goes and each of the next task comes from. */
  lemma SwitchedMeans(m: Machine, m': Machine, prev: int, next: int)
    requires Callable(m, prev, next) && Switched(m, m', prev, next)
    ensures var r, after := m.regs, m'.mem;
      && after[prev] == r.eax && after[prev + 4] == r.ebx && after[prev + 8] == r.ecx && after[prev + 12] == r.edx
      && after[prev + 16] == r.esi && after[prev + 20] == r.edi && after[prev + 24] == r.esp + 4
      && after[prev + 28] == r.ebp && after[prev + 32] == m.mem[r.esp] && after[prev + 36] == r.eflags
      && after[prev + 40] == r.cr3
    ensures prev != next ==> var r, before := m'.regs, m.mem;
      && r.eax == before[next] && r.ebx == before[next + 4] && r.ecx == before[next + 8] && r.edx == before[next + 12]
      && r.esi == before[next + 16] && r.edi == before[next + 20] && r.esp == before[next + 24]
      && r.ebp == before[next + 28] && r.eip == before[next + 32] && r.eflags == before[next + 36]
      && r.cr3 == before[next + 40]
    ensures prev == next ==> m'.regs == m.regs.(esp := m.regs.esp + 4, eip := m.mem[m.regs.esp])
    ensures forall a | 0 <= a < TOP ::
      prev <= a < prev + 44 || m.regs.esp - 48 <= a < m.regs.esp || m'.regs.esp - 4 <= a < m'.regs.esp ||
      m'.mem[a] == m.mem[a]
  {
    hide Apart;
  }

  class Cpu {
    var eax: u32
    var ebx: u32
    var ecx: u32
    var edx: u32
    var esi: u32
    var edi: u32
    var esp: u32
    var ebp: u32
    var eip: u32
    var eflags: u32
    var cr3: u32
    var mem: Memory

    function Regs(): Context
      reads this
    {
      Context(eax, ebx, ecx, edx, esi, edi, esp, ebp, eip, eflags, cr3)
    }

    ghost function View(): Machine
      reads this
    {
      Machine(Regs(), mem)
    }

    // Instructions; `Only` says which words of memory an instruction sequence may have changed.

    method Push(v: u32)
      requires Mapped(mem) && esp >= 4 && esp % 4 == 0
      modifies this`esp, this`mem
      ensures Mapped(mem) && esp == old(esp) - 4 && mem == old(mem)[esp := v] && Only(old(mem), mem, esp, 4)
    {
      esp := esp - 4;
      mem := mem[esp := v];
    }

    method Pop() returns (v: u32)
      requires Mapped(mem) && Aligned(esp, 8)
      modifies this`esp
      ensures esp == old(esp) + 4 && v == mem[old(esp)]
    {
      v := mem[esp];
      esp := esp + 4;
    }

    method Store(a: int, v: u32)
      requires Mapped(mem) && Aligned(a, 4)
      modifies this`mem
      ensures Mapped(mem) && mem[a] == v && Only(old(mem), mem, a, 4)
    {
      mem := mem[a := v];
    }

    /** `pusha`: eax, ecx, edx, ebx, the stack pointer before the instruction, ebp, esi, edi. */
    method PushA()
      requires Mapped(mem) && esp >= 32 && Aligned(esp, 0)
      modifies this`esp, this`mem
      ensures Mapped(mem) && esp == old(esp) - 32 && Only(old(mem), mem, esp, 32)
      ensures mem[esp + 28] == eax && mem[esp + 24] == ecx && mem[esp + 20] == edx && mem[esp + 16] == ebx
      ensures mem[esp + 12] == old(esp) && mem[esp + 8] == ebp && mem[esp + 4] == esi && mem[esp] == edi
    {
      var temp := esp;
      PushFour(eax, ecx, edx, ebx);
      PushFour(temp, ebp, esi, edi);
    }

    method PushFour(a: u32, b: u32, c: u32, d: u32)
      requires Mapped(mem) && esp >= 16 && Aligned(esp, 0)
      modifies this`esp, this`mem
      ensures Mapped(mem) && esp == old(esp) - 16 && Only(old(mem), mem, esp, 16)
      ensures mem[esp + 12] == a && mem[esp + 8] == b && mem[esp + 4] == c && mem[esp] == d
    {
      Push(a);
      Push(b);
      Push(c);
      Push(d);
    }

    /** `pusha; pushf; mov eax, cr3; push eax`. */
    method PushCaller()
      requires Mapped(mem) && esp >= 40 && Aligned(esp, 0)
      modifies this`eax, this`esp, this`mem
      ensures Mapped(mem) && esp == old(esp) - 40 && Only(old(mem), mem, esp, 40)
      ensures mem[esp] == cr3 && mem[esp + 4] == eflags && mem[esp + 16] == ebp
      ensures mem[esp + 20] == old(esp) && mem[esp + 36] == old(eax)
    {
      PushA();
      Push(eflags);
      eax := cr3;
      Push(eax);
    }

    /** `mov [eax+4], ebx` to `mov [eax+20], edi`: the registers that are still in place. */
    method StoreInPlace()
      requires Mapped(mem) && Aligned(eax, RECORD)
      modifies this`mem
      ensures Mapped(mem) && Only(old(mem), mem, eax, RECORD)
      ensures mem[eax + 4] == ebx && mem[eax + 8] == ecx && mem[eax + 12] == edx
      ensures mem[eax + 16] == esi && mem[eax + 20] == edi
    {
      Store(eax + 4, ebx);
      Store(eax + 8, ecx);
      Store(eax + 12, edx);
      Store(eax + 16, esi);
      Store(eax + 20, edi);
    }

    /** The registers that were pushed travel through ebx, ecx, edx, esi and edi ... */
    method FetchPushed()
      requires Mapped(mem) && Aligned(esp, 44)
      modifies this`ebx, this`ecx, this`edx, this`esi, this`edi, this`eflags
      ensures ebx == mem[esp + 36] && ecx == mem[esp + 40] && esi == mem[esp + 16] && edi == mem[esp + 4]
      ensures edx == (mem[esp + 20] + 4) % TOP
    {
      ebx := mem[esp + 36];
      ecx := mem[esp + 40];
      esi := mem[esp + 16];
      edi := mem[esp + 4];
      edx := mem[esp + 20];
      edx := (edx + 4) % TOP;
      eflags := *;   // add sets the flags
    }

    /** ... into the record. */
    method StoreFetched()
      requires Mapped(mem) && Aligned(eax, RECORD)
      modifies this`mem
      ensures Mapped(mem) && Only(old(mem), mem, eax, RECORD)
      ensures mem[eax + 4] == old(mem[eax + 4]) && mem[eax + 8] == old(mem[eax + 8])
      ensures mem[eax + 12] == old(mem[eax + 12]) && mem[eax + 16] == old(mem[eax + 16])
      ensures mem[eax + 20] == old(mem[eax + 20])
      ensures mem[eax] == ebx && mem[eax + 24] == edx && mem[eax + 28] == esi && mem[eax + 32] == ecx
      ensures mem[eax + 36] == edi
    {
      Store(eax, ebx);
      Store(eax + 24, edx);
      Store(eax + 28, esi);
      Store(eax + 32, ecx);
      Store(eax + 36, edi);
    }

    /** `pop ebx; mov [eax+40], ebx; push ebx`. */
    method StoreCr3()
      requires Mapped(mem) && Aligned(eax, RECORD) && Aligned(esp, 8) && Apart(eax, RECORD, esp, 4)
      modifies this`ebx, this`esp, this`mem
      ensures Mapped(mem) && esp == old(esp) && mem[eax + 40] == old(mem[esp])
      ensures Only(old(mem), mem, eax + 40, 4)
    {
      ebx := Pop();
      Store(eax + 40, ebx);
      Push(ebx);
    }

    /** All stores into the record but that of cr3, with the frame of `PushCaller` on the stack. */
    method StoreCaller()
      requires Mapped(mem) && Aligned(eax, RECORD) && Aligned(esp, 52) && Apart(eax, RECORD, esp, 52)
      modifies this`ebx, this`ecx, this`edx, this`esi, this`edi, this`eflags, this`mem
      ensures Mapped(mem) && Only(old(mem), mem, eax, RECORD)
      ensures Record(mem, eax).(cr3 := 0) ==
        Context(old(mem[esp + 36]), old(ebx), old(ecx), old(edx), old(esi), old(edi), (old(mem[esp + 20]) + 4) % TOP,
                old(mem[esp + 16]), old(mem[esp + 40]), old(mem[esp + 4]), 0)
    {
      hide Only;
      StoreInPlace();
      ghost var m2 := mem;
      KeepFrame(old(mem), m2, eax, esp);
      FetchPushed();
      StoreFetched();
      OnlyTwice(old(mem), m2, mem, eax, RECORD);
    }

    /** The whole record, from the frame of `PushCaller` and the registers still in place. */
    method StoreRecord()
      requires Mapped(mem) && Aligned(eax, RECORD) && Aligned(esp, 52) && Apart(eax, RECORD, esp, 52)
      modifies this`ebx, this`ecx, this`edx, this`esi, this`edi, this`eflags, this`esp, this`mem
      ensures Mapped(mem) && esp == old(esp) && Only(old(mem), mem, eax, RECORD)
      ensures Record(mem, eax) ==
        Context(old(mem[esp + 36]), old(ebx), old(ecx), old(edx), old(esi), old(edi), (old(mem[esp + 20]) + 4) % TOP,
                old(mem[esp + 16]), old(mem[esp + 40]), old(mem[esp + 4]), old(mem[esp]))
    {
      hide Only;
      StoreCaller();
      ghost var m := mem;
      KeepFrame(old(mem), m, eax, esp);
      StoreCr3();
      KeepWords(m, mem, eax);
      OnlyWider(m, mem, eax + 40, 4, eax, RECORD);
      OnlyTwice(old(mem), m, mem, eax, RECORD);
    }

    /** The first half, up to `push ebx`: the caller's context goes into its record. */
    method SaveCaller(ghost prev: int, ghost next: int)
      requires Callable(View(), prev, next)
      modifies this
      ensures Mapped(mem) && esp == old(esp) - 40
      ensures Record(mem, prev) == old(CallerContext(View()))
      ensures mem[prev] == old(eax) && mem[prev + 4] == old(ebx) && mem[prev + 8] == old(ecx)
      ensures mem[prev + 12] == old(edx) && mem[prev + 16] == old(esi) && mem[prev + 20] == old(edi)
      ensures mem[prev + 24] == old(esp) + 4 && mem[prev + 28] == old(ebp) && mem[prev + 32] == old(mem[esp])
      ensures mem[prev + 36] == old(eflags) && mem[prev + 40] == old(cr3)
      ensures Unchanged(old(mem), mem, prev, RECORD, esp, 40)
    {
      hide Only, Unchanged;
      PushCaller();
      ghost var m := mem;
      KeepArguments(old(mem), m, esp);
      eax := mem[esp + 44];
      StoreRecord();
      OnlyBoth(old(mem), m, mem, esp, 40, prev, RECORD);
    }

    /** The second half: the registers come back from the record of the next task, the last ones by way
        of its own stack. */
    method LoadNext(ghost next: int)
      requires Mapped(mem) && Aligned(esp, 52) && esp >= 8 && mem[esp + 48] == next
      requires Aligned(next, RECORD) && Apart(next, RECORD, esp - 8, 60)
      requires Aligned(Record(mem, next).esp - 4, 4) && Apart(next, RECORD, Record(mem, next).esp - 4, 4)
      modifies this
      ensures Regs() == old(Record(mem, next))
      ensures eax == old(mem[next]) && ebx == old(mem[next + 4]) && ecx == old(mem[next + 8])
      ensures edx == old(mem[next + 12]) && esi == old(mem[next + 16]) && edi == old(mem[next + 20])
      ensures esp == old(mem[next + 24]) && ebp == old(mem[next + 28]) && eip == old(mem[next + 32])
      ensures eflags == old(mem[next + 36]) && cr3 == old(mem[next + 40])
      ensures Mapped(mem) && Unchanged(old(mem), mem, old(esp) - 8, 8, esp - 4, 4)
    {
      hide Only, Unchanged;
      eax := mem[esp + 48];
      LoadInPlace();
      LoadFlags();
      KeepRecord(old(mem), mem, next, old(esp) - 8, 8);
      ghost var m1 := mem;
      esp := mem[eax + 24];
      LoadLast();
      OnlyBoth(old(mem), m1, mem, old(esp) - 8, 8, esp - 4, 4);
    }

    /** `mov ebx, [eax+4]` to `mov ebp, [eax+28]`. */
    method LoadInPlace()
      requires Mapped(mem) && Aligned(eax, RECORD)
      modifies this`ebx, this`ecx, this`edx, this`esi, this`edi, this`ebp
      ensures ebx == mem[eax + 4] && ecx == mem[eax + 8] && edx == mem[eax + 12]
      ensures esi == mem[eax + 16] && edi == mem[eax + 20] && ebp == mem[eax + 28]
    {
      ebx := mem[eax + 4];
      ecx := mem[eax + 8];
      edx := mem[eax + 12];
      esi := mem[eax + 16];
      edi := mem[eax + 20];
      ebp := mem[eax + 28];
    }

    /** `push eax; mov eax, [eax+36]; push eax; popf; pop eax`. */
    method LoadFlags()
      requires Mapped(mem) && Aligned(esp, 4) && esp >= 8 && Aligned(eax, RECORD) && Apart(eax, RECORD, esp - 8, 8)
      modifies this`eax, this`esp, this`mem, this`eflags
      ensures Mapped(mem) && Only(old(mem), mem, esp - 8, 8) && esp == old(esp) && eax == old(eax)
      ensures eflags == mem[eax + 36]
    {
      Push(eax);
      eax := mem[eax + 36];
      Push(eax);
      eflags := Pop();
      eax := Pop();
    }

    /** `push eax; mov eax, [eax+40]; mov cr3, eax; pop eax`, already on the next task's stack. */
    method LoadCr3()
      requires Mapped(mem) && Aligned(esp - 4, 4) && Aligned(eax, RECORD) && Apart(eax, RECORD, esp - 4, 4)
      modifies this`eax, this`esp, this`mem, this`cr3
      ensures Mapped(mem) && Only(old(mem), mem, esp - 4, 4) && esp == old(esp) && eax == old(eax)
      ensures cr3 == old(mem[eax + 40])
    {
      Push(eax);
      eax := mem[eax + 40];
      cr3 := eax;
      eax := Pop();
    }

    /** From the last `push eax` to `ret`: the return address replaces the pushed pointer. */
    method LoadEip()
      requires Mapped(mem) && Aligned(esp - 4, 4) && Aligned(eax, RECORD) && Apart(eax, RECORD, esp - 4, 4)
      modifies this`eax, this`esp, this`mem, this`eip
      ensures Mapped(mem) && Only(old(mem), mem, esp - 4, 4) && esp == old(esp)
      ensures eax == old(mem[eax]) && eip == old(mem[eax + 32])
    {
      Push(eax);
      eax := mem[eax + 32];
      var top := mem[esp];
      Store(esp, eax);
      eax := top;
      eax := mem[eax];

      eip := Pop();
    }

    method LoadLast()
      requires Mapped(mem) && Aligned(esp - 4, 4) && Aligned(eax, RECORD) && Apart(eax, RECORD, esp - 4, 4)
      modifies this`eax, this`esp, this`mem, this`cr3, this`eip
      ensures Mapped(mem) && Only(old(mem), mem, esp - 4, 4) && esp == old(esp)
      ensures eax == old(mem[eax]) && eip == old(mem[eax + 32]) && cr3 == old(mem[eax + 40])
    {
      hide Only;
      LoadCr3();
      KeepRecord(old(mem), mem, eax, esp - 4, 4);
      ghost var m := mem;
      LoadEip();
      OnlyTwice(old(mem), m, mem, esp - 4, 4);
    }

    /** `switchTask(prev, next)`, entered with the return address on top of the stack. */
    method SwitchTask(ghost prev: int, ghost next: int)
      requires Callable(View(), prev, next)
      modifies this
      ensures Switched(old(View()), View(), prev, next)
      ensures mem[prev] == old(eax) && mem[prev + 4] == old(ebx) && mem[prev + 8] == old(ecx)
      ensures mem[prev + 12] == old(edx) && mem[prev + 16] == old(esi) && mem[prev + 20] == old(edi)
      ensures mem[prev + 24] == old(esp) + 4 && mem[prev + 28] == old(ebp) && mem[prev + 32] == old(mem[esp])
      ensures mem[prev + 36] == old(eflags) && mem[prev + 40] == old(cr3)
      ensures prev != next ==>
        && eax == old(mem[next]) && ebx == old(mem[next + 4]) && ecx == old(mem[next + 8])
        && edx == old(mem[next + 12]) && esi == old(mem[next + 16]) && edi == old(mem[next + 20])
        && esp == old(mem[next + 24]) && ebp == old(mem[next + 28]) && eip == old(mem[next + 32])
        && eflags == old(mem[next + 36]) && cr3 == old(mem[next + 40])
      ensures prev == next ==> Regs() == old(Regs()).(esp := old(esp) + 4, eip := old(mem[esp]))
      ensures forall a | 0 <= a < TOP ::
        prev <= a < prev + 44 || old(esp) - 48 <= a < old(esp) || esp - 4 <= a < esp || mem[a] == old(mem[a])
    {
      Switch(prev, next);
      SwitchedMeans(old(View()), View(), prev, next);
    }

    /** Both halves. */
    method Switch(ghost prev: int, ghost next: int)
      requires Callable(View(), prev, next)
      modifies this
      ensures Switched(old(View()), View(), prev, next)
    {
      SaveCaller(prev, next);
      LoadNext(next);
    }
  }
}
