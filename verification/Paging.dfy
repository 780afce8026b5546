/** The identity paging tables of src/mm.c and the address lookup on them. */
module Paging {
  import opened Types

  const ENTRIES := 1024
  const PAGE := 0x1000
  const PRESENT := 1
  const READWRITE := 2

  /** `from & 0xfffff000`. */
  function PageOf(a: u32): u32 {
    a - a % PAGE
  }

  class Tables {
    const pageDirectory: array<u32>
    const firstPageTable: array<u32>
    const tableAddress: u32   // where firstPageTable lies, page aligned

    ghost predicate Valid() {
      pageDirectory != firstPageTable && pageDirectory.Length == ENTRIES && firstPageTable.Length == ENTRIES &&
      tableAddress % PAGE == 0
    }

    /** The state after the filling loops. */
    ghost predicate Filled()
      requires Valid()
      reads pageDirectory, firstPageTable
    {
      && pageDirectory[0] == tableAddress + READWRITE + PRESENT
      && (forall i :: 1 <= i < ENTRIES ==> pageDirectory[i] == READWRITE)
      && (forall i :: 0 <= i < ENTRIES ==> firstPageTable[i] == i * PAGE + READWRITE + PRESENT)
    }

    constructor (pageDirectory: array<u32>, firstPageTable: array<u32>, tableAddress: u32)
      requires pageDirectory != firstPageTable && tableAddress % PAGE == 0
      requires pageDirectory.Length == ENTRIES && firstPageTable.Length == ENTRIES
      ensures Valid() && this.pageDirectory == pageDirectory && this.firstPageTable == firstPageTable
      ensures this.tableAddress == tableAddress
    {
      this.pageDirectory, this.firstPageTable, this.tableAddress := pageDirectory, firstPageTable, tableAddress;
    }

    /** The loops of `init_page_directory`; the flag bits are free in every entry, so `|` adds them. */
    method InitPageDirectory()
      requires Valid()
      modifies pageDirectory, firstPageTable
      ensures Filled()
      ensures pageDirectory[0] == tableAddress + 3 && forall k :: 1 <= k < 1024 ==> pageDirectory[k] == 2
      ensures forall k :: 0 <= k < 1024 ==> firstPageTable[k] == 0x1000 * k + 3
    {
      var i := 0;
      while i < ENTRIES
        invariant 0 <= i <= ENTRIES
        invariant forall k :: 0 <= k < i ==> pageDirectory[k] == READWRITE
      {
        pageDirectory[i] := READWRITE;
        i := i + 1;
      }
      i := 0;
      while i < ENTRIES
        invariant 0 <= i <= ENTRIES
        invariant forall k :: 0 <= k < ENTRIES ==> pageDirectory[k] == READWRITE
        invariant forall k :: 0 <= k < i ==> firstPageTable[k] == k * PAGE + READWRITE + PRESENT
      {
        firstPageTable[i] := i * PAGE + READWRITE + PRESENT;
        i := i + 1;
      }
      pageDirectory[0] := tableAddress + READWRITE + PRESENT;
    }

    /** `get_physaddr`: it looks into the first table whatever the directory index is. */
    function GetPhysAddr(v: u32): int
      requires Valid()
      reads firstPageTable
    {
      PageOf(firstPageTable[v / PAGE % ENTRIES]) + v % PAGE
    }

    /** Whatever the table holds, the lookup joins the frame of one entry with the low twelve bits. */
    lemma LookupJoins(v: u32)
      requires Valid()
      ensures GetPhysAddr(v) / 0x1000 == firstPageTable[v / 0x1000 % 0x400] / 0x1000
      ensures GetPhysAddr(v) % 0x1000 == v % 0x1000
    {
      var entry := firstPageTable[v / PAGE % ENTRIES];
      DivModUnique(GetPhysAddr(v), PAGE, entry / PAGE, v % PAGE);
    }

    /** What the processor does with a linear address (32-bit paging with 4-KByte pages): None is a page
        fault. */
    function Walk(v: u32): Option<int>
      requires Valid()
      reads pageDirectory, firstPageTable
    {
      var pde := pageDirectory[v / 0x40_0000];
      if pde % 2 == 0 || PageOf(pde) != tableAddress then None
      else
        var pte := firstPageTable[v / PAGE % ENTRIES];
        if pte % 2 == 0 then None else Some(PageOf(pte) + v % PAGE)
    }

    lemma EntryOf(v: u32)
      requires Valid() && Filled()
      ensures PageOf(firstPageTable[v / PAGE % ENTRIES]) == v / PAGE % ENTRIES * PAGE
      ensures firstPageTable[v / PAGE % ENTRIES] % 2 == 1
      ensures v / PAGE % ENTRIES * PAGE + v % PAGE == v % 0x40_0000
    {
      var i := v / PAGE % ENTRIES;
      DivModUnique(firstPageTable[i], PAGE, i, 3);
      var d := v / PAGE / ENTRIES;
      DivModUnique(v, 0x40_0000, d, i * PAGE + v % PAGE);
    }

    /** The lookup is the identity below 4 MiB and wraps there; it agrees with the processor exactly on the
        mapped range, and everything above faults. */
    lemma IdentityBelowFourMiB(v: u32)
      requires Valid() && Filled()
      ensures GetPhysAddr(v) == v % 0x40_0000
      ensures GetPhysAddr(v) == v <==> v < 0x40_0000
      ensures Walk(v) == if v < 0x40_0000 then Some(v) else None
      ensures Walk(v) == Some(GetPhysAddr(v)) <==> v < 0x40_0000
    {
      EntryOf(v);
      if v < 0x40_0000 {
        DivModUnique(v, 0x40_0000, 0, v);
        DivModUnique(pageDirectory[0], PAGE, tableAddress / PAGE, 3);
      } else {
        AtLeastOne(v);
      }
    }
  }

  lemma AtLeastOne(v: u32)
    requires 0x40_0000 <= v
    ensures 1 <= v / 0x40_0000 < ENTRIES
  {
  }

  /** The number of pages that cover `size` bytes. */
  function Pages(size: int): nat {
    if size <= 0 then 0 else (size + PAGE - 1) / PAGE
  }

  /** The pages are just enough: one less would not cover the size. */
  lemma PagesCover(size: int)
    ensures size <= 0x1000 * Pages(size) && (Pages(size) > 0 ==> 0x1000 * (Pages(size) - 1) < size)
  {
  }

  lemma PageStart(a: u32)
    ensures PageOf(a) == a - a % 0x1000 && PageOf(a) % 0x1000 == 0
  {
  }

  /** `idpaging`: consecutive entries map consecutive pages to themselves, present; nothing else changes. */
  method IdPaging(table: array<u32>, first: nat, start: u32, bytes: i32)
    requires first + Pages(bytes) <= table.Length
    modifies table
    ensures forall k :: 0 <= k < table.Length ==>
      table[k] == if first <= k < first + Pages(bytes) then (start - start % 0x1000 + 0x1000 * (k - first)) % 0x1_0000_0000 + 1
        else old(table[k])
  {
    hide PageOf, Pages;
    PageStart(start);
    PagesCover(bytes);
    var pte, from: u32, size := first, PageOf(start), bytes as int;
    while size > 0
      invariant first <= pte <= first + Pages(bytes) && size == bytes - PAGE * (pte - first)
      invariant from == (PageOf(start) + PAGE * (pte - first)) % 0x1_0000_0000 && from % PAGE == 0
      invariant forall k :: 0 <= k < table.Length ==>
        table[k] == if first <= k < pte then (PageOf(start) + PAGE * (k - first)) % 0x1_0000_0000 + 1 else old(table[k])
    {
      table[pte] := from + 1;
      from, size, pte := (from + PAGE) % 0x1_0000_0000, size - PAGE, pte + 1;
    }
  }
}
