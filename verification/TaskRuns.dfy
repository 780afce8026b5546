/** Whole runs of a system of tasks that switch by `switchTask`: every task resumes as it was suspended. */
module TaskRuns {
  import opened ContextSwitch

  /** A task: the address of its `TaskRegisters` record and its stack `[lo, hi)`. */
  datatype Task = Task(rec: int, lo: int, hi: int)

  ghost predicate Placed(t: Task) {
    Aligned(t.rec, RECORD) && 0 <= t.lo && t.lo + 4 <= t.hi <= TOP && t.lo % 4 == 0 && t.hi % 4 == 0 &&
    Apart(t.rec, RECORD, t.lo, t.hi - t.lo)
  }

  ghost predicate Separate(t: Task, u: Task)
    requires Placed(t) && Placed(u)
  {
    Apart(t.rec, RECORD, u.rec, RECORD) && Apart(t.rec, RECORD, u.lo, u.hi - u.lo) &&
    Apart(u.rec, RECORD, t.lo, t.hi - t.lo) && Apart(t.lo, t.hi - t.lo, u.lo, u.hi - u.lo)
  }

  /** Records and stacks of different tasks do not overlap. */
  ghost predicate Layout(ts: seq<Task>) {
    (forall i :: 0 <= i < |ts| ==> Placed(ts[i])) &&
    (forall i, j :: 0 <= i < |ts| && 0 <= j < |ts| && i != j ==> Separate(ts[i], ts[j]))
  }

  datatype World = World(m: Machine, cur: nat)

  ghost predicate Parked(m: Machine, t: Task)
    requires Mapped(m.mem) && Placed(t)
  {
    var esp := Record(m.mem, t.rec).esp;
    t.lo + 4 <= esp <= t.hi && esp % 4 == 0
  }

  /** Every task that does not run has a stack pointer inside its own stack. */
  ghost predicate Sound(ts: seq<Task>, w: World)
    requires Layout(ts)
  {
    Mapped(w.m.mem) && w.cur < |ts| && forall i :: 0 <= i < |ts| && i != w.cur ==> Parked(w.m, ts[i])
  }

  ghost predicate Owns(t: Task, a: int) {
    Inside(a, t.rec, RECORD) || t.lo <= a < t.hi
  }

  /** The running task computes: anything goes but the records and stacks of the others. */
  ghost predicate Works(ts: seq<Task>, w: World, w': World)
    requires Layout(ts) && Sound(ts, w)
  {
    w'.cur == w.cur && Mapped(w'.m.mem) &&
    forall i, a :: 0 <= i < |ts| && i != w.cur && Owns(ts[i], a) && 0 <= a < TOP ==> w'.m.mem[a] == w.m.mem[a]
  }

  /** The running task is at the entry of `switchTask(&own record, &record of task n)`, with the call frame
      and 48 bytes of room in its own stack. */
  ghost predicate Calls(ts: seq<Task>, w: World, n: nat)
    requires Layout(ts) && Sound(ts, w)
  {
    n < |ts| &&
    var t, esp := ts[w.cur], w.m.regs.esp;
    esp % 4 == 0 && t.lo + SCRATCH <= esp && esp + 12 <= t.hi &&
    w.m.mem[esp + 4] == t.rec && w.m.mem[esp + 8] == ts[n].rec
  }

  /** In a sound world every such call meets the requirements of `switchTask`. */
  lemma CallsAreSafe(ts: seq<Task>, w: World, n: nat)
    requires Layout(ts) && Sound(ts, w) && Calls(ts, w, n)
    ensures Callable(w.m, ts[w.cur].rec, ts[n].rec)
  {
    if n != w.cur {
      assert Separate(ts[w.cur], ts[n]);
      assert Parked(w.m, ts[n]);
    }
  }

  ghost predicate Switches(ts: seq<Task>, w: World, w': World)
    requires Layout(ts) && Sound(ts, w)
  {
    Calls(ts, w, w'.cur) && Callable(w.m, ts[w.cur].rec, ts[w'.cur].rec) &&
    Switched(w.m, w'.m, ts[w.cur].rec, ts[w'.cur].rec)
  }

  ghost predicate Next(ts: seq<Task>, w: World, w': World)
    requires Layout(ts) && Sound(ts, w)
  {
    Works(ts, w, w') || Switches(ts, w, w')
  }

  // ---- one step

  /** The stack of a task from a stack pointer up. */
  ghost predicate SameStack(a: Memory, b: Memory, esp: int, hi: int)
    requires Mapped(a) && Mapped(b)
  {
    forall x :: 0 <= x < TOP && esp <= x < hi ==> b[x] == a[x]
  }

  /** Memory of task `i` that a step leaves alone while `i` does not run before it: its record, and its
      stack from any point at or above the stack pointer in the record. */
  lemma StepKeeps(ts: seq<Task>, w: World, w': World, i: nat)
    requires Layout(ts) && Sound(ts, w) && Next(ts, w, w') && i < |ts| && i != w.cur
    ensures Mapped(w'.m.mem) && Record(w'.m.mem, ts[i].rec) == Record(w.m.mem, ts[i].rec)
    ensures SameStack(w.m.mem, w'.m.mem, Record(w.m.mem, ts[i].rec).esp, ts[i].hi)
    ensures w'.cur == i ==> w'.m.regs == Record(w.m.mem, ts[i].rec)
  {
    var t, c := ts[i], ts[w.cur];
    assert Separate(c, t) && Parked(w.m, t);
    if Works(ts, w, w') {
      WorkKeeps(ts, w, w', i);
    } else {
      if w'.cur != w.cur && w'.cur != i {
        assert Separate(ts[w'.cur], t) && Parked(w.m, ts[w'.cur]);
      }
      SwitchKeeps(w.m, w'.m, c, ts[w'.cur], t);
    }
  }

  lemma WorkKeeps(ts: seq<Task>, w: World, w': World, i: nat)
    requires Layout(ts) && Sound(ts, w) && Works(ts, w, w') && i < |ts| && i != w.cur
    ensures Record(w'.m.mem, ts[i].rec) == Record(w.m.mem, ts[i].rec)
    ensures SameStack(w.m.mem, w'.m.mem, Record(w.m.mem, ts[i].rec).esp, ts[i].hi)
  {
    var t := ts[i];
    forall a | 0 <= a < TOP && Owns(t, a)
      ensures w'.m.mem[a] == w.m.mem[a]
    {
    }
    RecordOwned(w.m.mem, w'.m.mem, t);
    assert Parked(w.m, t);
  }

  lemma RecordOwned(before: Memory, after: Memory, t: Task)
    requires Mapped(before) && Mapped(after) && Placed(t)
    requires forall a :: 0 <= a < TOP && Owns(t, a) ==> after[a] == before[a]
    ensures Record(after, t.rec) == Record(before, t.rec)
  {
    assert Owns(t, t.rec) && Owns(t, t.rec + 4) && Owns(t, t.rec + 8) && Owns(t, t.rec + 12) && Owns(t, t.rec + 16);
    assert Owns(t, t.rec + 20) && Owns(t, t.rec + 24) && Owns(t, t.rec + 28) && Owns(t, t.rec + 32);
    assert Owns(t, t.rec + 36) && Owns(t, t.rec + 40);
  }

  lemma SwitchKeeps(m: Machine, m': Machine, c: Task, n: Task, t: Task)
    requires Placed(c) && Placed(n) && Placed(t) && Separate(c, t) && (n == c || n == t || Separate(n, t))
    requires Callable(m, c.rec, n.rec) && Switched(m, m', c.rec, n.rec)
    requires c.lo + SCRATCH <= m.regs.esp && m.regs.esp + 12 <= c.hi
    requires Parked(m, t) && (n == c || Parked(m, n)) && (n != c ==> c.rec != n.rec)
    ensures Record(m'.mem, t.rec) == Record(m.mem, t.rec)
    ensures SameStack(m.mem, m'.mem, Record(m.mem, t.rec).esp, t.hi)
    ensures n == t ==> m'.regs == Record(m.mem, t.rec)
  {
    assert n == t || c.lo <= m'.regs.esp - 4 < c.hi - 3 || (n != c && n.lo <= m'.regs.esp - 4 < n.hi - 3);
    KeepApart(m.mem, m'.mem, c.rec, m.regs.esp, m'.regs.esp, t);
    RecordStays(m.mem, m'.mem, t.rec);
  }

  lemma KeepApart(before: Memory, after: Memory, prev: int, esp: int, newEsp: int, t: Task)
    requires Mapped(before) && Mapped(after) && Elsewhere(before, after, prev, esp, newEsp)
    requires Placed(t) && Apart(t.rec, RECORD, prev, RECORD) && Apart(prev, RECORD, t.lo, t.hi - t.lo)
    requires Apart(t.rec, RECORD, esp - SCRATCH, SCRATCH) && Apart(esp - SCRATCH, SCRATCH, t.lo, t.hi - t.lo)
    requires Apart(t.rec, RECORD, newEsp - 4, 4)
    requires Parked(Machine(Context(0, 0, 0, 0, 0, 0, 0, 0, 0, 0, 0), before), t)
    requires newEsp == Record(before, t.rec).esp || Apart(newEsp - 4, 4, t.lo, t.hi - t.lo)
    ensures forall a :: 0 <= a < TOP && Inside(a, t.rec, RECORD) ==> after[a] == before[a]
    ensures SameStack(before, after, Record(before, t.rec).esp, t.hi)
  {
  }

  lemma RecordStays(before: Memory, after: Memory, rec: int)
    requires Mapped(before) && Mapped(after) && Aligned(rec, RECORD)
    requires forall a :: 0 <= a < TOP && Inside(a, rec, RECORD) ==> after[a] == before[a]
    ensures Record(after, rec) == Record(before, rec)
  {
  }

  lemma StepSound(ts: seq<Task>, w: World, w': World)
    requires Layout(ts) && Sound(ts, w) && Next(ts, w, w')
    ensures Sound(ts, w')
  {
    forall i | 0 <= i < |ts| && i != w'.cur
      ensures Mapped(w'.m.mem) && Parked(w'.m, ts[i])
    {
      if i != w.cur {
        StepKeeps(ts, w, w', i);
        assert Parked(w.m, ts[i]);
      }
    }
  }

  // ---- runs

  ghost predicate IsRun(ts: seq<Task>, run: seq<World>)
    requires Layout(ts)
  {
    run != [] && Sound(ts, run[0]) &&
    forall k :: 0 <= k < |run| - 1 ==> Sound(ts, run[k]) ==> Next(ts, run[k], run[k + 1])
  }

  lemma {:induction false} RunSound(ts: seq<Task>, run: seq<World>, k: nat)
    requires Layout(ts) && IsRun(ts, run) && k < |run|
    ensures Sound(ts, run[k])
  {
    if k > 0 {
      RunSound(ts, run, k - 1);
      StepSound(ts, run[k - 1], run[k]);
    }
  }

  /** While a task is not running, its record and its live stack stay as they are. */
  lemma {:induction false} SuspendedUnchanged(ts: seq<Task>, run: seq<World>, i: nat, j: nat, t: nat)
    requires Layout(ts) && IsRun(ts, run) && i <= j < |run| && t < |ts|
    requires forall k :: i <= k < j ==> run[k].cur != t
    requires Mapped(run[i].m.mem) && Mapped(run[j].m.mem)
    ensures Record(run[j].m.mem, ts[t].rec) == Record(run[i].m.mem, ts[t].rec)
    ensures SameStack(run[i].m.mem, run[j].m.mem, Record(run[i].m.mem, ts[t].rec).esp, ts[t].hi)
  {
    if i < j {
      RunSound(ts, run, j - 1);
      SuspendedUnchanged(ts, run, i, j - 1, t);
      StepKeeps(ts, run[j - 1], run[j], t);
    }
  }

  lemma ContextResumes(ts: seq<Task>, run: seq<World>, i: nat, j: nat, t: nat)
    requires Layout(ts) && IsRun(ts, run) && i <= j < |run| - 1 && t < |ts|
    requires Sound(ts, run[i]) && Switches(ts, run[i], run[i + 1])
    requires run[i].cur == t && run[j + 1].cur == t && forall k :: i < k <= j ==> run[k].cur != t
    ensures run[j + 1].m.regs == CallerContext(run[i].m)
    ensures Mapped(run[j + 1].m.mem)
    ensures SameStack(run[i].m.mem, run[j + 1].m.mem, run[i].m.regs.esp + 4, ts[t].hi)
  {
    RunSound(ts, run, j);
    RunSound(ts, run, j + 1);
    RunSound(ts, run, i + 1);
    CallerStackKept(ts, run[i], run[i + 1]);
    if i < j {
      SuspendedUnchanged(ts, run, i + 1, j, t);
      StepKeeps(ts, run[j], run[j + 1], t);
    }
  }

  /** A task that calls `switchTask` at step `i` and runs again for the first time after step `j` goes on
      with exactly the registers of its call, at its return address, and finds its stack as it left it. */
  lemma TaskResumes(ts: seq<Task>, run: seq<World>, i: nat, j: nat, t: nat)
    requires Layout(ts) && IsRun(ts, run) && i <= j < |run| - 1 && t < |ts|
    requires Sound(ts, run[i]) && Switches(ts, run[i], run[i + 1])
    requires run[i].cur == t && run[j + 1].cur == t && forall k :: i < k <= j ==> run[k].cur != t
    ensures var call, now, esp := run[i].m, run[j + 1].m.regs, run[i].m.regs.esp;
      && now.eax == call.regs.eax && now.ebx == call.regs.ebx && now.ecx == call.regs.ecx && now.edx == call.regs.edx
      && now.esi == call.regs.esi && now.edi == call.regs.edi && now.ebp == call.regs.ebp
      && now.eflags == call.regs.eflags && now.cr3 == call.regs.cr3
      && now.esp == esp + 4 && now.eip == call.mem[esp]
    ensures Mapped(run[j + 1].m.mem)
    ensures forall x :: 0 <= x < TOP && run[i].m.regs.esp + 4 <= x < ts[t].hi ==>
      run[j + 1].m.mem[x] == run[i].m.mem[x]
  {
    ContextResumes(ts, run, i, j, t);
  }

  /** The switch itself stores the caller's context and does not touch its live stack. */
  lemma CallerStackKept(ts: seq<Task>, w: World, w': World)
    requires Layout(ts) && Sound(ts, w) && Switches(ts, w, w')
    ensures Mapped(w'.m.mem) && Record(w'.m.mem, ts[w.cur].rec) == CallerContext(w.m)
    ensures w'.cur == w.cur ==> w'.m.regs == CallerContext(w.m)
    ensures SameStack(w.m.mem, w'.m.mem, w.m.regs.esp + 4, ts[w.cur].hi)
  {
    if w'.cur != w.cur {
      assert Separate(ts[w.cur], ts[w'.cur]);
      assert Parked(w.m, ts[w'.cur]);
    }
  }

  /** A task that has not run yet starts with the registers that were put into its record. */
  lemma TaskStarts(ts: seq<Task>, run: seq<World>, j: nat, t: nat)
    requires Layout(ts) && IsRun(ts, run) && j < |run| - 1 && t < |ts|
    requires run[j + 1].cur == t && forall k :: 0 <= k <= j ==> run[k].cur != t
    ensures var rec, mem, r := ts[t].rec, run[0].m.mem, run[j + 1].m.regs;
      && r.eax == mem[rec] && r.ebx == mem[rec + 4] && r.ecx == mem[rec + 8] && r.edx == mem[rec + 12]
      && r.esi == mem[rec + 16] && r.edi == mem[rec + 20] && r.esp == mem[rec + 24] && r.ebp == mem[rec + 28]
      && r.eip == mem[rec + 32] && r.eflags == mem[rec + 36] && r.cr3 == mem[rec + 40]
  {
    RunSound(ts, run, j);
    SuspendedUnchanged(ts, run, 0, j, t);
    StepKeeps(ts, run[j], run[j + 1], t);
  }
}
