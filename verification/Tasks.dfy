/** The task table of src/task.c: records, initial stacks, and the ring that preemption walks. */
module Tasks {
  import opened Types
  import opened ContextSwitch
  import opened TaskRuns

  const MAX_PROCESSES := 10
  const PAGE := 0x1000

  class Process {
    var regs: Context
    var isActive: bool
    var next: Process?

    constructor ()
      ensures regs == Context(0, 0, 0, 0, 0, 0, 0, 0, 0, 0, 0) && !isActive && next == null
    {
      regs := Context(0, 0, 0, 0, 0, 0, 0, 0, 0, 0, 0);
      isActive := false;
      next := null;
    }
  }

  class Table {
    const processes: seq<Process>
    var processesCount: u8
    var running: Process

    ghost predicate Valid()
      reads this, processes
    {
      && |processes| == MAX_PROCESSES && 1 <= processesCount <= MAX_PROCESSES
      && (forall i, j :: 0 <= i < j < |processes| ==> processes[i] != processes[j])
      && (forall i :: 0 <= i < processesCount - 1 ==> processes[i].next == processes[i + 1])
      && processes[processesCount - 1].next == null
    }

    /** No created task has been suspended yet: every one still has the stack pointer it was given. */
    ghost predicate FreshStacks()
      requires Valid()
      reads this, processes
    {
      forall i :: 1 <= i < processesCount ==> processes[i].regs.esp == PAGE * i && processes[i].isActive
    }

    ghost predicate Running(k: nat)
      reads this, processes
    {
      Valid() && k < processesCount && running == processes[k]
    }

    /** `initTasking` before the first `createTask`: one task, the caller. */
    constructor (processes: seq<Process>, cr3: u32, eflags: u32)
      requires |processes| == MAX_PROCESSES
      requires forall i, j :: 0 <= i < j < |processes| ==> processes[i] != processes[j]
      requires forall i :: 0 <= i < |processes| ==> processes[i].next == null
      modifies processes
      ensures this.processes == processes && processesCount == 1 && Running(0) && FreshStacks()
      ensures processes[0].regs == old(processes[0].regs).(cr3 := cr3, eflags := eflags)
    {
      this.processes := processes;
      processesCount := 1;
      running := processes[0];
      new;
      processes[0].isActive := true;
      processes[0].regs := processes[0].regs.(cr3 := cr3, eflags := eflags);
    }

    /** `createTask(&processes[processesCount], handler, flags, pagedir)`. */
    method CreateTask(handler: u32, flags: u32, pagedir: u32)
      requires Valid() && processesCount < MAX_PROCESSES
      modifies this`processesCount, processes
      ensures Valid() && processesCount == old(processesCount) + 1
      ensures old(FreshStacks()) ==> FreshStacks()
      ensures var task := processes[old(processesCount)];
        && task.regs == Context(0, 0, 0, 0, 0, 0, 0x1000 * old(processesCount), old(task.regs.ebp), handler, flags, pagedir)
        && task.isActive && task.next == null && processes[old(processesCount) - 1].next == task
      ensures forall i :: 0 <= i < |processes| && i != old(processesCount) ==> processes[i].regs == old(processes[i].regs)
    {
      var task := processes[processesCount];
      task.regs := Context(0, 0, 0, 0, 0, 0, PAGE * processesCount, task.regs.ebp, handler, flags, pagedir);
      task.next := null;
      task.isActive := true;
      processes[processesCount - 1].next := task;
      processesCount := processesCount + 1;
    }

    /** The successor choice of `k_preempt`; null stands for the first task. */
    method Advance(ghost k: nat) returns (last: Process)
      requires Running(k)
      modifies this`running
      ensures last == old(running) && running == if last.next != null then last.next else processes[0]
      ensures running == old(Walk(k, 1)) && Running(Successor(processesCount, k))
    {
      assert Walk(k, 0) == running;
      last := running;
      var next := running.next;
      running := if next != null then next else processes[0];
    }

    /** The task reached from the running one, number `k`, by following `next` `m` times. */
    ghost function Walk(k: nat, m: nat): (p: Process)
      requires Running(k)
      reads this, processes
      ensures After(processesCount, k, m) < processesCount && p == processes[After(processesCount, k, m)]
    {
      if m == 0 then running
      else
        var last := Walk(k, m - 1);
        if last.next != null then last.next else processes[0]
    }

    /** The task met `j` steps after the first `start`. */
    ghost function Met(k: nat, start: nat, j: nat): Process
      requires Running(k)
      reads this, processes
    {
      Walk(k, start + j)
    }

    /** Of the `processesCount` tasks met from step `start` on, task `t` is exactly the one at distance `m`. */
    ghost predicate MetOnlyAt(k: nat, start: nat, t: nat, m: nat)
      requires Running(k) && t < processesCount
      reads this, processes
    {
      forall j: nat :: j < processesCount ==> (Met(k, start, j) == processes[t] <==> j == m)
    }

    /** Following `next`, from wherever one starts, meets every created task exactly once per round and then
        the first one again. */
    lemma RingVisitsEachOnce(k: nat, start: nat, t: nat)
      requires Running(k) && t < processesCount
      ensures exists m: nat :: m < processesCount && MetOnlyAt(k, start, t, m)
      ensures Walk(k, start + processesCount) == Walk(k, start)
    {
      EachOncePerRound(processesCount, k, start, t);
      var m: nat :| m < processesCount && OnlyTurn(processesCount, k, start, t, m);
      forall j: nat | j < processesCount
        ensures Met(k, start, j) == processes[t] <==> j == m
      {
        AfterInRange(processesCount, k, start + j);
        assert Met(k, start, j) == processes[Turn(processesCount, k, start, j)];
      }
      assert MetOnlyAt(k, start, t, m);
    }
  }

  function Successor(count: nat, k: nat): nat {
    if k + 1 < count then k + 1 else 0
  }

  /** The ring position that runs after `m` switches. */
  function After(count: nat, k: nat, m: nat): nat {
    if m == 0 then k else Successor(count, After(count, k, m - 1))
  }

  lemma {:induction false} AfterWithinRound(count: nat, k: nat, m: nat)
    requires k < count && m <= count
    ensures After(count, k, m) == if k + m < count then k + m else k + m - count
  {
    if m > 0 {
      AfterWithinRound(count, k, m - 1);
    }
  }

  /** In every round of `count` switches, from wherever it starts, each task runs exactly once, and the
      ring is back where it was. */
  lemma EachOncePerRound(count: nat, k: nat, start: nat, t: nat)
    requires k < count && t < count
    ensures exists m: nat :: m < count && OnlyTurn(count, k, start, t, m)
    ensures After(count, k, start + count) == After(count, k, start)
  {
    AfterInRange(count, k, start);
    var s := After(count, k, start);
    var m := if t >= s then t - s else t + count - s;
    forall j: nat | j <= count
      ensures Turn(count, k, start, j) == if s + j < count then s + j else s + j - count
    {
      AfterAdd(count, k, start, j);
      AfterWithinRound(count, s, j);
    }
    assert Turn(count, k, start, count) == s;
    assert OnlyTurn(count, k, start, t, m);
  }

  /** The ring position that runs `j` switches after the first `start`. */
  function Turn(count: nat, k: nat, start: nat, j: nat): nat {
    After(count, k, start + j)
  }

  /** Of the `count` turns from `start` on, task `t` has exactly the one at distance `m`. */
  ghost predicate OnlyTurn(count: nat, k: nat, start: nat, t: nat, m: nat) {
    forall j: nat :: j < count ==> (Turn(count, k, start, j) == t <==> j == m)
  }

  lemma {:induction false} AfterInRange(count: nat, k: nat, m: nat)
    requires k < count
    ensures After(count, k, m) < count
  {
    if m > 0 {
      AfterInRange(count, k, m - 1);
    }
  }

  lemma {:induction false} AfterAdd(count: nat, k: nat, m: nat, n: nat)
    ensures After(count, k, m + n) == After(count, After(count, k, m), n)
  {
    if n > 0 {
      AfterAdd(count, k, m, n - 1);
    }
  }

  // ---- the ring in the memory of a run

  /** Where the link lies in a Task, behind the record and four words. */
  const NEXT := 60

  ghost function Link(mem: Memory, t: TaskRuns.Task): u32
    requires Mapped(mem) && Linkable(t)
  {
    mem[t.rec + NEXT]
  }

  ghost predicate Linkable(t: TaskRuns.Task) {
    0 < t.rec && t.rec + NEXT + 4 <= TOP
  }

  /** Links lie apart from all records and stacks. */
  ghost predicate LinksApart(ts: seq<TaskRuns.Task>) {
    (forall i :: 0 <= i < |ts| ==> Linkable(ts[i])) &&
    (forall i, j :: 0 <= i < |ts| && 0 <= j < |ts| ==> LinkApart(ts[i], ts[j]))
  }

  ghost predicate LinkApart(t: TaskRuns.Task, u: TaskRuns.Task) {
    Apart(t.rec + NEXT, 4, u.rec, RECORD) && (u.lo < u.hi ==> Apart(t.rec + NEXT, 4, u.lo, u.hi - u.lo))
  }

  /** The links that `createTask` leaves: each task points to the next one, the last one to none. */
  ghost predicate Linked(mem: Memory, ts: seq<TaskRuns.Task>)
    requires Mapped(mem) && LinksApart(ts)
  {
    forall i :: 0 <= i < |ts| ==> Link(mem, ts[i]) == LinkOf(ts, i)
  }

  function LinkOf(ts: seq<TaskRuns.Task>, i: nat): int
    requires i < |ts|
  {
    if i + 1 < |ts| then ts[i + 1].rec else 0
  }

  /** The record `k_preempt` switches to: that of the linked task, or of the first one. */
  ghost function Chosen(mem: Memory, ts: seq<TaskRuns.Task>, cur: nat): int
    requires Mapped(mem) && LinksApart(ts) && cur < |ts|
  {
    var next := Link(mem, ts[cur]);
    if next != 0 then next else ts[0].rec
  }

  ghost predicate SameLinks(a: Memory, b: Memory, ts: seq<TaskRuns.Task>)
    requires Mapped(a) && Mapped(b) && LinksApart(ts)
  {
    forall i :: 0 <= i < |ts| ==> Link(b, ts[i]) == Link(a, ts[i])
  }

  /** One step under preemption: the running task computes without writing links, or it switches to the
      record that `k_preempt` chooses. */
  ghost predicate PreemptiveStep(ts: seq<TaskRuns.Task>, w: World, w': World)
    requires Layout(ts) && LinksApart(ts) && Sound(ts, w)
  {
    (Works(ts, w, w') && SameLinks(w.m.mem, w'.m.mem, ts)) ||
    (Switches(ts, w, w') && ts[w'.cur].rec == Chosen(w.m.mem, ts, w.cur))
  }

  ghost predicate PreemptiveRun(ts: seq<TaskRuns.Task>, run: seq<World>)
    requires Layout(ts) && LinksApart(ts)
  {
    run != [] && Sound(ts, run[0]) && Linked(run[0].m.mem, ts) &&
    forall k :: 0 <= k < |run| - 1 ==> Sound(ts, run[k]) ==> PreemptiveStep(ts, run[k], run[k + 1])
  }

  lemma LinkElsewhere(before: Memory, after: Memory, c: TaskRuns.Task, esp: int, n: TaskRuns.Task, newEsp: int,
                      t: TaskRuns.Task)
    requires Mapped(before) && Mapped(after) && Elsewhere(before, after, c.rec, esp, newEsp)
    requires Linkable(t) && LinkApart(t, c) && LinkApart(t, n)
    requires c.lo + SCRATCH <= esp <= c.hi && n.lo + 4 <= newEsp <= n.hi
    ensures Link(after, t) == Link(before, t)
  {
  }

  /** A switch writes no link. */
  lemma SwitchKeepsLink(ts: seq<TaskRuns.Task>, w: World, w': World, i: nat)
    requires Layout(ts) && LinksApart(ts) && Sound(ts, w) && Switches(ts, w, w') && i < |ts|
    ensures Mapped(w'.m.mem) && Link(w'.m.mem, ts[i]) == Link(w.m.mem, ts[i])
  {
    hide Separate, Elsewhere, LinkApart, Linkable;
    var c, n := ts[w.cur], ts[w'.cur];
    assert LinkApart(ts[i], c) && LinkApart(ts[i], n);
    if w'.cur != w.cur {
      RecordsDiffer(ts, w.cur, w'.cur);
      assert Parked(w.m, n);
    }
    LinkElsewhere(w.m.mem, w'.m.mem, c, w.m.regs.esp, n, w'.m.regs.esp, ts[i]);
  }

  lemma RecordsDiffer(ts: seq<TaskRuns.Task>, i: nat, j: nat)
    requires Layout(ts) && i < |ts| && j < |ts| && i != j
    ensures ts[i].rec != ts[j].rec
  {
    assert Separate(ts[i], ts[j]);
  }

  lemma ChosenIsSuccessor(mem: Memory, ts: seq<TaskRuns.Task>, cur: nat)
    requires Mapped(mem) && LinksApart(ts) && Linked(mem, ts) && cur < |ts|
    ensures Chosen(mem, ts, cur) == ts[Successor(|ts|, cur)].rec
  {
    assert Link(mem, ts[cur]) == LinkOf(ts, cur);
    if cur + 1 < |ts| {
      assert Linkable(ts[cur + 1]);
    }
  }

  lemma SameLinksLinked(before: Memory, after: Memory, ts: seq<TaskRuns.Task>)
    requires Mapped(before) && Mapped(after) && LinksApart(ts)
    requires Linked(before, ts) && SameLinks(before, after, ts)
    ensures Linked(after, ts)
  {
    hide LinkApart, Link;
  }

  /** Under preemption the links stay as they are, and the next task to run is the successor in the ring. */
  lemma PreemptionFollowsRing(ts: seq<TaskRuns.Task>, w: World, w': World)
    requires Layout(ts) && LinksApart(ts) && Sound(ts, w) && Linked(w.m.mem, ts) && PreemptiveStep(ts, w, w')
    ensures Next(ts, w, w') && Mapped(w'.m.mem) && Linked(w'.m.mem, ts)
    ensures w'.cur == w.cur || w'.cur == Successor(|ts|, w.cur)
  {
    hide Placed, Separate, LinkApart, Link, Linked, Chosen, Callable, Switched, Parked, Owns;
    if Switches(ts, w, w') && ts[w'.cur].rec == Chosen(w.m.mem, ts, w.cur) {
      assert Mapped(w'.m.mem) by {
        SwitchKeepsLink(ts, w, w', w.cur);
      }
      forall i | 0 <= i < |ts|
        ensures Link(w'.m.mem, ts[i]) == Link(w.m.mem, ts[i])
      {
        SwitchKeepsLink(ts, w, w', i);
      }
      ChosenIsSuccessor(w.m.mem, ts, w.cur);
      if w'.cur != Successor(|ts|, w.cur) {
        RecordsDiffer(ts, w'.cur, Successor(|ts|, w.cur));
      }
    }
    SameLinksLinked(w.m.mem, w'.m.mem, ts);
  }

  /** The number of times another task took over in the first `k` steps of a run. */
  function Handovers(run: seq<World>, k: nat): nat
    requires k < |run|
  {
    if k == 0 then 0 else Handovers(run, k - 1) + if run[k].cur != run[k - 1].cur then 1 else 0
  }

  /** In a preemptive run the number of handovers decides who runs. */
  lemma {:induction false} RingDecidesTurns(ts: seq<TaskRuns.Task>, run: seq<World>, k: nat)
    requires Layout(ts) && LinksApart(ts) && PreemptiveRun(ts, run) && k < |run|
    ensures Sound(ts, run[k]) && Linked(run[k].m.mem, ts)
    ensures run[k].cur == After(|ts|, run[0].cur, Handovers(run, k))
  {
    hide Placed, Separate, LinkApart, Linked, Chosen, SameLinks, Works, Switches, Parked;
    if k > 0 {
      RingDecidesTurns(ts, run, k - 1);
      assert PreemptiveStep(ts, run[k - 1], run[k]);
      PreemptionFollowsRing(ts, run[k - 1], run[k]);
      StepSound(ts, run[k - 1], run[k]);
    }
  }

  /** Between handovers `start` and `start + count` of a run, task `t` runs exactly after the one numbered `m`. */
  ghost predicate OnlyAfter(run: seq<World>, start: nat, count: nat, t: nat, m: nat) {
    forall k :: 0 <= k < |run| && start <= Handovers(run, k) < start + count ==>
      (run[k].cur == t <==> Handovers(run, k) == m)
  }

  /** Fairness: of any |ts| consecutive turns of a preemptive run, task `t` has exactly one. */
  lemma TurnsAreFair(ts: seq<TaskRuns.Task>, run: seq<World>, start: nat, t: nat)
    requires Layout(ts) && LinksApart(ts) && PreemptiveRun(ts, run) && t < |ts|
    ensures exists m: nat :: start <= m < start + |ts| && OnlyAfter(run, start, |ts|, t, m)
  {
    EachOncePerRound(|ts|, run[0].cur, start, t);
    var d: nat :| d < |ts| && OnlyTurn(|ts|, run[0].cur, start, t, d);
    forall k | 0 <= k < |run| && start <= Handovers(run, k) < start + |ts|
      ensures run[k].cur == t <==> Handovers(run, k) == start + d
    {
      RingDecidesTurns(ts, run, k);
      var j := Handovers(run, k) - start;
      assert Turn(|ts|, run[0].cur, start, j) == run[k].cur;
    }
    assert OnlyAfter(run, start, |ts|, t, start + d);
  }

  // ---- the memory of freshly created tasks

  /** sizeof(Task): the record, pid, page directory, kernel stack, flag and link. */
  const TASK_SIZE := 64

  /** Task `i` of a table at `base`: its record and, for a created one, the page below its first stack pointer. */
  function Created(base: int, i: nat, main: TaskRuns.Task): TaskRuns.Task {
    if i == 0 then main else TaskRuns.Task(base + TASK_SIZE * i, PAGE * (i - 1), PAGE * i)
  }

  lemma CreatedPair(base: int, i: nat, j: nat, main: TaskRuns.Task)
    requires i < MAX_PROCESSES && j < MAX_PROCESSES
    requires base % 4 == 0 && PAGE * MAX_PROCESSES <= base && base + TASK_SIZE * MAX_PROCESSES <= TOP
    requires main.rec == base && Placed(main) && PAGE * MAX_PROCESSES <= main.lo
    requires Apart(base, TASK_SIZE * MAX_PROCESSES, main.lo, main.hi - main.lo)
    ensures var t, u := Created(base, i, main), Created(base, j, main);
      Placed(t) && Placed(u) && Linkable(t) && LinkApart(t, u) && (i != j ==> Separate(t, u))
  {
    assert i < j ==> TASK_SIZE * i + TASK_SIZE <= TASK_SIZE * j;
    assert j < i ==> TASK_SIZE * j + TASK_SIZE <= TASK_SIZE * i;
  }

  /** Created tasks have disjoint records, links and stacks, provided the table and the boot stack lie above
      the pages handed out. */
  lemma CreatedTasksSeparate(base: int, count: nat, main: TaskRuns.Task, ts: seq<TaskRuns.Task>)
    requires 1 <= count <= MAX_PROCESSES && |ts| == count
    requires forall i :: 0 <= i < count ==> ts[i] == Created(base, i, main)
    requires base % 4 == 0 && PAGE * MAX_PROCESSES <= base && base + TASK_SIZE * MAX_PROCESSES <= TOP
    requires main.rec == base && Placed(main) && PAGE * MAX_PROCESSES <= main.lo
    requires Apart(base, TASK_SIZE * MAX_PROCESSES, main.lo, main.hi - main.lo)
    ensures Layout(ts) && LinksApart(ts)
  {
    hide Placed, Separate, Linkable, LinkApart, Created;
    forall i | 0 <= i < count
      ensures Placed(ts[i]) && Linkable(ts[i])
    {
      CreatedPair(base, i, i, main);
    }
    forall i, j | 0 <= i < count && 0 <= j < count
      ensures LinkApart(ts[i], ts[j]) && (i != j ==> Separate(ts[i], ts[j]))
    {
      CreatedPair(base, i, j, main);
    }
  }

  /** With the stack pointers that `CreateTask` stores, the created tasks form a sound world while the
      first task runs, so what is proved of runs holds from there on. */
  lemma CreatedWorldIsSound(base: int, main: TaskRuns.Task, ts: seq<TaskRuns.Task>, m: Machine)
    requires Layout(ts) && 1 <= |ts| && Mapped(m.mem)
    requires forall i :: 0 <= i < |ts| ==> ts[i] == Created(base, i, main)
    requires forall i :: 1 <= i < |ts| ==> Record(m.mem, ts[i].rec).esp == PAGE * i
    ensures Sound(ts, World(m, 0))
  {
    forall i | 0 <= i < |ts| && i != 0
      ensures Parked(m, ts[i])
    {
      assert ts[i] == Created(base, i, main);
    }
  }
}
