/** The life of a task (kernel/proc/task.c): when a slot is filled, run, left, ended and reclaimed, and
    that a program the loader waited for is gone when the loader goes on. */
module KernelLives {
  import opened Common
  import opened Paging
  import opened PagingInv
  import opened PagingSteps
  import opened Tasks
  import opened TasksInv
  import opened TasksSteps
  import opened ExecSteps
  import opened ReapSteps
  import opened KernelRuns

  // ---- schedule and task_exit ----

  /** Slot `n` is the READY one that comes first after `from`. */
  ghost predicate Nearest(tasks: seq<Task>, from: nat, n: nat)
    requires |tasks| == MAX_TASKS && from < MAX_TASKS
  {
    && n < MAX_TASKS && tasks[n].state == Ready
    && forall j | 0 <= j < MAX_TASKS && tasks[j].state == Ready :: Distance(from, n) <= Distance(from, j)
  }

  /** The processor was switched to slot `n`; the task that left it is in state `left`. */
  ghost predicate Switched(k: Kernel, r: Kernel, left: TaskState, n: nat)
    requires KWf(k)
  {
    && n < MAX_TASKS && n != k.current && r.pages == k.pages && r.nextId == k.nextId && r.exec == k.exec
    && r.current == n && r.cr3 == k.tasks[n].cr3 && (k.tasks[n].ring3 ==> r.esp0 == k.tasks[n].stackTop)
    && |r.tasks| == MAX_TASKS
    && forall i | 0 <= i < MAX_TASKS ::
         r.tasks[i] == if i == k.current then k.tasks[i].(state := left)
                       else if i == n then k.tasks[i].(state := Running)
                       else k.tasks[i]
  }

  /** `schedule` runs the nearest READY task and leaves the running one READY; if none is READY it changes
      nothing. */
  lemma ScheduleIs(k: Kernel)
    requires KInv(k)
    ensures
      if exists j :: 0 <= j < MAX_TASKS && k.tasks[j].state == Ready
      then Nearest(k.tasks, k.current, Schedule(k).current) && Switched(k, Schedule(k), Ready, Schedule(k).current)
      else Schedule(k) == k
  {
    hide Inv, SlotsInv, ParentsInv, HeldInv, LoadInv, ReapInv, Distinct, PickNext;
    if j :| 0 <= j < MAX_TASKS && k.tasks[j].state == Ready {
      PickNextReady(k.tasks, k.current, j);
      PicksNearest(k.tasks, k.current, j);
    } else {
      PicksItself(k.tasks, k.current);
    }
  }

  lemma PicksNearest(tasks: seq<Task>, from: nat, j: nat)
    requires |tasks| == MAX_TASKS && from < MAX_TASKS && j < MAX_TASKS && tasks[j].state == Ready
    ensures Nearest(tasks, from, PickNext(tasks, from))
  {
    hide PickNext;
    forall i: nat | i < MAX_TASKS && tasks[i].state == Ready
      ensures tasks[PickNext(tasks, from)].state == Ready
      ensures Distance(from, PickNext(tasks, from)) <= Distance(from, i)
    {
      PickNextReady(tasks, from, i);
    }
  }

  lemma PicksItself(tasks: seq<Task>, from: nat)
    requires |tasks| == MAX_TASKS && from < MAX_TASKS && forall j | 0 <= j < MAX_TASKS :: tasks[j].state != Ready
    ensures PickNext(tasks, from) == from
  {
    PickFromNearest(tasks, from, 1);
  }

  /** `task_exit` runs the nearest READY task and leaves the running one a zombie. */
  lemma ExitIs(k: Kernel)
    requires KInv(k) && k.current != 0
    ensures Nearest(k.tasks, k.current, Exit(k).current) && Switched(k, Exit(k), Zombie, Exit(k).current)
  {
    hide Inv, SlotsInv, ParentsInv, HeldInv, LoadInv, ReapInv, Distinct, PickNext;
    var tasks := SetState(k.tasks, k.current, Zombie);
    assert tasks[0].state == Ready;
    PicksNearest(tasks, k.current, 0);
    PickNextReady(tasks, k.current, 0);
  }

  // ---- creation ----

  predicate Creates(s: Step) { s.CreateStep? || s.SpawnStep? || s.ExecCreateStep? }

  /** A step that creates a task finds a slot and, for a child, a caller in ring 3. */
  ghost predicate Fruitful(k: Kernel, s: Step)
    requires Sized(k)
  {
    && Creates(s) && (exists j :: 0 <= j < MAX_TASKS && k.tasks[j].state == Unused)
    && (s.SpawnStep? ==> k.tasks[k.current].ring3)
  }

  /** A new task: READY, the next id, in ring 3 with its own kernel stack unless a kernel task, and the
      caller's child if it was spawned. */
  ghost predicate Born(k: Kernel, s: Step, i: nat, t: Task)
    requires Sized(k)
  {
    && t.state == Ready && t.id == k.nextId && t.cr3.Pool?
    && t.ring3 == (s.CreateStep? ==> s.ring3) && (t.ring3 ==> t.stackTop == StackTop(i))
    && t.parent == if s.SpawnStep? then k.tasks[k.current].id else -1
  }

  ghost predicate FirstFree(tasks: seq<Task>, i: nat)
  {
    i < |tasks| && tasks[i].state == Unused && forall j | 0 <= j < i :: tasks[j].state != Unused
  }

  /** Creation fills the first free slot with the new task; it fails just for want of a slot or, for a
      child, of a caller in ring 3. */
  lemma CreationIs(k: Kernel, s: Step)
    requires KInv(k) && Creates(s) && Enabled(k, s)
    ensures
      var r := Next(k, s);
      if Fruitful(k, s) then
        && r.nextId == k.nextId + 1 && r.current == k.current
        && exists i: nat :: FirstFree(k.tasks, i) && r.tasks == k.tasks[i := r.tasks[i]] && Born(k, s, i, r.tasks[i])
      else r.tasks == k.tasks && r.nextId == k.nextId && r.current == k.current
  {
    hide Inv, SlotsInv, ParentsInv, HeldInv, SchedInv, BootTaskInv, Distinct, LoadInv, ReapInv;
    hide Create, Spawn, ExecCreate, Born;
    var i := FreeTask(k.tasks);
    Counted(k, s);
    if i.Some? {
      assert FirstFree(k.tasks, i.value);
      FreeSlotEmpty(k, i.value);
    }
    if Fruitful(k, s) { Filled(k, s); } else { Unfilled(k, s); }
  }

  /** Whether an id was handed out. */
  lemma Counted(k: Kernel, s: Step)
    requires KInv(k) && Creates(s) && Enabled(k, s)
    ensures
      Fruitful(k, s) ==> FreeTask(k.tasks).Some? && Next(k, s).nextId == k.nextId + 1
  {
    hide Inv, SlotsInv, ParentsInv, HeldInv, SchedInv, BootTaskInv, Distinct, LoadInv, ReapInv, Create, Spawn;
    match s
    case CreateStep(ring3) => CreateKeeps(k, ring3);
    case SpawnStep => SpawnKeeps(k);
    case ExecCreateStep =>
      hide MapPrivate, FreeAll;
      ExecCreateKeeps(k);
  }

  lemma Unfilled(k: Kernel, s: Step)
    requires KWf(k) && Creates(s) && Enabled(k, s) && !Fruitful(k, s)
    ensures
      var r := Next(k, s);
      r.tasks == k.tasks && r.nextId == k.nextId && r.current == k.current
  {
    hide MapPrivate, MapPages, CloneDir, FreeAll;
  }

  lemma FreeSlotEmpty(k: Kernel, i: nat)
    requires KInv(k) && i < MAX_TASKS && k.tasks[i].state == Unused
    ensures !k.tasks[i].ring3 && i != 0
  {
    hide Inv, ParentsInv, HeldInv, LoadInv, ReapInv, Distinct;
    assert i != 0;
    assert SlotInv(k, i);
  }

  lemma Filled(k: Kernel, s: Step)
    requires KWf(k) && Enabled(k, s) && Creates(s) && Next(k, s).nextId == k.nextId + 1
    requires FreeTask(k.tasks).Some? && !k.tasks[FreeTask(k.tasks).value].ring3
    ensures
      var r, i := Next(k, s), FreeTask(k.tasks).value;
      r.current == k.current && r.tasks == k.tasks[i := r.tasks[i]] && Born(k, s, i, r.tasks[i])
  {
    hide MapPrivate, MapPages, CloneDir, FreeAll, SharePde;
  }

  // ---- task_reap ----

  /** Task `i`, with its directory, tables and frames, is given back, and nothing else is touched. */
  ghost predicate GivenBack(k: Kernel, r: Kernel, i: nat)
    requires KWf(k) && i < MAX_TASKS
  {
    && KWf(r) && r.current == k.current && r.nextId == k.nextId
    && r.tasks == k.tasks[i := FREE_TASK] && Freed(k.pages, r.pages, DirOf(k, i))
  }

  function Top(k: Kernel): Reap
    requires k.exec.Reaping? && k.exec.calls != []
  {
    k.exec.calls[|k.exec.calls| - 1]
  }

  /** The innermost activation stands at a child that has not exited. */
  predicate WaitsForChild(k: Kernel)
    requires Sized(k) && k.exec.Reaping? && k.exec.calls != []
  {
    Top(k).j < MAX_TASKS && IsChild(k.tasks, Top(k).id, Top(k).j) && k.tasks[Top(k).j].state != Zombie
  }

  /** A turn of the child loop touches no task; the turn after it gives the task back. */
  lemma TurnIs(k: Kernel)
    requires KInv(k) && k.exec.Reaping?
    ensures k.exec.calls != []
    ensures
      var r, top := ReapTurn(k), Top(k);
      if top.j < MAX_TASKS then r == k.(exec := r.exec) && r.exec.Reaping? && (WaitsForChild(k) ==> r == k)
      else GivenBack(k, r, top.slot) && (r.exec == Idle <==> |k.exec.calls| == 1) && (r.exec.Idle? || r.exec.Reaping?)
  {
    hide Inv, SlotsInv, ParentsInv, HeldInv, SchedInv, BootTaskInv, Distinct, LoadInv, FreePrivate, Freed;
    if Top(k).j >= MAX_TASKS {
      LoopDoneChildless(k);
      ReclaimFrees(k, Top(k).slot);
    }
  }

  lemma ReclaimFrees(k: Kernel, i: nat)
    requires KInv(k) && 0 < i < MAX_TASKS && k.tasks[i].state == Zombie
    ensures Freed(k.pages, Reclaim(k, i).pages, DirOf(k, i))
  {
    hide Inv, ParentsInv, HeldInv, SchedInv, Distinct, LoadInv, ReapInv, Freed, FreePrivate;
    assert SlotInv(k, i);
    FreeAllFrees(k.pages, DirOf(k, i));
  }

  // ---- what any step makes of a slot ----

  /** What a step may make of slot `i`. */
  ghost predicate LivesOn(k: Kernel, s: Step, i: nat, u: Task)
    requires KWf(k) && i < MAX_TASKS
  {
    var t := k.tasks[i];
    match t.state
    case Unused => u == t || (Creates(s) && Born(k, s, i, u))
    case Ready => u == t || ((s.ScheduleStep? || s.ExitStep?) && u == t.(state := Running))
    case Running =>
      if s.ExitStep? then u == t.(state := Zombie) else u == t || (s.ScheduleStep? && u == t.(state := Ready))
    case Blocked => false
    case Zombie => u == t || (s.ReapStep? && u == FREE_TASK)
  }

  /** In every reachable state, whatever the step: a slot keeps its task, or the task is born, run,
      preempted, ended or reclaimed by the one call that does so. */
  lemma LifeCycle(k: Kernel, s: Step, i: nat)
    requires Reachable(k) && KWf(k) && Enabled(k, s) && i < MAX_TASKS
    ensures LivesOn(k, s, i, Next(k, s).tasks[i])
  {
    hide *;
    ReachableInv(k);
    SlotLives(k, s, i);
  }

  lemma SlotLives(k: Kernel, s: Step, i: nat)
    requires KInv(k) && Enabled(k, s) && i < MAX_TASKS
    ensures LivesOn(k, s, i, Next(k, s).tasks[i]) && k.nextId <= Next(k, s).nextId
  {
    hide Inv, SlotsInv, ParentsInv, HeldInv, BootTaskInv, Distinct, LoadInv, ReapInv;
    hide Schedule, Exit, ReapTurn, Create, Spawn, ExecCreate, Freed;
    if s.ScheduleStep? {
      ScheduleIs(k);
    } else if s.ExitStep? {
      ExitIs(k);
    } else if s.ReapStep? {
      TurnIs(k);
      if Top(k).j >= MAX_TASKS { LoopDoneChildless(k); }
    } else if Creates(s) {
      CreationIs(k, s);
    } else {
      OtherSteps(k, s);
    }
  }

  lemma OtherSteps(k: Kernel, s: Step)
    requires KWf(k) && Enabled(k, s) && !s.ScheduleStep? && !s.ExitStep? && !s.ReapStep? && !Creates(s)
    ensures Next(k, s).tasks == k.tasks && Next(k, s).nextId == k.nextId && Next(k, s).current == k.current
  {}

  // ---- over runs ----

  /** The task in slot `i` does not call task_exit on this run. */
  ghost predicate NeverExits(k: Kernel, steps: seq<Step>, i: nat)
    requires KWf(k) && Valid(k, steps)
    decreases |steps|
  {
    steps == [] || (!(steps[0].ExitStep? && k.current == i) && NeverExits(Next(k, steps[0]), steps[1..], i))
  }

  predicate Runnable(t: Task) { t.state == Ready || t.state == Running }

  lemma RunnableStep(k: Kernel, s: Step, i: nat)
    requires KInv(k) && Enabled(k, s) && i < MAX_TASKS && Runnable(k.tasks[i])
    ensures
      var t, u := k.tasks[i], Next(k, s).tasks[i];
      && u == t.(state := u.state)
      && if s.ExitStep? && k.current == i then u.state == Zombie else Runnable(u)
  {
    hide Inv, SlotsInv, ParentsInv, HeldInv, BootTaskInv, Distinct, LoadInv, ReapInv, Next, Enabled;
    SlotLives(k, s, i);
  }

  /** A task that does not exit stays READY or RUNNING, with its id, directory and parent, on every run;
      nobody else can end it. */
  lemma {:induction false} AliveUntilExit(k: Kernel, steps: seq<Step>, i: nat)
    requires KInv(k) && Valid(k, steps) && i < MAX_TASKS && Runnable(k.tasks[i]) && NeverExits(k, steps, i)
    ensures
      var t, u := k.tasks[i], After(k, steps).tasks[i];
      Runnable(u) && u == t.(state := u.state)
    decreases |steps|
  {
    hide Inv, SlotsInv, ParentsInv, HeldInv, SchedInv, BootTaskInv, Distinct, LoadInv, ReapInv, Next, Enabled;
    if steps != [] {
      RunnableStep(k, steps[0], i);
      NextKeeps(k, steps[0]);
      AliveUntilExit(Next(k, steps[0]), steps[1..], i);
    }
  }

  /** Id `id`, handed out already, is no longer that of a runnable task in slot `i`. */
  ghost predicate Over(k: Kernel, i: nat, id: int)
    requires Sized(k) && i < MAX_TASKS
  {
    0 <= id < k.nextId && (k.tasks[i].id == id ==> k.tasks[i].state == Zombie || k.tasks[i].state == Unused)
  }

  lemma {:induction false} OverForGood(k: Kernel, steps: seq<Step>, i: nat, id: int)
    requires KInv(k) && Valid(k, steps) && i < MAX_TASKS && Over(k, i, id)
    ensures Over(After(k, steps), i, id)
    decreases |steps|
  {
    hide Inv, SlotsInv, ParentsInv, HeldInv, SchedInv, BootTaskInv, Distinct, LoadInv, ReapInv, Next, Enabled;
    if steps != [] {
      SlotLives(k, steps[0], i);
      NextKeeps(k, steps[0]);
      OverForGood(Next(k, steps[0]), steps[1..], i, id);
    }
  }

  /** A task that exits never runs again. */
  lemma {:induction false} ExitIsFinal(k: Kernel, steps: seq<Step>, i: nat)
    requires KInv(k) && Valid(k, steps) && i < MAX_TASKS && Runnable(k.tasks[i]) && !NeverExits(k, steps, i)
    ensures Over(After(k, steps), i, k.tasks[i].id)
    decreases |steps|
  {
    hide Inv, ParentsInv, HeldInv, SchedInv, Distinct, LoadInv, ReapInv, Next, Enabled;
    var v := Next(k, steps[0]);
    RunnableStep(k, steps[0], i);
    NextKeeps(k, steps[0]);
    if steps[0].ExitStep? && k.current == i {
      KnownId(v, i);
      hide SlotsInv, BootTaskInv;
      OverForGood(v, steps[1..], i, k.tasks[i].id);
    } else {
      ExitIsFinal(v, steps[1..], i);
    }
  }

  lemma KnownId(k: Kernel, i: nat)
    requires KInv(k) && i < MAX_TASKS && Live(k, i)
    ensures 0 <= k.tasks[i].id < k.nextId
  {
    hide Inv, ParentsInv, HeldInv, LoadInv, ReapInv, Distinct;
    if i != 0 { assert SlotInv(k, i); }
  }

  /** In a reachable state: a task is READY or RUNNING until it calls task_exit, and never after. */
  lemma EndsByExitOnly(k: Kernel, steps: seq<Step>, i: nat)
    requires Reachable(k) && KWf(k) && Valid(k, steps) && i < MAX_TASKS && Runnable(k.tasks[i])
    ensures
      var t, u := k.tasks[i], After(k, steps).tasks[i];
      NeverExits(k, steps, i) <==> Runnable(u) && u.id == t.id
  {
    hide Inv, SlotsInv, ParentsInv, HeldInv, SchedInv, BootTaskInv, Distinct, LoadInv, ReapInv;
    hide Reachable, Valid, After, NeverExits, Runnable, Over;
    ReachableInv(k);
    if NeverExits(k, steps, i) {
      AliveUntilExit(k, steps, i);
      SameId(k.tasks[i], After(k, steps).tasks[i]);
    } else {
      ExitIsFinal(k, steps, i);
      NotRunnable(After(k, steps), i, k.tasks[i].id);
    }
  }

  lemma SameId(t: Task, u: Task)
    requires u == t.(state := u.state)
    ensures u.id == t.id
  {}

  lemma NotRunnable(k: Kernel, i: nat, id: int)
    requires Sized(k) && i < MAX_TASKS && Over(k, i, id)
    ensures !(Runnable(k.tasks[i]) && k.tasks[i].id == id)
  {}

  // ---- the cascade comes to an end ----

  ghost function LiveSlots(k: Kernel): set<nat>
    requires Sized(k)
  {
    set i: nat | i < MAX_TASKS && Live(k, i)
  }

  /** What is left to do: tasks to reclaim, activations to enter, slots to look at. */
  ghost function Work(k: Kernel): int
    requires Sized(k) && k.exec.Reaping? && k.exec.calls != []
  {
    100 * |LiveSlots(k)| + 10 * (MAX_TASKS - |k.exec.calls|) + (MAX_TASKS - Top(k).j)
  }

  /** Activations are of different tasks, so there are at most eight. */
  lemma DepthBound(k: Kernel)
    requires KInv(k) && k.exec.Reaping?
    ensures 0 < |k.exec.calls| <= MAX_TASKS && Top(k).j <= MAX_TASKS && Work(k) >= 0
  {
    hide Inv, SlotsInv, ParentsInv, HeldInv, SchedInv, BootTaskInv, Distinct, LoadInv;
    var c := k.exec.calls;
    forall m, n | 0 <= m < n < |c| ensures c[m].slot != c[n].slot && c[m].slot < MAX_TASKS && c[n].slot < MAX_TASKS {
      assert CallInv(k.tasks, c[m]) && CallInv(k.tasks, c[n]);
    }
    assert CallInv(k.tasks, c[|c| - 1]);
    hide ReapInv, CallInv;
    SlotsBound(c);
  }

  lemma SlotsBound(c: seq<Reap>)
    requires forall m, n | 0 <= m < n < |c| :: c[m].slot != c[n].slot && c[m].slot < MAX_TASKS && c[n].slot < MAX_TASKS
    ensures |c| <= MAX_TASKS
  {
    if |c| > 1 {
      var slot := (m: nat) => if m < |c| then c[m].slot else 0;
      var slots := set m: nat | m < |c| :: c[m].slot;
      forall b | b in slots ensures exists m | m in Below(|c|) :: slot(m) == b {
        var m: nat :| m < |c| && c[m].slot == b;
        assert slot(m) == b && m in Below(|c|);
      }
      forall m | m in Below(|c|) ensures slot(m) in slots {
        assert c[m].slot in slots;
      }
      InjectiveSize(Below(|c|), slot, slots);
      forall b | b in slots ensures b in Below(MAX_TASKS) {
        var m: nat :| m < |c| && c[m].slot == b;
        assert if m > 0 then c[0].slot != c[m].slot else c[0].slot != c[1].slot;
      }
      SmallSubset(slots, Below(MAX_TASKS));
    }
  }

  lemma SmallSubset(a: set<nat>, b: set<nat>)
    requires a <= b
    ensures |a| <= |b|
  {
    if a != b { SmallerSet(a, b); }
  }

  lemma OneFewer(k: Kernel, r: Kernel, i: nat)
    requires Sized(k) && Sized(r) && Live(k, i) && r.tasks == k.tasks[i := FREE_TASK]
    ensures |LiveSlots(r)| == |LiveSlots(k)| - 1
  {
    forall j: nat | j < MAX_TASKS ensures Live(r, j) <==> j != i && Live(k, j) {}
    assert LiveSlots(r) == LiveSlots(k) - {i};
  }

  /** A turn of the loop: on to the next slot, or into the child that stands there. */
  lemma LoopWork(k: Kernel)
    requires KInv(k) && k.exec.Reaping? && k.exec.calls != [] && Top(k).j < MAX_TASKS && !WaitsForChild(k)
    ensures
      var r := ReapTurn(k);
      && r == k.(exec := r.exec) && r.exec.Reaping? && r.exec.calls != []
      && (|r.exec.calls|, Top(r).j) == (if IsChild(k.tasks, Top(k).id, Top(k).j) then (|k.exec.calls| + 1, 0)
                                        else (|k.exec.calls|, Top(k).j + 1))
  {
    hide Inv, SlotsInv, ParentsInv, HeldInv, SchedInv, BootTaskInv, Distinct, LoadInv, ReapInv;
    if IsChild(k.tasks, Top(k).id, Top(k).j) { FindsZombie(k, Top(k).j); }
  }

  /** The last turn: back to the caller. */
  lemma LastWork(k: Kernel)
    requires KInv(k) && k.exec.Reaping? && k.exec.calls != [] && Top(k).j >= MAX_TASKS
    ensures
      var r := ReapTurn(k);
      && |LiveSlots(r)| == |LiveSlots(k)| - 1
      && (r.exec.Reaping? ==> r.exec.calls != [] && |r.exec.calls| == |k.exec.calls| - 1)
  {
    hide Inv, SlotsInv, ParentsInv, HeldInv, SchedInv, BootTaskInv, Distinct, LoadInv, Freed;
    TurnIs(k);
    LoopDoneChildless(k);
    OneFewer(k, ReapTurn(k), Top(k).slot);
  }

  /** Every turn that does not wait for a child leaves less to do. */
  lemma TurnProgress(k: Kernel)
    requires KInv(k) && k.exec.Reaping?
    ensures k.exec.calls != [] && KInv(ReapTurn(k))
    ensures
      var r := ReapTurn(k);
      if WaitsForChild(k) then r == k else r.exec.Reaping? ==> r.exec.calls != [] && 0 <= Work(r) < Work(k)
  {
    hide Inv, SlotsInv, ParentsInv, HeldInv, SchedInv, BootTaskInv, Distinct, LoadInv, ReapInv, ReapTurn, Freed;
    DepthBound(k);
    ReapTurnKeeps(k);
    TurnIs(k);
    var r := ReapTurn(k);
    if r.exec.Reaping? { DepthBound(r); }
    if Top(k).j >= MAX_TASKS {
      LastWork(k);
    } else if !WaitsForChild(k) {
      LoopWork(k);
      assert LiveSlots(r) == LiveSlots(k);
    }
  }

  /** No living task is the child of a zombie, so the cascade waits for nobody. */
  ghost predicate NobodyLeft(k: Kernel)
    requires Sized(k)
  {
    forall i: nat, j: nat | Live(k, i) && k.tasks[i].state == Zombie && IsChild(k.tasks, k.tasks[i].id, j) ::
      k.tasks[j].state == Zombie
  }

  /** No living task has this id, and none will. */
  ghost predicate Gone(k: Kernel, id: int)
    requires Sized(k)
  {
    0 <= id < k.nextId && forall i: nat | Live(k, i) :: k.tasks[i].id != id
  }

  ghost predicate AllReaps(steps: seq<Step>) { forall m | 0 <= m < |steps| :: steps[m] == ReapStep }

  /** The task that task_reap was called on stays the one: the outermost activation is its, until it is
      given back. */
  lemma OutermostStays(k: Kernel)
    requires KInv(k) && k.exec.Reaping?
    ensures k.exec.calls != []
    ensures
      var r, c := ReapTurn(k), k.exec.calls[0];
      if r.exec.Reaping? then r.exec.calls != [] && r.exec.calls[0].(j := 0) == c.(j := 0)
      else r.exec == Idle && r.tasks[c.slot] == FREE_TASK && Gone(r, c.id) && GivenBack(k, r, c.slot)
  {
    hide Inv, SlotsInv, ParentsInv, HeldInv, SchedInv, BootTaskInv, LoadInv, Freed;
    TurnIs(k);
    if Top(k).j >= MAX_TASKS {
      LoopDoneChildless(k);
      if |k.exec.calls| == 1 {
        hide ReapTurn;
        KnownId(k, Top(k).slot);
        GoneAlone(k, ReapTurn(k), Top(k).slot);
      }
    }
  }

  lemma GoneAlone(k: Kernel, r: Kernel, i: nat)
    requires KWf(k) && Distinct(k) && Live(k, i) && 0 <= k.tasks[i].id < k.nextId && GivenBack(k, r, i)
    ensures Gone(r, k.tasks[i].id)
  {
    hide Freed;
  }

  /** Once every descendant has exited, the cascade runs to its end: the task is given back. */
  lemma {:induction false} ReapEnds(k: Kernel) returns (steps: seq<Step>)
    requires KInv(k) && k.exec.Reaping? && NobodyLeft(k)
    ensures k.exec.calls != [] && AllReaps(steps) && |steps| <= 1 + Work(k) && Valid(k, steps)
    ensures
      var r, c := After(k, steps), k.exec.calls[0];
      r.exec == Idle && Gone(r, c.id)
    decreases Work(k)
  {
    hide Inv, SlotsInv, ParentsInv, HeldInv, SchedInv, BootTaskInv, Distinct, LoadInv, Freed, Gone, NobodyLeft;
    NotWaiting(k);
    TurnProgress(k);
    DepthBound(k);
    OutermostStays(k);
    hide ReapTurn, ReapInv, Work, WaitsForChild;
    var v := ReapTurn(k);
    if v.exec.Reaping? {
      StillNobody(k);
      var rest := ReapEnds(v);
      steps := [ReapStep] + rest;
      assert steps[1..] == rest;
    } else {
      steps := [ReapStep];
      assert steps[1..] == [];
    }
  }

  lemma NotWaiting(k: Kernel)
    requires KInv(k) && k.exec.Reaping? && NobodyLeft(k)
    ensures k.exec.calls != [] && !WaitsForChild(k)
  {
    hide Inv, SlotsInv, ParentsInv, HeldInv, SchedInv, BootTaskInv, Distinct, LoadInv;
    var c := k.exec.calls;
    assert CallInv(k.tasks, c[|c| - 1]);
    assert Live(k, Top(k).slot);
  }

  lemma StillNobody(k: Kernel)
    requires KInv(k) && k.exec.Reaping? && NobodyLeft(k)
    ensures k.exec.calls != [] && NobodyLeft(ReapTurn(k))
  {
    hide Inv, SlotsInv, ParentsInv, HeldInv, SchedInv, BootTaskInv, Distinct, LoadInv, Freed;
    TurnIs(k);
    hide ReapTurn;
    var r := ReapTurn(k);
    forall i: nat, j: nat | Live(r, i) && r.tasks[i].state == Zombie && IsChild(r.tasks, r.tasks[i].id, j)
      ensures r.tasks[j].state == Zombie
    {
      assert Live(k, i) && IsChild(k.tasks, k.tasks[i].id, j);
    }
  }

  /** A task that spawned nothing: eight turns look at the slots, the ninth gives it back. */
  lemma {:induction false} NineTurns(k: Kernel, i: nat, j: nat)
    requires KInv(k) && i < MAX_TASKS && j <= MAX_TASKS && k.exec == Reaping([Reap(k.tasks[i].id, i, j)])
    requires forall m: nat :: !IsChild(k.tasks, k.tasks[i].id, m)
    ensures
      var steps := seq(9 - j, _ => ReapStep);
      Valid(k, steps) && GivenBack(k, After(k, steps), i) && After(k, steps).exec == Idle
    decreases MAX_TASKS - j
  {
    hide Inv, SlotsInv, ParentsInv, HeldInv, SchedInv, BootTaskInv, Distinct, LoadInv, ReapInv, Freed, ReapTurn;
    var steps := seq(9 - j, _ => ReapStep);
    ChildlessTurn(k, i, j);
    var v := ReapTurn(k);
    assert steps[0] == ReapStep;
    if j < MAX_TASKS {
      NineTurns(v, i, j + 1);
      assert steps[1..] == seq(9 - (j + 1), _ => ReapStep);
    } else {
      assert steps[1..] == [];
    }
  }

  lemma ChildlessTurn(k: Kernel, i: nat, j: nat)
    requires KInv(k) && i < MAX_TASKS && j <= MAX_TASKS && k.exec == Reaping([Reap(k.tasks[i].id, i, j)])
    requires forall m: nat :: !IsChild(k.tasks, k.tasks[i].id, m)
    ensures KInv(ReapTurn(k))
    ensures
      if j < MAX_TASKS then ReapTurn(k) == k.(exec := Reaping([Reap(k.tasks[i].id, i, j + 1)]))
      else GivenBack(k, ReapTurn(k), i) && ReapTurn(k).exec == Idle
  {
    hide Inv, SlotsInv, ParentsInv, HeldInv, SchedInv, BootTaskInv, Distinct, LoadInv, Freed, Reclaim;
    TurnIs(k);
    ReapTurnKeeps(k);
    var c := k.exec.calls;
    if j < MAX_TASKS { assert Return(c) == [Reap(k.tasks[i].id, i, j + 1)]; }
  }

  // ---- the loader and its program ----

  /** The program with id `id` in slot `i`: waited for, being reaped, or gone. */
  ghost predicate Tracked(k: Kernel, i: nat, id: int)
    requires Sized(k)
  {
    || (k.exec == Waiting(id) && Live(k, i) && k.tasks[i].id == id)
    || (k.exec.Reaping? && k.exec.calls != [] && k.exec.calls[0].id == id && k.exec.calls[0].slot == i)
    || Gone(k, id)
  }

  /** The wait loop starts the cascade just when the program has exited. */
  lemma ObserveIs(k: Kernel, i: nat, id: int)
    requires KInv(k) && k.exec == Waiting(id) && Live(k, i) && k.tasks[i].id == id
    ensures
      ExecObserve(k) == k.(exec := if k.tasks[i].state == Zombie then Reaping([Reap(id, i, 0)]) else Waiting(id))
  {
    hide Inv, ParentsInv, HeldInv, SchedInv, LoadInv, ReapInv;
    var f := First(Ids(k.tasks), id);
    FirstIsLive(k, i, id);
    if k.tasks[i].state == Zombie { FindsZombie(k, i); }
    assert [] + [Reap(id, i, 0)] == [Reap(id, i, 0)];
  }

  lemma FirstIsLive(k: Kernel, i: nat, id: int)
    requires KInv(k) && Live(k, i) && k.tasks[i].id == id
    ensures First(Ids(k.tasks), id) == Some(i)
  {
    hide Inv, ParentsInv, HeldInv, SchedInv, LoadInv, ReapInv;
    KnownId(k, i);
    var f := First(Ids(k.tasks), id);
    assert f.Some? && k.tasks[f.value].id == id;
    if f.value != 0 { assert SlotInv(k, f.value); }
    assert Live(k, f.value);
  }

  lemma ExecIsLoaders(k: Kernel, s: Step)
    requires KWf(k) && Enabled(k, s) && (k.exec.Waiting? || k.exec.Reaping?) && !s.ReapStep? && !s.ExecObserveStep?
    ensures Next(k, s).exec == k.exec
  {
    hide MapPrivate, MapPages, CloneDir, FreeAll, PickNext;
  }

  lemma GoneStays(k: Kernel, s: Step, id: int)
    requires KInv(k) && Enabled(k, s) && Gone(k, id)
    ensures Gone(Next(k, s), id)
  {
    hide Inv, SlotsInv, ParentsInv, HeldInv, SchedInv, BootTaskInv, Distinct, LoadInv, ReapInv, Next, Enabled;
    SlotLives(k, s, 0);
    forall i: nat | Live(Next(k, s), i) ensures Next(k, s).tasks[i].id != id { SlotLives(k, s, i); }
  }

  lemma TrackedStep(k: Kernel, s: Step, i: nat, id: int)
    requires KInv(k) && Enabled(k, s) && Tracked(k, i, id)
    ensures Tracked(Next(k, s), i, id)
  {
    hide Inv, SlotsInv, ParentsInv, HeldInv, SchedInv, BootTaskInv, Distinct, LoadInv, Freed, Gone;
    hide Schedule, Exit, Create, Spawn, ExecCreate, ReapTurn, ExecObserve;
    if Gone(k, id) {
      GoneStays(k, s, id);
    } else if k.exec.Reaping? {
      if s.ReapStep? { OutermostStays(k); } else { ExecIsLoaders(k, s); }
    } else {
      WaitingStep(k, s, i, id);
    }
  }

  lemma WaitingStep(k: Kernel, s: Step, i: nat, id: int)
    requires KInv(k) && Enabled(k, s) && k.exec == Waiting(id) && Live(k, i) && k.tasks[i].id == id
    ensures Tracked(Next(k, s), i, id)
  {
    hide Inv, SlotsInv, ParentsInv, HeldInv, SchedInv, BootTaskInv, Distinct, LoadInv, ReapInv, Gone;
    if s.ExecObserveStep? {
      ObserveIs(k, i, id);
    } else {
      hide Next, Enabled;
      WaitingOn(k, s, i, id);
    }
  }

  lemma WaitingOn(k: Kernel, s: Step, i: nat, id: int)
    requires KInv(k) && Enabled(k, s) && !s.ExecObserveStep?
    requires k.exec == Waiting(id) && Live(k, i) && k.tasks[i].id == id
    ensures var r := Next(k, s); r.exec == Waiting(id) && Live(r, i) && r.tasks[i].id == id
  {
    NotReaping(k, s);
    hide Inv, SlotsInv, ParentsInv, HeldInv, SchedInv, BootTaskInv, Distinct, LoadInv, ReapInv, Gone, Next, Enabled;
    ExecIsLoaders(k, s);
    SlotLives(k, s, i);
  }

  lemma NotReaping(k: Kernel, s: Step)
    requires Sized(k) && Enabled(k, s) && k.exec.Waiting?
    ensures !s.ReapStep?
  {}

  lemma {:induction false} TrackedRun(k: Kernel, steps: seq<Step>, i: nat, id: int)
    requires KInv(k) && Valid(k, steps) && Tracked(k, i, id)
    ensures Tracked(After(k, steps), i, id)
    decreases |steps|
  {
    hide Inv, SlotsInv, ParentsInv, HeldInv, SchedInv, BootTaskInv, Distinct, LoadInv, ReapInv, Next, Enabled, Tracked;
    if steps != [] {
      TrackedStep(k, steps[0], i, id);
      NextKeeps(k, steps[0]);
      TrackedRun(Next(k, steps[0]), steps[1..], i, id);
    }
  }

  /** From the moment try_exec has created its program's task, on every run: the loader waits for it while
      it lives, then reaps it, and is done with it only when no task has its id any more. */
  lemma ProgramIsReaped(k: Kernel, r: Kernel, steps: seq<Step>)
    requires Reachable(k) && KWf(k) && Enabled(k, ExecCreateStep) && FreeTask(k.tasks).Some?
    requires r == ExecCreate(k) && KWf(r) && Valid(r, steps)
    ensures Tracked(After(r, steps), FreeTask(k.tasks).value, k.nextId)
  {
    hide Inv, SlotsInv, ParentsInv, HeldInv, SchedInv, BootTaskInv, Distinct, LoadInv, ReapInv;
    hide Reachable, ExecCreate, Valid, After;
    ReachableInv(k);
    ExecCreateKeeps(k);
    Counted(k, ExecCreateStep);
    FreeSlotEmpty(k, FreeTask(k.tasks).value);
    Filled(k, ExecCreateStep);
    TrackedRun(r, steps, FreeTask(k.tasks).value, k.nextId);
  }

  /** In a reachable state: when the cascade ends, the task that task_reap was called on is gone, and its
      slot, directory, tables and frames are free. */
  lemma ReapedIsGivenBack(k: Kernel)
    requires Reachable(k) && KWf(k) && Enabled(k, ReapStep) && !ReapTurn(k).exec.Reaping?
    ensures
      var r, c := ReapTurn(k), k.exec.calls[0];
      && r.exec == Idle && Gone(r, c.id) && c.slot < MAX_TASKS && r.tasks[c.slot] == FREE_TASK
      && var d := Pool(DirOf(k, c.slot));
         && k.tasks[c.slot].cr3 == d && !r.pages.dirUsed[d.d]
         && (forall t | 0 <= t < MAX_TABLES :: r.pages.owner[t] != d)
         && (forall t: nat, i: nat, f: nat | Ref(k.pages, t, i, f) && k.pages.owner[t] == d :: !r.pages.bits[f])
  {
    hide Inv, ParentsInv, HeldInv, SchedInv, BootTaskInv, LoadInv, Reachable, ReapTurn;
    ReachableInv(k);
    OutermostStays(k);
    var c := k.exec.calls[0];
    assert CallInv(k.tasks, c) && SlotInv(k, c.slot);
  }
}
