/** The kernel's promises, for every reachable state and every run. */
module KernelTheorems {
  import opened Common
  import opened Paging
  import opened PagingInv
  import opened PagingSteps
  import opened Tasks
  import opened TasksInv
  import opened TasksSteps
  import opened ExecSteps
  import opened ReapSteps
  import opened KernelRuns

  // ---- ownership ----

  /** A table a live task's directory points at is a boot table, a table of its own, or, in the
      app slot only, a table of a live ancestor. */
  lemma TablesComeFromAncestors(k: Kernel, i: nat, s: nat)
    requires Reachable(k) && 0 < i < MAX_TASKS && k.tasks[i].state != Unused && s < PAGE_ENTRIES
    ensures KWf(k)
    ensures
      var e := k.pages.dirs[DirOf(k, i)][s];
      e.present && e.table.Private? ==>
        || k.pages.owner[e.table.t] == Pool(DirOf(k, i))
        || (s == APP_SLOT && exists a: nat :: a < MAX_TASKS && a != i && Live(k, a) && Descends(k, i, a)
                                             && k.pages.owner[e.table.t] == Pool(DirOf(k, a)))
  {
    hide KInv, Reachable;
    ReachableInv(k);
    TablesOf(k, i, s);
  }

  lemma TablesOf(k: Kernel, i: nat, s: nat)
    requires KInv(k) && 0 < i < MAX_TASKS && Live(k, i) && s < PAGE_ENTRIES
    ensures
      var e := k.pages.dirs[DirOf(k, i)][s];
      e.present && e.table.Private? ==>
        || k.pages.owner[e.table.t] == Pool(DirOf(k, i))
        || (s == APP_SLOT && exists a: nat :: a < MAX_TASKS && a != i && Live(k, a) && Descends(k, i, a)
                                             && k.pages.owner[e.table.t] == Pool(DirOf(k, a)))
  {
    hide FrameInv, TableInv, EntryInv, LowInv, LoadInv, ReapInv, ParentsInv, HeldInv, SchedInv;
    var d := DirOf(k, i);
    assert SlotInv(k, i) && DirInv(k.pages, d);
    if s == APP_SLOT && k.pages.dirs[d][s].table.Private? {
      var a := AppOwner(k, i);
      assert k.pages.owner[k.pages.dirs[d][s].table.t] == Pool(DirOf(k, a));
    }
  }

  /** A frame's bit is set exactly when an entry of an owned table maps it, and then only one does. */
  lemma OneEntryPerFrame(k: Kernel, f: nat)
    requires Reachable(k) && f < POOL_FRAMES
    ensures KWf(k)
    ensures k.pages.bits[f] <==> exists t: nat, i: nat :: Ref(k.pages, t, i, f)
    ensures forall t: nat, i: nat, t': nat, i': nat | Ref(k.pages, t, i, f) && Ref(k.pages, t', i', f) ::
              t == t' && i == i'
  {
    ReachableInv(k);
  }

  /** Every live task's scratch page is backed by an allocated frame; no two share one. */
  lemma ScratchPagesDiffer(k: Kernel, i: nat, j: nat)
    requires Reachable(k) && i < MAX_TASKS && j < MAX_TASKS && i != j
    requires k.tasks[i].state != Unused && k.tasks[j].state != Unused
    ensures KWf(k) && ValidDir(k.tasks[i].cr3) && ValidDir(k.tasks[j].cr3)
    ensures
      var a := Translate(k.pages, k.tasks[i].cr3, TASK_PRIVATE_VADDR);
      var b := Translate(k.pages, k.tasks[j].cr3, TASK_PRIVATE_VADDR);
      a.Some? && b.Some? && a.value.user && a.value.rw && InPool(a.value.frame) && a.value.frame != b.value.frame
  {
    ReachableInv(k);
    var t, f := ScratchFrame(k, i);
    var t', f' := ScratchFrame(k, j);
    assert f == f' ==> t == t';
  }

  lemma ScratchFrame(k: Kernel, i: nat) returns (t: nat, f: nat)
    requires KInv(k) && i < MAX_TASKS && Live(k, i)
    ensures ValidDir(k.tasks[i].cr3) && Ref(k.pages, t, 0, f) && k.pages.owner[t] == k.tasks[i].cr3
    ensures Translate(k.pages, k.tasks[i].cr3, TASK_PRIVATE_VADDR) == Some(Access(FrameAddr(f), true, true))
  {
    t, f := 0, 0;
    if i == 0 {
      assert Ref(k.pages, 0, 0, 0);
    } else {
      assert SlotInv(k, i) && k.tasks[i].cr3 == Pool(DirOf(k, i));
      t := k.pages.dirs[DirOf(k, i)][PRIVATE_SLOT].table.t;
      assert DirInv(k.pages, DirOf(k, i)) && EntryInv(k.pages, t);
      f :| Ref(k.pages, t, 0, f);
    }
  }

  // ---- the pools ----

  /** No step ever finds the directory, table or frame pool empty: a task is created whenever a
      task slot is free, and the loader gives up only when none is. */
  lemma PoolsSuffice(k: Kernel, s: Step)
    requires Reachable(k) && Sized(k) && Enabled(k, s)
    ensures KWf(k)
    ensures
      var r, free := Next(k, s), FreeTask(k.tasks).Some?;
      match s
      case CreateStep(_) => free ==> r.nextId == k.nextId + 1
      case SpawnStep => free && k.tasks[k.current].ring3 ==> r.nextId == k.nextId + 1
      case ExecStartStep(_, _) => r.exec.Loading?
      case ExecCodeStep => r.exec.Loading?
      case ExecStackStep => r.exec.Loading?
      case ExecCreateStep => r.exec == if free then Waiting(k.nextId) else Idle
      case _ => true
  {
    ReachableInv(k);
    hide Inv, SlotsInv, ParentsInv, HeldInv, SchedInv, BootTaskInv, Distinct, LoadInv, ReapInv;
    match s
    case CreateStep(ring3) => CreateKeeps(k, ring3);
    case SpawnStep => SpawnKeeps(k);
    case ExecStartStep(blob, args) => ExecStartKeeps(k, blob, args);
    case ExecCodeStep => ExecCodeKeeps(k);
    case ExecStackStep => ExecStackKeeps(k);
    case ExecCreateStep => ExecCreateKeeps(k);
    case _ =>
  }

  /** Once every task but the boot task is reaped, every pool is as `task_init` left it. */
  lemma PoolsRestored(p: Pages, steps: seq<Step>, k: Kernel)
    requires EndsIn(p, steps, k)
    requires Sized(k) && !k.exec.Loading? && forall i | 0 < i < MAX_TASKS :: k.tasks[i].state == Unused
    ensures
      var q, init := k.pages, TaskInit(p).pages;
      q.dirUsed == init.dirUsed && q.owner == init.owner && q.bits == init.bits
  {
    RunFromBoot(p, steps, k);
    TaskInitPages(p);
    EmptyPools(k);
  }

  lemma EmptyPools(k: Kernel)
    requires KInv(k) && !k.exec.Loading? && forall i | 0 < i < MAX_TASKS :: k.tasks[i].state == Unused
    ensures forall d | 0 <= d < MAX_DIRS :: !k.pages.dirUsed[d]
    ensures forall t | 0 <= t < MAX_TABLES :: k.pages.owner[t] == if t == 0 then KernelDir else NoDir
    ensures forall f | 0 <= f < POOL_FRAMES :: k.pages.bits[f] <==> f == 0
  {
    hide DirInv, EntryInv, LowInv;
    var q := k.pages;
    assert HeldInv(k);
    forall t | 0 <= t < MAX_TABLES ensures q.owner[t] == if t == 0 then KernelDir else NoDir {
      assert TableInv(q, t);
    }
    assert Ref(q, 0, 0, 0);
    forall f: nat | f < POOL_FRAMES && q.bits[f] ensures f == 0 {
      var t: nat, i: nat :| Ref(q, t, i, f);
    }
  }

  // ---- scheduling ----

  /** Exactly one task runs; its live directory is loaded; in ring 3 its own kernel stack is set: the 16 KB
      above the guard page of its slot. */
  lemma SchedulerSound(k: Kernel)
    requires Reachable(k)
    ensures KWf(k)
    ensures forall i | 0 <= i < MAX_TASKS :: k.tasks[i].state == Running <==> i == k.current
    ensures k.cr3 == k.tasks[k.current].cr3
    ensures k.cr3 == KernelDir || (k.cr3.Pool? && k.pages.dirUsed[k.cr3.d])
    ensures k.tasks[k.current].ring3 ==> k.esp0 == k.current * (4096 + 16 * 1024) + 4096 + 16 * 1024
  {
    hide Inv, ParentsInv, HeldInv, LoadInv, ReapInv, Distinct, Reachable;
    ReachableInv(k);
    if k.current != 0 { assert SlotInv(k, k.current); }
  }

  ghost function ScheduleCalls(steps: seq<Step>): nat
  {
    if steps == [] then 0
    else (if steps[0].ScheduleStep? || steps[0].ExitStep? then 1 else 0) + ScheduleCalls(steps[1..])
  }

  /** Slot `i` is READY before, during and after the run. */
  ghost predicate StaysReady(k: Kernel, steps: seq<Step>, i: nat)
    requires KWf(k) && Valid(k, steps) && i < MAX_TASKS
    decreases |steps|
  {
    k.tasks[i].state == Ready && (steps == [] || StaysReady(Next(k, steps[0]), steps[1..], i))
  }

  /** A schedule call that does not pick `i` brings the running slot nearer to it; no other step
      moves the running slot. */
  lemma NearerOrSame(k: Kernel, s: Step, i: nat)
    requires KInv(k) && Enabled(k, s) && i < MAX_TASKS
    requires k.tasks[i].state == Ready && Next(k, s).tasks[i].state == Ready
    ensures
      var a, b := Distance(k.current, i), Distance(Next(k, s).current, i);
      if s.ScheduleStep? || s.ExitStep? then b < a else b == a
  {
    hide Inv, SlotsInv, ParentsInv, HeldInv, LoadInv, ReapInv, Create, Spawn;
    if s.ScheduleStep? {
      PickNextReady(k.tasks, k.current, i);
    } else if s.ExitStep? {
      PickNextReady(SetState(k.tasks, k.current, Zombie), k.current, i);
    } else {
      CurrentStays(k, s);
    }
  }

  lemma CurrentStays(k: Kernel, s: Step)
    requires KWf(k) && Enabled(k, s) && !s.ScheduleStep? && !s.ExitStep?
    ensures Next(k, s).current == k.current
  {}

  lemma {:induction false} ReadyBounds(k: Kernel, steps: seq<Step>, i: nat)
    requires KInv(k) && Valid(k, steps) && i < MAX_TASKS && StaysReady(k, steps, i)
    ensures ScheduleCalls(steps) < Distance(k.current, i)
    decreases |steps|
  {
    hide Inv, SlotsInv, ParentsInv, HeldInv, SchedInv, BootTaskInv, Distinct, LoadInv, ReapInv, Next, Enabled;
    if steps != [] {
      NearerOrSame(k, steps[0], i);
      NextKeeps(k, steps[0]);
      ReadyBounds(Next(k, steps[0]), steps[1..], i);
    }
  }

  /** Whatever else is created, exits or is reaped, a task is READY across at most six schedule
      calls: the seventh at the latest has run it. */
  lemma RunsWithinSeven(k: Kernel, steps: seq<Step>, i: nat)
    requires Reachable(k) && KWf(k) && Valid(k, steps) && i < MAX_TASKS && StaysReady(k, steps, i)
    ensures ScheduleCalls(steps) <= 6
  {
    ReachableInv(k);
    ReadyBounds(k, steps, i);
  }

  // ---- the kernel reaches every frame ----

  lemma ViewIsTranslate(p: Pages, v: nat)
    requires Wf(p) && Slot(v) < PAGE_ENTRIES && p.kdir[Slot(v)].table.Boot?
    ensures Translate(p, KernelDir, v) == View(p.kdir, p.boot, v / PAGE_SIZE)
  {
    assert v / SLOT_SPAN == (v / PAGE_SIZE) / PAGE_ENTRIES;
    assert ValidPde(p.kdir[Slot(v)]);
  }

  lemma FrameSlot(f: nat)
    requires f < POOL_FRAMES
    ensures 8 <= Slot(FrameAddr(f)) < 16 && FrameAddr(f) / PAGE_SIZE == POOL_START / PAGE_SIZE + f
    ensures FrameAddr(f) / PAGE_SIZE * PAGE_SIZE == FrameAddr(f)
  {}

  /** Whatever directory is loaded, every frame of the pool stands at its own address, for the kernel
      only: where pmm_alloc_frame and the loader write it. */
  lemma FramesAtTheirAddress(k: Kernel, f: nat)
    requires Reachable(k) && f < POOL_FRAMES
    ensures KWf(k) && ValidDir(k.cr3)
    ensures Translate(k.pages, k.cr3, FrameAddr(f)) == Some(Access(FrameAddr(f), true, false))
  {
    hide Reachable, Translate, View;
    ReachableInv(k);
    SchedulerSound(k);
    FrameSlot(f);
    FrameThroughBoot(k.pages, f);
    if k.cr3.Pool? { SameOutsideTracked(k.pages, k.cr3.d, FrameAddr(f)); }
  }

  lemma FrameThroughBoot(p: Pages, f: nat)
    requires Inv(p) && f < POOL_FRAMES
    ensures Slot(FrameAddr(f)) < PAGE_ENTRIES
    ensures Translate(p, KernelDir, FrameAddr(f)) == Some(Access(FrameAddr(f), true, false))
  {
    hide FrameInv, DirInv, TableInv, EntryInv, LowInv, Translate, View;
    FrameSlot(f);
    ViewIsTranslate(p, FrameAddr(f));
    assert PoolMapped(p.kdir, p.boot);
  }

  lemma SameOutsideTracked(p: Pages, d: nat, v: nat)
    requires Inv(p) && d < MAX_DIRS && p.dirUsed[d] && Slot(v) < PAGE_ENTRIES && !Tracked(Slot(v))
    ensures Translate(p, Pool(d), v) == Translate(p, KernelDir, v)
  {
    hide FrameInv, TableInv, EntryInv, LowInv, PoolMapped;
    assert DirInv(p, d);
  }
}
