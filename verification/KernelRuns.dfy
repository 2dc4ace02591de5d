/** Whole runs of the kernel: what holds in every reachable state. */
module KernelRuns {
  import opened Common
  import opened Paging
  import opened PagingInv
  import opened PagingSteps
  import opened Tasks
  import opened TasksInv
  import opened TasksSteps
  import opened ExecSteps
  import opened ReapSteps

  // ---- stores by user code ----

  /** A pool frame that the running task's user code can reach belongs to that task, or, through
      the app slot, to the ancestor whose program it shares. */
  lemma UserReach(k: Kernel, vaddr: nat) returns (t: nat, f: nat, a: nat)
    requires KInv(k) && Slot(vaddr) < PAGE_ENTRIES && k.tasks[k.current].ring3
    requires
      var x := Translate(k.pages, Pool(DirOf(k, k.current)), vaddr);
      x.Some? && x.value.user && InPool(x.value.frame)
    ensures Ref(k.pages, t, Index(vaddr), f) && k.pages.dirs[DirOf(k, k.current)][Slot(vaddr)].table == Private(t)
    ensures Translate(k.pages, Pool(DirOf(k, k.current)), vaddr).value.frame == FrameAddr(f)
    ensures 0 < a < MAX_TASKS && Live(k, a) && k.pages.owner[t] == Pool(DirOf(k, a))
    ensures Descends(k, k.current, a) && (a != k.current ==> Slot(vaddr) == APP_SLOT)
  {
    var p, i, d, s := k.pages, k.current, DirOf(k, k.current), Slot(vaddr);
    assert SlotInv(k, i) && DirInv(p, d);
    a := i;
    if s == APP_SLOT {
      a := AppOwner(k, i);
    }
    t := p.dirs[d][s].table.t;
    assert EntryInv(p, t);
    f :| Ref(p, t, Index(vaddr), f);
  }

  /** A store by user code touches no page of the directory being loaded. */
  lemma StoreKeeps(k: Kernel, vaddr: nat, b: byte)
    requires KInv(k) && Slot(vaddr) < PAGE_ENTRIES
    ensures KInv(Store(k, vaddr, b))
  {
    hide BootInv, DirInv, TableInv, EntryInv, LowInv, LoadedPages;
    var r := Store(k, vaddr, b);
    if r != k {
      assert SlotInv(k, k.current);
      if InPool(Translate(k.pages, k.tasks[k.current].cr3, vaddr).value.frame) {
        StorePool(k, vaddr, b);
      } else {
        LowKeeps(k, r);
      }
    }
  }

  lemma StorePool(k: Kernel, vaddr: nat, b: byte)
    requires KInv(k) && Slot(vaddr) < PAGE_ENTRIES && Store(k, vaddr, b) != k
    requires var a := Translate(k.pages, k.tasks[k.current].cr3, vaddr); a.Some? && InPool(a.value.frame)
    ensures KInv(Store(k, vaddr, b))
  {
    hide BootInv, DirInv, TableInv, EntryInv, LowInv, LoadedPages;
    var r := Store(k, vaddr, b);
    assert SlotInv(k, k.current);
    var t, f, a := UserReach(k, vaddr);
    var bytes := r.pages.ram[f];
    assert (FrameAddr(f) - POOL_START) / PAGE_SIZE == f;
    assert r == k.(pages := k.pages.(ram := k.pages.ram[f := bytes]));
    MemoryKeeps(k.pages, r.pages);
    MemoryOnlyKeeps(k, r);
    if k.exec.Loading? && k.exec.code > 0 {
      assert SlotInv(k, a);
      LoadedAfterWrite(k, r, k.pages.dirs[k.exec.dir][APP_SLOT].table.t, f, bytes);
    }
  }

  // ---- every step, every run ----

  /** The invariant is inductive. */
  lemma NextKeeps(k: Kernel, s: Step)
    requires KInv(k) && Enabled(k, s)
    ensures KInv(Next(k, s))
  {
    hide KInv;
    match s
    case CreateStep(ring3) => CreateKeeps(k, ring3);
    case SpawnStep => SpawnKeeps(k);
    case ScheduleStep => ScheduleKeeps(k);
    case ExitStep => ExitFindsSuccessor(k);
    case ExecStartStep(blob, args) => ExecStartKeeps(k, blob, args);
    case ExecCodeStep => ExecCodeKeeps(k);
    case ExecStackStep => ExecStackKeeps(k);
    case ExecArgsStep => ExecArgsKeeps(k);
    case ExecCreateStep => ExecCreateKeeps(k);
    case ExecObserveStep => ExecObserveKeeps(k);
    case ReapStep => ReapTurnKeeps(k);
    case StoreStep(vaddr, b) => StoreKeeps(k, vaddr, b);
  }

  /** The pages at the end of boot: what is mapped in the first 4 MB is mapped to itself, the frame
      pool is mapped to itself for the kernel, only the app slot is open to user code, and every pool
      is empty. */
  ghost predicate BootPages(p: Pages)
  {
    && Wf(p)
    && p.kdir[APP_SLOT] == Pde(Boot(0), true, true, true)
    && p.kdir[PRIVATE_SLOT] == ZERO_PDE && p.kdir[SPAWN_SLOT] == ZERO_PDE
    && (forall s | 0 <= s < PAGE_ENTRIES :: p.kdir[s].table.Boot?)
    && (forall s | 0 <= s < PAGE_ENTRIES && !Tracked(s) :: !p.kdir[s].user)
    && (forall i | 0 <= i < PAGE_ENTRIES :: p.boot[0][i].present ==> p.boot[0][i].frame == i * PAGE_SIZE)
    && PoolMapped(p.kdir, p.boot)
    && (forall d | 0 <= d < MAX_DIRS :: !p.dirUsed[d])
    && (forall t | 0 <= t < MAX_TABLES :: p.owner[t] == NoDir)
    && (forall f | 0 <= f < POOL_FRAMES :: !p.bits[f])
  }

  /** `task_init`: the boot context becomes task 0 and gets its scratch page. */
  function TaskInit(p: Pages): (k: Kernel)
    requires Wf(p)
    ensures KWf(k)
  {
    Kernel(MapPrivate(p, KernelDir, TASK_PRIVATE_VADDR).0,
           [Task(Running, 0, KernelDir, false, 0, -1)] + seq(MAX_TASKS - 1, _ => Task(Unused, -1, NoDir, false, 0, 0)),
           0, 1, KernelDir, 0, Idle)
  }

  lemma TaskInitPages(p: Pages)
    requires BootPages(p)
    ensures
      var q := TaskInit(p).pages;
      Inv(q) && q.dirUsed == p.dirUsed && q.owner == p.owner[0 := KernelDir] && q.bits == p.bits[0 := true]
  {
    var q := TaskInit(p).pages;
    assert First(p.owner, NoDir) == Some(0) && First(p.bits, false) == Some(0);
    assert q.tables[0] == ZeroTable()[0 := Pte(FrameAddr(0), true, true, true)];
    forall t: nat, i: nat, f: nat ensures Ref(q, t, i, f) <==> t == 0 && i == 0 && f == 0 {}
    assert Ref(q, 0, 0, 0);
    assert PoolMapped(q.kdir, q.boot) by { PoolElsewhere(p.kdir, q.kdir, p.boot); }
  }

  /** The scratch slot is none of the pool's. */
  lemma PoolElsewhere(kdir: seq<Pde>, now: seq<Pde>, boot: seq<seq<Pte>>)
    requires |kdir| == |now| == PAGE_ENTRIES && now == kdir[PRIVATE_SLOT := now[PRIVATE_SLOT]] && PoolMapped(kdir, boot)
    ensures PoolMapped(now, boot)
  {
    forall n: nat | POOL_START / PAGE_SIZE <= n < POOL_END / PAGE_SIZE
      ensures View(now, boot, n) == Some(Access(n * PAGE_SIZE, true, false))
    {
      assert View(kdir, boot, n) == Some(Access(n * PAGE_SIZE, true, false));
    }
  }

  lemma TaskInitHolds(p: Pages)
    requires BootPages(p)
    ensures KInv(TaskInit(p))
  {
    TaskInitPages(p);
    hide BootInv, FrameInv, DirInv, TableInv, EntryInv, LowInv, MapPrivate;
  }

  /** Each step of the run is enabled in the state it is taken in. */
  ghost predicate Valid(k: Kernel, steps: seq<Step>)
    requires KWf(k)
    decreases |steps|
  {
    steps == [] || (Enabled(k, steps[0]) && Valid(Next(k, steps[0]), steps[1..]))
  }

  ghost function After(k: Kernel, steps: seq<Step>): (r: Kernel)
    requires KWf(k) && Valid(k, steps)
    ensures KWf(r)
    decreases |steps|
  {
    if steps == [] then k else After(Next(k, steps[0]), steps[1..])
  }

  /** Some run of the kernel from the end of boot ends in `k`. */
  ghost predicate Reachable(k: Kernel)
  {
    exists p: Pages, steps: seq<Step> :: EndsIn(p, steps, k)
  }

  ghost predicate EndsIn(p: Pages, steps: seq<Step>, k: Kernel)
  {
    BootPages(p) && Valid(TaskInit(p), steps) && k == After(TaskInit(p), steps)
  }

  lemma {:induction false} RunKeeps(k: Kernel, steps: seq<Step>)
    requires KInv(k) && Valid(k, steps)
    ensures KInv(After(k, steps))
    decreases |steps|
  {
    hide Inv, SlotsInv, ParentsInv, HeldInv, SchedInv, BootTaskInv, Distinct, LoadInv, ReapInv, Next, Enabled;
    if steps != [] {
      NextKeeps(k, steps[0]);
      RunKeeps(Next(k, steps[0]), steps[1..]);
    }
  }

  /** The invariant holds after every run. */
  lemma ReachableInv(k: Kernel)
    requires Reachable(k)
    ensures KInv(k)
  {
    var p: Pages, steps: seq<Step> :| EndsIn(p, steps, k);
    RunFromBoot(p, steps, k);
  }

  lemma RunFromBoot(p: Pages, steps: seq<Step>, k: Kernel)
    requires EndsIn(p, steps, k)
    ensures KInv(k)
  {
    hide KInv, TaskInit, Valid, After;
    TaskInitHolds(p);
    RunKeeps(TaskInit(p), steps);
  }
}
