/** What a spawned child sees (kernel/proc/task.c: task_create_ring3_child): its parent's program, and a
    blank stack of its own. */
module KernelChildren {
  import opened Common
  import opened Paging
  import opened PagingInv
  import opened PagingSteps
  import opened Tasks
  import opened TasksInv
  import opened TasksSteps
  import opened KernelRuns
  import opened KernelViews
  import opened KernelPrograms

  /** Address `w` of the child's stack region is a blank byte that its user code can write. */
  ghost predicate BlankAt(p: Pages, d: nat, w: nat)
    requires Wf(p) && d < MAX_DIRS && Slot(w) < PAGE_ENTRIES
  {
    var a := Translate(p, Pool(d), w);
    a.Some? && a.value.user && a.value.rw && InPool(a.value.frame) && ReadUser(p, Pool(d), w) == Some(0)
  }

  /** A pool frame seen through the spawn slot is allocated. */
  lemma SpawnFrameAllocated(p: Pages, d: nat, w: nat)
    requires Inv(p) && d < MAX_DIRS && p.dirUsed[d] && Slot(w) == SPAWN_SLOT
    requires var a := Translate(p, Pool(d), w); a.Some? && InPool(a.value.frame)
    ensures p.bits[(Translate(p, Pool(d), w).value.frame - POOL_START) / PAGE_SIZE]
  {
    hide FrameInv, TableInv, LowInv;
    assert DirInv(p, d);
    var t := p.dirs[d][SPAWN_SLOT].table.t;
    assert EntryInv(p, t);
    var f: nat :| Ref(p, t, Index(w), f);
    Allocated(p, t, Index(w), f);
  }

  lemma Allocated(p: Pages, t: nat, i: nat, f: nat)
    requires Inv(p) && Ref(p, t, i, f)
    ensures p.bits[f]
  {}

  /** Mapping another page leaves a blank byte of the stack as it is. */
  lemma BlankStays(p: Pages, d: nat, vaddr: nat, w: nat)
    requires Inv(p) && Mappable(p, d, vaddr) && Slot(vaddr) != APP_SLOT
    requires Slot(w) == SPAWN_SLOT && BlankAt(p, d, w) && (Slot(w), Index(w)) != (Slot(vaddr), Index(vaddr))
    ensures BlankAt(MapPrivate(p, Pool(d), vaddr).0, d, w)
  {
    hide BootInv, FrameInv, DirInv, TableInv, EntryInv, LowInv, MapPrivate, Translate;
    MapChangesOnePage(p, d, vaddr, Pool(d), w);
    var t := MapSucceeds(p, d, vaddr);
    SpawnFrameAllocated(p, d, w);
  }

  /** The page just mapped is blank. */
  lemma NewIsBlank(p: Pages, d: nat, vaddr: nat, w: nat)
    requires Inv(p) && Mappable(p, d, vaddr) && Slot(vaddr) != APP_SLOT
    requires Slot(w) == Slot(vaddr) && Index(w) == Index(vaddr)
    ensures BlankAt(MapPrivate(p, Pool(d), vaddr).0, d, w)
  {
    hide BootInv, FrameInv, DirInv, TableInv, EntryInv, LowInv, MapPrivate, Translate;
    MapChangesOnePage(p, d, vaddr, Pool(d), w);
    var t := MapSucceeds(p, d, vaddr);
    var f := MapPrivate(p, Pool(d), vaddr).1.value;
    assert (FrameAddr(f) - POOL_START) / PAGE_SIZE == f && InPool(FrameAddr(f));
  }

  /** Every byte of the first `n` pages is blank once they are mapped. */
  lemma {:induction false} StackIsBlank(p: Pages, d: nat, n: nat, w: nat)
    requires Inv(p) && d < MAX_DIRS && p.dirUsed[d] && n <= 4 && SpawnRest(p, d, 0)
    requires Slot(w) == SPAWN_SLOT && Index(w) < n
    ensures BlankAt(MapPages(p, Pool(d), SPAWN_STACK_VADDR, n).0, d, w)
  {
    hide BootInv, FrameInv, DirInv, TableInv, EntryInv, LowInv, Keeps, MapPrivate, BlankAt;
    SpawnStack(p, d, n - 1);
    var q, v := MapPages(p, Pool(d), SPAWN_STACK_VADDR, n - 1).0, SPAWN_STACK_VADDR + (n - 1) * PAGE_SIZE;
    SpawnAddress(n - 1);
    assert Unmapped(q, d, SPAWN_SLOT, n - 1);
    assert Mappable(q, d, v);
    if Index(w) == n - 1 {
      NewIsBlank(q, d, v, w);
    } else {
      StackIsBlank(p, d, n - 1, w);
      BlankStays(q, d, v, w);
    }
  }

  lemma StackAddress(n: nat)
    requires n < 4 * PAGE_SIZE
    ensures var w := SPAWN_STACK_VADDR + n; Slot(w) == SPAWN_SLOT && Index(w) == n / PAGE_SIZE < 4
  {}

  /** The child's directory, once it is complete. */
  lemma ChildPages(p: Pages, src: nat, w: nat)
    requires Inv(p) && CloneDir(p).1.Some? && src < MAX_DIRS && p.dirUsed[src] && Slot(w) == SPAWN_SLOT && Index(w) < 4
    ensures
      var d := CloneDir(p).1.value;
      var p1 := SharePde(CloneDir(p).0, Pool(d), Pool(src), APP_LOAD_ADDR);
      var p2 := MapPages(p1, Pool(d), SPAWN_STACK_VADDR, 4).0;
      BlankAt(MapPrivate(p2, Pool(d), TASK_PRIVATE_VADDR).0, d, w)
  {
    hide BootInv, FrameInv, DirInv, TableInv, EntryInv, LowInv, Keeps, MapPrivate, BlankAt, MapPages;
    CloneBuilds(p);
    var d := CloneDir(p).1.value;
    var p0 := CloneDir(p).0;
    ShareBuilds(p0, d, src);
    var p1 := SharePde(p0, Pool(d), Pool(src), APP_LOAD_ADDR);
    ChildStack(p0, d, src);
    StackIsBlank(p1, d, 4, w);
    var p2 := MapPages(p1, Pool(d), SPAWN_STACK_VADDR, 4).0;
    assert Mappable(p2, d, TASK_PRIVATE_VADDR);
    BlankStays(p2, d, TASK_PRIVATE_VADDR, w);
  }

  /** The pages after a spawn, and the entry that the child shares. */
  lemma SpawnPages(k: Kernel)
    requires KInv(k) && k.tasks[k.current].ring3 && FreeTask(k.tasks).Some?
    ensures CloneDir(k.pages).1.Some? && k.tasks[k.current].cr3 == Pool(DirOf(k, k.current))
    ensures k.pages.dirUsed[DirOf(k, k.current)]
    ensures
      var r, i, d, src := Spawn(k), FreeTask(k.tasks).value, CloneDir(k.pages).1.value, DirOf(k, k.current);
      var p1 := SharePde(CloneDir(k.pages).0, Pool(d), Pool(src), APP_LOAD_ADDR);
      var p2 := MapPages(p1, Pool(d), SPAWN_STACK_VADDR, 4).0;
      && r.tasks[i].cr3 == Pool(d) && r.pages == MapPrivate(p2, Pool(d), TASK_PRIVATE_VADDR).0
      && r.pages.dirs[d][APP_SLOT] == r.pages.dirs[src][APP_SLOT]
  {
    hide BootInv, FrameInv, DirInv, TableInv, EntryInv, LowInv, Keeps, LoadInv, ReapInv, ParentsInv, HeldInv,
         MapPrivate, CallInv, Builds, MapPages, FreeAll, Distinct;
    FreeSlotIsNotBoot(k);
    assert SlotInv(k, k.current);
    var d, q := NewChildDir(k.pages, DirOf(k, k.current));
  }

  lemma SameEntry(p: Pages, d: nat, src: nat, w: nat)
    requires Wf(p) && d < MAX_DIRS && src < MAX_DIRS && Slot(w) == APP_SLOT
    requires p.dirs[d][APP_SLOT] == p.dirs[src][APP_SLOT]
    ensures Translate(p, Pool(d), w) == Translate(p, Pool(src), w)
  {}

  /** In every reachable state, the child that a ring-3 task spawns has 16 KB of blank, writable stack of its
      own, and sees at every address of the app slot what its parent sees. */
  lemma ChildSees(k: Kernel, n: nat, w: nat)
    requires Reachable(k) && KWf(k) && k.tasks[k.current].ring3 && FreeTask(k.tasks).Some?
    requires n < 16 * 1024 && Slot(w) == APP_SLOT
    ensures ValidDir(k.tasks[k.current].cr3) && Slot(0x5000_0000 + n) < PAGE_ENTRIES
    ensures
      var r := Spawn(k);
      var c := r.tasks[FreeTask(k.tasks).value].cr3;
      && c.Pool? && c.d < MAX_DIRS && BlankAt(r.pages, c.d, 0x5000_0000 + n)
      && Translate(r.pages, c, w) == Translate(k.pages, k.tasks[k.current].cr3, w)
  {
    hide Inv, SlotsInv, ParentsInv, HeldInv, SchedInv, BootTaskInv, Distinct, LoadInv, ReapInv;
    hide Reachable, MapPrivate, MapPages, BlankAt, Translate, Spawn;
    ReachableInv(k);
    SpawnPages(k);
    var src, d := DirOf(k, k.current), CloneDir(k.pages).1.value;
    StackAddress(n);
    assert Inv(k.pages);
    ChildPages(k.pages, src, 0x5000_0000 + n);
    SameEntry(Spawn(k).pages, d, src, w);
    StillRunning(k);
    MappingsKept(k, SpawnStep, k.current, w);
  }

  lemma StillRunning(k: Kernel)
    requires KInv(k) && k.tasks[k.current].ring3
    ensures Spawn(k).tasks[k.current].state != Unused && k.tasks[k.current].state == Running
  {
    hide Inv, SlotsInv, ParentsInv, HeldInv, BootTaskInv, Distinct, LoadInv, ReapInv, MapPrivate, MapPages, CloneDir;
  }
}
