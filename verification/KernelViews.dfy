/** What a task sees through its page tables: mapping a page changes that page only, and no
    step changes a live task's mappings. */
module KernelViews {
  import opened Common
  import opened Paging
  import opened PagingInv
  import opened PagingSteps
  import opened Tasks
  import opened TasksInv
  import opened TasksSteps
  import opened ExecSteps
  import opened ReapSteps
  import opened KernelRuns
  import Argv

  // ---- one mapping ----

  /** The private table behind slot `s` of a directory in use is owned: by the boot directory,
      by the directory itself or, in the app slot, by the directory it is shared from. */
  lemma EntryOwner(p: Pages, c: DirRef, s: nat)
    requires Inv(p) && ValidDir(c) && (c.Pool? ==> p.dirUsed[c.d]) && s < PAGE_ENTRIES
    requires Dir(p, c)[s].present && Dir(p, c)[s].table.Private?
    ensures
      var o := p.owner[Dir(p, c)[s].table.t];
      && o != NoDir && (o == c || o == KernelDir || s == APP_SLOT)
      && (o == KernelDir ==> s == PRIVATE_SLOT) && (s == APP_SLOT ==> o.Pool?)
  {
    if c.Pool? { assert DirInv(p, c.d); }
  }

  lemma MapElsewhere(p: Pages, q: Pages, d: nat, vaddr: nat, t: nat, f: nat, c: DirRef, w: nat)
    requires Inv(p) && Wf(q) && Mappable(p, d, vaddr) && (Slot(vaddr) == APP_SLOT ==> NoSharers(p, d))
    requires Mapped(p, q, d, Slot(vaddr), Index(vaddr), t, f)
    requires ValidDir(c) && (c.Pool? ==> p.dirUsed[c.d]) && Slot(w) < PAGE_ENTRIES
    requires c != Pool(d) || Slot(w) != Slot(vaddr)
    ensures Translate(q, c, w) == Translate(p, c, w)
  {
    hide FrameInv, EntryInv, LowInv, TableInv;
    var e := Dir(p, c)[Slot(w)];
    assert Dir(q, c)[Slot(w)] == e;
    if e.present && e.table.Private? {
      EntryOwner(p, c, Slot(w));
      if e.table.t == t {
        assert OwnTable(p, d, Slot(vaddr));
        assert Points(p, d, Slot(vaddr), t);
        SharedOnlyInApp(p, c, Slot(w), d, Slot(vaddr), t);
      }
    }
  }

  /** A table `d` owns in slot `s` is seen from another place only by sharing the app slot. */
  lemma SharedOnlyInApp(p: Pages, c: DirRef, s': nat, d: nat, s: nat, t: nat)
    requires Inv(p) && d < MAX_DIRS && p.dirUsed[d] && Tracked(s) && Points(p, d, s, t) && p.owner[t] == Pool(d)
    requires ValidDir(c) && (c.Pool? ==> p.dirUsed[c.d]) && s' < PAGE_ENTRIES
    requires Dir(p, c)[s'].present && Dir(p, c)[s'].table == Private(t)
    ensures (c == Pool(d) && s' == s) || (s == APP_SLOT && s' == APP_SLOT && !NoSharers(p, d))
  {
    hide FrameInv, EntryInv, LowInv;
    EntryOwner(p, c, s');
    assert TableInv(p, t);
    if c.Pool? { assert DirInv(p, c.d); }
  }

  lemma MapHere(p: Pages, q: Pages, d: nat, vaddr: nat, t: nat, f: nat, w: nat)
    requires Inv(p) && Wf(q) && Mappable(p, d, vaddr) && Slot(w) == Slot(vaddr) < PAGE_ENTRIES
    requires Mapped(p, q, d, Slot(vaddr), Index(vaddr), t, f)
    ensures Translate(q, Pool(d), w) ==
            if Index(w) == Index(vaddr) then Some(Access(FrameAddr(f), true, true)) else Translate(p, Pool(d), w)
  {
    hide FrameInv, EntryInv, LowInv, TableInv;
    assert DirInv(p, d);
  }

  /** `paging_map_private_page` gives its own page a fresh frame with full user rights and changes
      no other translation, in this directory or any other. */
  lemma MapChangesOnePage(p: Pages, d: nat, vaddr: nat, c: DirRef, w: nat)
    requires Inv(p) && Mappable(p, d, vaddr) && (Slot(vaddr) == APP_SLOT ==> NoSharers(p, d))
    requires ValidDir(c) && (c.Pool? ==> p.dirUsed[c.d]) && Slot(w) < PAGE_ENTRIES
    ensures
      var (q, f) := MapPrivate(p, Pool(d), vaddr);
      && f.Some? && f.value < POOL_FRAMES && !p.bits[f.value]
      && Translate(q, c, w) ==
         if c == Pool(d) && Slot(w) == Slot(vaddr) && Index(w) == Index(vaddr)
         then Some(Access(FrameAddr(f.value), true, true)) else Translate(p, c, w)
  {
    var t := MapSucceeds(p, d, vaddr);
    hide BootInv, FrameInv, DirInv, TableInv, EntryInv, LowInv, MapPrivate, Translate, NoSharers;
    var (q, f) := MapPrivate(p, Pool(d), vaddr);
    if c == Pool(d) && Slot(w) == Slot(vaddr) {
      MapHere(p, q, d, vaddr, t, f.value, w);
    } else {
      MapElsewhere(p, q, d, vaddr, t, f.value, c, w);
    }
  }

  // ---- no step changes a live task's mappings ----

  /** Neither task `m`'s directory nor the app table it uses belongs to directory `d`. */
  ghost predicate Apart(k: Kernel, m: nat, d: nat)
    requires KWf(k) && m < MAX_TASKS
  {
    && DirOf(k, m) != d
    && var e := k.pages.dirs[DirOf(k, m)][APP_SLOT];
       e.table.Private? ==> k.pages.owner[e.table.t] != Pool(d)
  }

  lemma ApartFromNobodys(k: Kernel, m: nat, d: nat)
    requires KInv(k) && 0 < m < MAX_TASKS && Live(k, m) && Nobodys(k, d)
    ensures Apart(k, m, d)
  {
    hide FrameInv, DirInv, TableInv, EntryInv, LowInv, LoadInv, ReapInv;
    assert SlotInv(k, m);
    if k.pages.dirs[DirOf(k, m)][APP_SLOT].table.Private? {
      var a := AppOwner(k, m);
      assert SlotInv(k, a);
    }
  }

  lemma ApartFromFreed(k: Kernel, m: nat, i: nat, d: nat)
    requires KInv(k) && 0 < m < MAX_TASKS && Live(k, m) && d < MAX_DIRS && NoSharers(k.pages, d)
    requires i < MAX_TASKS && k.tasks[i].cr3 == Pool(d) && i != m
    ensures Apart(k, m, d)
  {
    hide BootInv, FrameInv, DirInv, TableInv, EntryInv, LowInv, LoadInv, ReapInv, ParentsInv, HeldInv;
    assert SlotInv(k, m) && i != 0;
    assert SlotInv(k, i);
    assert Live(k, i);
  }

  /** The pages before the step, but for the staging buffer when the loader fills it. */
  ghost function Before(k: Kernel, s: Step): (p: Pages)
    requires KWf(k) && Enabled(k, s)
    ensures Wf(p)
  {
    k.pages.(low := Next(k, s).pages.low)
  }

  /** The directory that a step works on, which no task that survives the step depends on. */
  lemma StepWorksOn(k: Kernel, s: Step) returns (d: nat)
    requires KInv(k) && Enabled(k, s) && !s.StoreStep?
    ensures Keeps(Before(k, s), Next(k, s).pages, d)
    ensures !s.ExecStartStep? ==> Next(k, s).pages.low == k.pages.low
    ensures Nobodys(k, d) || (s.ReapStep? && d < MAX_DIRS && NoSharers(k.pages, d)
            && exists i: nat :: i < MAX_TASKS && k.tasks[i].cr3 == Pool(d) && Next(k, s).tasks[i].state == Unused)
  {
    hide Inv, SlotsInv, ParentsInv, HeldInv, SchedInv, BootTaskInv, Distinct, LoadInv, ReapInv;
    d := MAX_DIRS;
    NobodysNone(k);
    match s
    case CreateStep(ring3) => d := CreateWorksOn(k, ring3);
    case SpawnStep => d := SpawnWorksOn(k);
    case ScheduleStep => KeepsRefl(k.pages, d);
    case ExitStep => KeepsRefl(k.pages, d);
    case ExecObserveStep => KeepsRefl(k.pages, d);
    case ReapStep => d := ReapWorksOn(k);
    case ExecStartStep(blob, args) => d := StartWorksOn(k, blob, args);
    case _ => d := ExecWorksOn(k, s);
  }

  lemma NobodysNone(k: Kernel)
    requires KWf(k)
    ensures Nobodys(k, MAX_DIRS)
  {}

  lemma KeepsRefl(p: Pages, d: nat)
    requires Wf(p)
    ensures Keeps(p, p, d)
  {}

  lemma CreateWorksOn(k: Kernel, ring3: bool) returns (d: nat)
    requires KInv(k)
    ensures Keeps(k.pages, Create(k, ring3).pages, d) && Nobodys(k, d)
  {
    hide BootInv, FrameInv, DirInv, TableInv, EntryInv, LowInv, Keeps, LoadInv, ReapInv, SlotsInv, ParentsInv, HeldInv,
         MapPrivate;
    d := MAX_DIRS;
    NobodysNone(k);
    KeepsRefl(k.pages, d);
    if FreeTask(k.tasks).Some? {
      FreeSlotIsNotBoot(k);
      var q;
      d, q := NewTaskDir(k.pages);
      UnusedIsNobodys(k, d);
    }
  }

  lemma SpawnWorksOn(k: Kernel) returns (d: nat)
    requires KInv(k)
    ensures Keeps(k.pages, Spawn(k).pages, d) && Nobodys(k, d)
  {
    hide BootInv, FrameInv, DirInv, TableInv, EntryInv, LowInv, Keeps, LoadInv, ReapInv, ParentsInv, HeldInv,
         MapPrivate;
    d := MAX_DIRS;
    NobodysNone(k);
    KeepsRefl(k.pages, d);
    if FreeTask(k.tasks).Some? && k.tasks[k.current].ring3 {
      FreeSlotIsNotBoot(k);
      assert SlotInv(k, k.current);
      var q;
      d, q := NewChildDir(k.pages, DirOf(k, k.current));
      UnusedIsNobodys(k, d);
    }
  }

  lemma StartWorksOn(k: Kernel, blob: seq<byte>, args: Argv.Args) returns (d: nat)
    requires KInv(k) && Enabled(k, ExecStartStep(blob, args))
    ensures Keeps(k.pages.(low := Stage(k.pages.low, blob)), ExecStart(k, blob, args).pages, d) && Nobodys(k, d)
    ensures ExecStart(k, blob, args).pages.low == Stage(k.pages.low, blob)
  {
    hide BootInv, FrameInv, DirInv, TableInv, EntryInv, LowInv, ReapInv, SlotsInv, ParentsInv, HeldInv, Stage, Keeps;
    var k' := k.(pages := k.pages.(low := Stage(k.pages.low, blob)));
    LowKeeps(k, k');
    DirsAvailable(k', 0);
    CloneBuilds(k'.pages);
    d := CloneDir(k'.pages).1.value;
    UnusedIsNobodys(k', d);
    assert Nobodys(k, d) by { assert forall i: nat :: Live(k, i) == Live(k', i); }
  }

  lemma ExecWorksOn(k: Kernel, s: Step) returns (d: nat)
    requires KInv(k) && Enabled(k, s) && (s.ExecCodeStep? || s.ExecStackStep? || s.ExecArgsStep? || s.ExecCreateStep?)
    ensures Keeps(k.pages, Next(k, s).pages, d) && Nobodys(k, d)
  {
    hide BootInv, FrameInv, DirInv, TableInv, EntryInv, LowInv, LoadedPages, ReapInv, SlotsInv, ParentsInv, HeldInv;
    hide MapPrivate, FreeAll, Keeps, Mapped, Chunk, Share;
    d := k.exec.dir;
    match s
    case ExecCodeStep => var t, f := ExecCodeMaps(k);
    case ExecStackStep => var t, f := ExecStackMaps(k);
    case ExecArgsStep =>
      BottomPage(k);
      BuildsRefl(k.pages, d);
      WriteBuilds(k.pages, k.pages, d, k.exec.frame0, ExecArgs(k).pages.ram[k.exec.frame0]);
    case ExecCreateStep =>
      if FreeTask(k.tasks).None? {
        LoaderUnshared(k);
        FreeAllKeepsOthers(k.pages, d);
      } else {
        ScratchBuilds(k.pages, d);
      }
  }

  lemma ReapWorksOn(k: Kernel) returns (d: nat)
    requires KInv(k) && Enabled(k, ReapStep)
    ensures Keeps(k.pages, ReapTurn(k).pages, d)
    ensures Nobodys(k, d) || (d < MAX_DIRS && NoSharers(k.pages, d)
            && exists i: nat :: i < MAX_TASKS && k.tasks[i].cr3 == Pool(d) && ReapTurn(k).tasks[i].state == Unused)
  {
    hide BootInv, FrameInv, DirInv, TableInv, EntryInv, LowInv, FreePrivate, FreeAll, ParentsInv, HeldInv;
    var top := k.exec.calls[|k.exec.calls| - 1];
    if top.j >= MAX_TASKS {
      LoopDoneChildless(k);
      assert SlotInv(k, top.slot);
      d := DirOf(k, top.slot);
      ReclaimPages(k, top.slot);
      ChildlessUnshared(k, top.slot);
    } else {
      d := MAX_DIRS;
      NobodysNone(k);
      KeepsRefl(k.pages, d);
    }
  }

  /** Work on a directory that a task is apart from leaves its directory and its tables alone. */
  lemma TablesKept(k: Kernel, p: Pages, q: Pages, m: nat, d: nat, s: nat)
    requires KInv(k) && 0 < m < MAX_TASKS && Live(k, m) && s < PAGE_ENTRIES
    requires Keeps(p, q, d) && p == k.pages.(low := p.low) && Apart(k, m, d)
    ensures var c := Pool(DirOf(k, m)); Dir(q, c)[s] == Dir(p, c)[s] && TableKept(p, q, Dir(p, c)[s], d)
  {
    hide BootInv, FrameInv, DirInv, TableInv, EntryInv, LowInv, LoadInv, ReapInv, ParentsInv, HeldInv;
    assert SlotInv(k, m);
    var e := k.pages.dirs[DirOf(k, m)][s];
    if e.present && e.table.Private? {
      EntryOwner(k.pages, Pool(DirOf(k, m)), s);
    }
  }

  /** The table behind an entry is the same, and is not one of directory `d`. */
  ghost predicate TableKept(p: Pages, q: Pages, e: Pde, d: nat)
    requires Wf(p) && Wf(q) && ValidPde(e)
  {
    e.present ==>
      && Table(q, e.table) == Table(p, e.table)
      && (e.table.Private? ==> p.owner[e.table.t] != NoDir && p.owner[e.table.t] != Pool(d))
  }

  lemma BootTablesKept(p: Pages, q: Pages, d: nat, s: nat)
    requires Wf(p) && BootInv(p) && Keeps(p, q, d) && s < PAGE_ENTRIES
    ensures q.kdir[s] == p.kdir[s] && TableKept(p, q, p.kdir[s], d)
  {}

  /** No step works on what a task that survives it sees. */
  lemma ViewKept(k: Kernel, s: Step, m: nat, x: nat) returns (d: nat)
    requires KInv(k) && Enabled(k, s) && !s.StoreStep? && m < MAX_TASKS && x < PAGE_ENTRIES
    requires Live(k, m) && Next(k, s).tasks[m].state != Unused
    ensures ValidDir(k.tasks[m].cr3) && Keeps(Before(k, s), Next(k, s).pages, d)
    ensures !s.ExecStartStep? ==> Next(k, s).pages.low == k.pages.low
    ensures
      var p, q, c := Before(k, s), Next(k, s).pages, k.tasks[m].cr3;
      Dir(q, c)[x] == Dir(k.pages, c)[x] == Dir(p, c)[x] && TableKept(p, q, Dir(p, c)[x], d)
  {
    hide BootInv, FrameInv, DirInv, TableInv, EntryInv, LowInv, LoadInv, ReapInv, ParentsInv, HeldInv;
    hide Next, Enabled, Keeps, Apart, Nobodys, NoSharers, TableKept;
    d := StepWorksOn(k, s);
    if m == 0 {
      assert BootInv(Before(k, s)) by { BootLow(k.pages, Before(k, s)); }
      BootTablesKept(Before(k, s), Next(k, s).pages, d, x);
    } else {
      assert SlotInv(k, m);
      if Nobodys(k, d) {
        ApartFromNobodys(k, m, d);
      } else {
        var i: nat :| i < MAX_TASKS && k.tasks[i].cr3 == Pool(d) && Next(k, s).tasks[i].state == Unused;
        ApartFromFreed(k, m, i, d);
      }
      TablesKept(k, Before(k, s), Next(k, s).pages, m, d, x);
    }
  }

  lemma BootLow(p: Pages, q: Pages)
    requires Wf(p) && BootInv(p) && Wf(q) && q == p.(low := q.low)
    ensures BootInv(q)
  {}

  /** While a task is alive, no step changes what any address of it translates to: in particular
      no reap, exit or task creation takes a page away from it. */
  lemma MappingsNeverChange(k: Kernel, s: Step, m: nat, w: nat)
    requires Reachable(k) && KWf(k) && Enabled(k, s) && m < MAX_TASKS && Slot(w) < PAGE_ENTRIES
    requires k.tasks[m].state != Unused && Next(k, s).tasks[m].state != Unused
    ensures ValidDir(k.tasks[m].cr3)
    ensures Translate(Next(k, s).pages, k.tasks[m].cr3, w) == Translate(k.pages, k.tasks[m].cr3, w)
  {
    hide KInv, Reachable, Next, Enabled, Translate;
    ReachableInv(k);
    MappingsKept(k, s, m, w);
  }

  lemma MappingsKept(k: Kernel, s: Step, m: nat, w: nat)
    requires KInv(k) && Enabled(k, s) && m < MAX_TASKS && Slot(w) < PAGE_ENTRIES
    requires Live(k, m) && Next(k, s).tasks[m].state != Unused
    ensures ValidDir(k.tasks[m].cr3)
    ensures Translate(Next(k, s).pages, k.tasks[m].cr3, w) == Translate(k.pages, k.tasks[m].cr3, w)
  {
    hide Inv, SlotsInv, ParentsInv, HeldInv, SchedInv, Distinct, LoadInv, ReapInv;
    if s.StoreStep? {
      assert ValidDir(k.tasks[m].cr3) by { TaskDir(k, m); }
      StoreKeepsTables(k, s.vaddr, s.b);
    } else {
      hide Next, Enabled, Keeps;
      var d := ViewKept(k, s, m, Slot(w));
    }
  }

  lemma TaskDir(k: Kernel, m: nat)
    requires KInv(k) && m < MAX_TASKS && Live(k, m)
    ensures ValidDir(k.tasks[m].cr3) && (k.tasks[m].cr3.Pool? ==> k.pages.dirUsed[k.tasks[m].cr3.d])
    ensures m != 0 ==> k.tasks[m].cr3 == Pool(DirOf(k, m))
    ensures m == 0 ==> k.tasks[m].cr3 == KernelDir
  {
    hide Inv, ParentsInv, HeldInv, SchedInv, Distinct, LoadInv, ReapInv;
    if m != 0 { assert SlotInv(k, m); }
  }

  lemma StoreKeepsTables(k: Kernel, vaddr: nat, b: byte)
    requires KWf(k) && Slot(vaddr) < PAGE_ENTRIES
    ensures
      var r := Store(k, vaddr, b);
      r == k.(pages := k.pages.(ram := r.pages.ram, low := r.pages.low))
  {}
}
