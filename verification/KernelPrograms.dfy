/** What programs read: a program just loaded reads back exactly, at APP_LOAD_ADDR and through argv
    (kernel/proc/loader.c: try_exec), and only the named steps change a byte that a task reads. */
module KernelPrograms {
  import opened Common
  import opened Paging
  import opened PagingInv
  import opened PagingSteps
  import opened Tasks
  import opened TasksInv
  import opened TasksSteps
  import opened ExecSteps
  import opened KernelRuns
  import opened KernelViews
  import Argv

  /** The byte user code reads at `vaddr`, if it may. */
  function ReadUser(p: Pages, d: DirRef, vaddr: nat): Option<byte>
    requires Wf(p) && ValidDir(d)
  {
    if Slot(vaddr) >= PAGE_ENTRIES then None
    else
      var a := Translate(p, d, vaddr);
      if a.Some? && a.value.user && Modelled(a.value.frame)
      then Some(Page(p, a.value.frame)[vaddr % PAGE_SIZE]) else None
  }

  /** User code reads `bytes` from `vaddr` on. */
  ghost predicate Holds(p: Pages, d: DirRef, vaddr: nat, bytes: seq<byte>)
    requires Wf(p) && ValidDir(d)
  {
    forall j | 0 <= j < |bytes| :: ReadUser(p, d, vaddr + j) == Some(bytes[j])
  }

  lemma PageReads(p: Pages, d: nat, t: nat, i: nat, bytes: seq<byte>, vaddr: nat)
    requires Wf(p) && Points(p, d, APP_SLOT, t) && PageHolds(p, t, i, bytes) && |bytes| == PAGE_SIZE
    requires Slot(vaddr) == APP_SLOT && Index(vaddr) == i
    ensures ReadUser(p, Pool(d), vaddr) == Some(bytes[vaddr % PAGE_SIZE])
  {
    var f: nat :| f < POOL_FRAMES && p.tables[t][i] == Pte(FrameAddr(f), true, true, true) && p.ram[f] == bytes;
    assert (FrameAddr(f) - POOL_START) / PAGE_SIZE == f;
  }

  lemma AppByte(n: nat)
    requires n < 20 * PAGE_SIZE
    ensures
      var v := APP_LOAD_ADDR + n;
      Slot(v) == APP_SLOT && Index(v) == 512 + n / PAGE_SIZE && v % PAGE_SIZE == n % PAGE_SIZE
  {}

  /** A program, padded with zeros to a whole page. */
  function Padded(code: seq<byte>): seq<byte>
  {
    code + seq(CodePages(|code|) * PAGE_SIZE - |code|, _ => 0)
  }

  lemma CodeReads(k: Kernel, n: nat)
    requires KInv(k) && k.exec.Loading? && k.exec.placed && n < CodePages(k.exec.size) * PAGE_SIZE
    ensures |k.exec.copied| == k.exec.size
    ensures ReadUser(k.pages, Pool(k.exec.dir), APP_LOAD_ADDR + n)
            == Some(if n < k.exec.size then k.exec.copied[n] else 0)
  {
    hide Inv, SlotsInv, ParentsInv, HeldInv, ReapInv, ReadUser;
    var x, p := k.exec, k.pages;
    var t, i := p.dirs[x.dir][APP_SLOT].table.t, 512 + n / PAGE_SIZE;
    AppByte(n);
    assert CodeHolds(p, t, i, x.copied);
    var page := Chunk(x.copied, n / PAGE_SIZE);
    PageReads(p, x.dir, t, i, page, APP_LOAD_ADDR + n);
    assert page[n % PAGE_SIZE] == if n < x.size then x.copied[n] else 0;
  }

  lemma CodeWhole(k: Kernel)
    requires KInv(k) && k.exec.Loading? && k.exec.placed
    ensures |k.exec.copied| == k.exec.size
  {
    hide Inv, SlotsInv, ParentsInv, HeldInv, ReapInv, LoadedPages;
  }

  lemma CodeHeld(k: Kernel)
    requires KInv(k) && k.exec.Loading? && k.exec.placed
    ensures Holds(k.pages, Pool(k.exec.dir), APP_LOAD_ADDR, Padded(k.exec.copied))
  {
    hide Inv, SlotsInv, ParentsInv, HeldInv, ReapInv, ReadUser, LoadInv;
    var bytes := Padded(k.exec.copied);
    assert |k.exec.copied| == k.exec.size by { CodeWhole(k); }
    forall n | 0 <= n < |bytes| ensures ReadUser(k.pages, Pool(k.exec.dir), APP_LOAD_ADDR + n) == Some(bytes[n]) {
      CodeReads(k, n);
    }
  }

  /** Part of the bottom stack page. */
  lemma StackHeld(k: Kernel, lo: nat, hi: nat)
    requires KInv(k) && k.exec.Loading? && k.exec.placed && lo <= hi <= PAGE_SIZE
    ensures Holds(k.pages, Pool(k.exec.dir), APP_STACK_VADDR + lo, StackPage(k.exec)[lo..hi])
  {
    hide Inv, SlotsInv, ParentsInv, HeldInv, ReapInv, ReadUser;
    var x, p := k.exec, k.pages;
    var t, page := p.dirs[x.dir][APP_SLOT].table.t, StackPage(x);
    assert PageHolds(p, t, 528, page);
    forall j | 0 <= j < hi - lo ensures ReadUser(p, Pool(x.dir), APP_STACK_VADDR + lo + j) == Some(page[lo..hi][j]) {
      AppByte(16 * PAGE_SIZE + lo + j);
      PageReads(p, x.dir, t, 528, page, APP_STACK_VADDR + lo + j);
    }
  }

  /** The other stack pages, blank. */
  lemma StackBlank(k: Kernel)
    requires KInv(k) && k.exec.Loading? && k.exec.placed
    ensures Holds(k.pages, Pool(k.exec.dir), APP_STACK_VADDR + PAGE_SIZE, seq(3 * PAGE_SIZE, _ => 0))
  {
    hide Inv, SlotsInv, ParentsInv, HeldInv, ReapInv, ReadUser;
    var x, p := k.exec, k.pages;
    var t := p.dirs[x.dir][APP_SLOT].table.t;
    var blank: seq<byte> := seq(3 * PAGE_SIZE, _ => 0);
    forall j | 0 <= j < |blank| ensures ReadUser(p, Pool(x.dir), APP_STACK_VADDR + PAGE_SIZE + j) == Some(blank[j]) {
      AppByte(17 * PAGE_SIZE + j);
      var i := 529 + j / PAGE_SIZE;
      assert PageHolds(p, t, i, ZeroFrame());
      PageReads(p, x.dir, t, i, ZeroFrame(), APP_STACK_VADDR + PAGE_SIZE + j);
    }
  }

  /** Argument `a`: argv[a] holds the address of its bytes, which end in a zero. */
  ghost predicate ArgHeld(p: Pages, d: DirRef, args: Argv.Args, a: nat)
    requires Wf(p) && ValidDir(d) && a < Argv.Count(args)
  {
    var off, len := Argv.Off(args, a), Argv.Len(args, a);
    && off + len < Argv.AREA
    && Holds(p, d, APP_STACK_VADDR + Argv.AREA + 4 * a, Word(APP_STACK_VADDR + off))
    && Holds(p, d, APP_STACK_VADDR + off, args[a][..len] + [0])
  }

  lemma ArgsHeld(k: Kernel, a: nat)
    requires KInv(k) && k.exec.Loading? && k.exec.placed && a < Argv.Count(k.exec.args)
    ensures ArgHeld(k.pages, Pool(k.exec.dir), k.exec.args, a)
  {
    hide Inv, SlotsInv, ParentsInv, HeldInv, SchedInv, BootTaskInv, Distinct, ReapInv, LoadedPages, Holds;
    var x := k.exec;
    var off, len, at := Argv.Off(x.args, a), Argv.Len(x.args, a), Argv.AREA + 4 * a;
    Argv.PlaceReads(ZeroFrame(), x.args, Argv.Count(x.args), a);
    StackHeld(k, at, at + 4);
    StackHeld(k, off, off + len + 1);
  }

  lemma ScratchLeavesByte(p: Pages, d: nat, v: nat)
    requires Inv(p) && d < MAX_DIRS && p.dirUsed[d] && p.dirs[d][PRIVATE_SLOT] == p.kdir[PRIVATE_SLOT]
    requires Slot(v) == APP_SLOT && ReadUser(p, Pool(d), v).Some?
    ensures ReadUser(MapPrivate(p, Pool(d), TASK_PRIVATE_VADDR).0, Pool(d), v) == ReadUser(p, Pool(d), v)
  {
    hide BootInv, FrameInv, DirInv, TableInv, EntryInv, LowInv, MapPrivate, Translate;
    assert Mappable(p, d, TASK_PRIVATE_VADDR);
    var t := MapSucceeds(p, d, TASK_PRIVATE_VADDR);
    MapChangesOnePage(p, d, TASK_PRIVATE_VADDR, Pool(d), v);
    if InPool(Translate(p, Pool(d), v).value.frame) {
      AppFrameAllocated(p, d, v);
    }
  }

  /** Mapping the scratch page leaves what the app slot shows as it was. */
  lemma ScratchLeavesHolds(p: Pages, d: nat, vaddr: nat, bytes: seq<byte>)
    requires Inv(p) && d < MAX_DIRS && p.dirUsed[d] && p.dirs[d][PRIVATE_SLOT] == p.kdir[PRIVATE_SLOT]
    requires Slot(vaddr + |bytes|) == APP_SLOT && Holds(p, Pool(d), vaddr, bytes)
    ensures Holds(MapPrivate(p, Pool(d), TASK_PRIVATE_VADDR).0, Pool(d), vaddr, bytes)
  {
    hide BootInv, FrameInv, DirInv, TableInv, EntryInv, LowInv, MapPrivate, ReadUser;
    var q := MapPrivate(p, Pool(d), TASK_PRIVATE_VADDR).0;
    forall j | 0 <= j < |bytes| ensures ReadUser(q, Pool(d), vaddr + j) == Some(bytes[j]) {
      SlotBelow(vaddr + j, vaddr + |bytes|);
      assert ReadUser(p, Pool(d), vaddr + j) == Some(bytes[j]);
      ScratchLeavesByte(p, d, vaddr + j);
    }
  }

  lemma SlotBelow(v: nat, w: nat)
    requires v <= w && Slot(w) == APP_SLOT
    ensures Slot(v) == APP_SLOT
  {}

  /** A pool frame seen through the app slot is allocated. */
  lemma AppFrameAllocated(p: Pages, d: nat, vaddr: nat)
    requires Inv(p) && d < MAX_DIRS && p.dirUsed[d] && Slot(vaddr) == APP_SLOT
    requires var a := Translate(p, Pool(d), vaddr); a.Some? && InPool(a.value.frame)
    ensures p.bits[(Translate(p, Pool(d), vaddr).value.frame - POOL_START) / PAGE_SIZE]
  {
    assert DirInv(p, d);
    var t := p.dirs[d][APP_SLOT].table.t;
    assert EntryInv(p, t);
    var f: nat :| Ref(p, t, Index(vaddr), f);
  }

  lemma ScratchLeavesArg(p: Pages, d: nat, args: Argv.Args, a: nat)
    requires Inv(p) && d < MAX_DIRS && p.dirUsed[d] && p.dirs[d][PRIVATE_SLOT] == p.kdir[PRIVATE_SLOT]
    requires a < Argv.Count(args) && ArgHeld(p, Pool(d), args, a)
    ensures ArgHeld(MapPrivate(p, Pool(d), TASK_PRIVATE_VADDR).0, Pool(d), args, a)
  {
    hide BootInv, FrameInv, DirInv, TableInv, EntryInv, LowInv, MapPrivate, Holds, Word;
    var off, len := Argv.Off(args, a), Argv.Len(args, a);
    ScratchLeavesHolds(p, d, APP_STACK_VADDR + off, args[a][..len] + [0]);
    ScratchLeavesHolds(p, d, APP_STACK_VADDR + Argv.AREA + 4 * a, Word(APP_STACK_VADDR + off));
  }

  lemma ScratchLeavesProgram(k: Kernel)
    requires KInv(k) && k.exec.Loading? && k.exec.placed
    ensures
      var q, x := MapPrivate(k.pages, Pool(k.exec.dir), TASK_PRIVATE_VADDR).0, k.exec;
      && Holds(q, Pool(x.dir), APP_LOAD_ADDR, Padded(x.copied))
      && Holds(q, Pool(x.dir), APP_STACK_VADDR + PAGE_SIZE, seq(3 * PAGE_SIZE, _ => 0))
      && forall a | 0 <= a < Argv.Count(x.args) :: ArgHeld(q, Pool(x.dir), x.args, a)
  {
    hide BootInv, FrameInv, DirInv, TableInv, EntryInv, LowInv, SlotsInv, ParentsInv, HeldInv, LoadedPages, Holds,
         ArgHeld, MapPrivate;
    CodeHeld(k);
    ScratchLeavesHolds(k.pages, k.exec.dir, APP_LOAD_ADDR, Padded(k.exec.copied));
    StackBlank(k);
    ScratchLeavesHolds(k.pages, k.exec.dir, APP_STACK_VADDR + PAGE_SIZE, seq(3 * PAGE_SIZE, _ => 0));
    forall a: nat | a < Argv.Count(k.exec.args)
      ensures ArgHeld(MapPrivate(k.pages, Pool(k.exec.dir), TASK_PRIVATE_VADDR).0, Pool(k.exec.dir), k.exec.args, a)
    {
      ArgsHeld(k, a);
      ScratchLeavesArg(k.pages, k.exec.dir, k.exec.args, a);
    }
  }

  lemma CreatedTask(k: Kernel)
    requires KInv(k) && Enabled(k, ExecCreateStep) && FreeTask(k.tasks).Some?
    ensures
      var r, i := ExecCreate(k), FreeTask(k.tasks).value;
      && r.tasks[i].state == Ready && r.tasks[i].cr3 == Pool(k.exec.dir)
      && r.pages == MapPrivate(k.pages, Pool(k.exec.dir), TASK_PRIVATE_VADDR).0
  {
    hide BootInv, FrameInv, DirInv, TableInv, EntryInv, LowInv, SlotsInv, ParentsInv, HeldInv, LoadedPages, MapPrivate,
         Keeps;
    ScratchBuilds(k.pages, k.exec.dir);
  }

  /** When try_exec has created the app's task, that task reads exactly the program at
      APP_LOAD_ADDR, zeros to the end of its last page, its arguments through argv, and a blank stack
      above them. */
  lemma ProgramLoaded(k: Kernel)
    requires Reachable(k) && KWf(k) && Enabled(k, ExecCreateStep) && FreeTask(k.tasks).Some?
    ensures
      var r, x, i := ExecCreate(k), k.exec, FreeTask(k.tasks).value;
      && r.tasks[i].state == Ready && r.tasks[i].cr3 == Pool(x.dir)
      && Holds(r.pages, Pool(x.dir), APP_LOAD_ADDR, Padded(x.copied))
      && Holds(r.pages, Pool(x.dir), APP_STACK_VADDR + PAGE_SIZE, seq(3 * PAGE_SIZE, _ => 0))
      && forall a | 0 <= a < Argv.Count(x.args) :: ArgHeld(r.pages, Pool(x.dir), x.args, a)
  {
    hide KInv, ExecCreate, MapPrivate, Holds, ArgHeld, Reachable;
    ReachableInv(k);
    CreatedTask(k);
    ScratchLeavesProgram(k);
  }

  // ---- the program is the file ----

  /** The program being loaded is `file`, with arguments `args`: the part copied is its beginning, and the
      staging buffer holds the rest. */
  ghost predicate StagedAs(k: Kernel, file: seq<byte>, args: Argv.Args)
    requires KWf(k) && k.exec.Loading?
  {
    var x := k.exec;
    && x.size == |file| <= EXEC_BUF_SIZE && x.copied <= file && x.args == args
    && forall at | |x.copied| <= at < |file| :: StagedByte(k.pages.low, at) == file[at]
  }

  /** A store by user code that reaches the staging buffer. */
  ghost predicate Spoils(k: Kernel, s: Step)
    requires KWf(k)
  {
    && s.StoreStep? && Slot(s.vaddr) < PAGE_ENTRIES && ValidDir(k.tasks[k.current].cr3)
    && var a := Translate(k.pages, k.tasks[k.current].cr3, s.vaddr);
       a.Some? && APP_LOAD_ADDR <= a.value.frame < APP_LOAD_ADDR + EXEC_BUF_SIZE
  }

  lemma StagedAtStart(k: Kernel, blob: seq<byte>, args: Argv.Args)
    requires KInv(k) && Enabled(k, ExecStartStep(blob, args))
    ensures ExecStart(k, blob, args).exec.Loading? && StagedAs(ExecStart(k, blob, args), blob, args)
  {
    hide Inv, SlotsInv, ParentsInv, HeldInv, SchedInv, BootTaskInv, Distinct, LoadInv, ReapInv, ExecStart, Stage;
    ExecStartKeeps(k, blob, args);
    StagedBytes(k.pages.low, blob);
    StartLow(k, blob, args);
  }

  lemma StartLow(k: Kernel, blob: seq<byte>, args: Argv.Args)
    requires KWf(k) && ExecStart(k, blob, args).exec.Loading? && !k.exec.Loading?
    ensures
      var r := ExecStart(k, blob, args);
      r.pages.low == Stage(k.pages.low, blob) && r.exec.size == |blob| && r.exec.copied == [] && r.exec.args == args
  {}

  lemma StagedBytes(low: seq<seq<byte>>, blob: seq<byte>)
    requires |low| == PAGE_ENTRIES && (forall n | 0 <= n < PAGE_ENTRIES :: |low[n]| == PAGE_SIZE)
    requires |blob| <= EXEC_BUF_SIZE
    ensures forall at | 0 <= at < |blob| :: StagedByte(Stage(low, blob), at) == blob[at]
  {
    forall at | 0 <= at < |blob| ensures StagedByte(Stage(low, blob), at) == blob[at] {
      var n := EXEC_BUF_PAGE + at / PAGE_SIZE;
      assert Stage(low, blob)[n] == StagedPage(low[n], blob, n);
    }
  }

  /** The copy of one page takes the file's next bytes. */
  lemma ShareIs(k: Kernel, file: seq<byte>, args: Argv.Args)
    requires KInv(k) && Enabled(k, ExecCodeStep) && StagedAs(k, file, args)
    ensures k.exec.copied + Share(k.pages.low, k.exec.size, k.exec.code) <= file
  {
    hide Inv, SlotsInv, ParentsInv, HeldInv, SchedInv, Distinct, ReapInv, LoadedPages;
    var x := k.exec;
    var bytes := Share(k.pages.low, x.size, x.code);
    assert |x.copied| == x.code * PAGE_SIZE;
    forall i | 0 <= i < |bytes| ensures bytes[i] == file[|x.copied| + i] {
      var at := |x.copied| + i;
      assert at / PAGE_SIZE == x.code && at % PAGE_SIZE == i;
      assert StagedByte(k.pages.low, at) == file[at];
    }
  }

  /** Only a store into the staging buffer can spoil the program while it is being loaded. */
  lemma StagedKept(k: Kernel, s: Step, file: seq<byte>, args: Argv.Args)
    requires KInv(k) && Enabled(k, s) && k.exec.Loading? && StagedAs(k, file, args) && !Spoils(k, s)
    requires Next(k, s).exec.Loading?
    ensures StagedAs(Next(k, s), file, args)
  {
    if s.StoreStep? {
      StoreSpares(k, s.vaddr, s.b);
    } else {
      hide Inv, SlotsInv, ParentsInv, HeldInv, SchedInv, Distinct, ReapInv, LoadInv;
      var d := StepWorksOn(k, s);
      ExecStays(k, s);
      if s.ExecCodeStep? { ShareIs(k, file, args); }
    }
  }

  /** What the other steps do to the loader's progress. */
  lemma ExecStays(k: Kernel, s: Step)
    requires KInv(k) && Enabled(k, s) && k.exec.Loading? && !s.StoreStep? && Next(k, s).exec.Loading?
    ensures
      var x, y := k.exec, Next(k, s).exec;
      && y.size == x.size && y.args == x.args
      && y.copied == if s.ExecCodeStep? then x.copied + Share(k.pages.low, x.size, x.code) else x.copied
  {
    hide Inv, SlotsInv, ParentsInv, HeldInv, SchedInv, Distinct, ReapInv, LoadInv, MapPrivate, CloneDir, MapPages,
         FreeAll, Share;
    match s
    case ExecCodeStep => var t, f := ExecCodeMaps(k);
    case _ =>
  }

  lemma StoreSpares(k: Kernel, vaddr: nat, b: byte)
    requires KWf(k) && Slot(vaddr) < PAGE_ENTRIES && !Spoils(k, StoreStep(vaddr, b))
    ensures
      var r := Store(k, vaddr, b);
      && r.exec == k.exec
      && forall at | 0 <= at < EXEC_BUF_SIZE :: StagedByte(r.pages.low, at) == StagedByte(k.pages.low, at)
  {}

  /** The run takes each step in turn, and none of them spoils the staging buffer. */
  ghost predicate Spares(k: Kernel, steps: seq<Step>)
    requires KWf(k)
    decreases |steps|
  {
    steps == [] ||
    (&& Enabled(k, steps[0]) && !Spoils(k, steps[0])
     && Next(k, steps[0]).exec.Loading? && Spares(Next(k, steps[0]), steps[1..]))
  }

  lemma {:induction false} StagedRun(k: Kernel, steps: seq<Step>, file: seq<byte>, args: Argv.Args)
    requires KInv(k) && k.exec.Loading? && StagedAs(k, file, args) && Spares(k, steps)
    ensures Valid(k, steps) && KInv(After(k, steps)) && After(k, steps).exec.Loading?
    ensures StagedAs(After(k, steps), file, args)
    decreases |steps|
  {
    hide Inv, SlotsInv, ParentsInv, HeldInv, SchedInv, BootTaskInv, Distinct, LoadInv, ReapInv;
    hide Next, Enabled, Spoils, StagedAs;
    if steps != [] {
      NextKeeps(k, steps[0]);
      StagedKept(k, steps[0], file, args);
      StagedRun(Next(k, steps[0]), steps[1..], file, args);
    }
  }

  /** From the start of try_exec to the new task, over any run in which no user store reaches the
      staging buffer: the task reads exactly the file, zeros to the end of its last page, and its
      arguments. */
  lemma FileLoaded(k: Kernel, file: seq<byte>, args: Argv.Args, staged: Kernel, steps: seq<Step>, r: Kernel)
    requires Reachable(k) && KWf(k) && Enabled(k, ExecStartStep(file, args)) && staged == ExecStart(k, file, args)
    requires KWf(staged) && Valid(staged, steps) && Spares(staged, steps) && r == After(staged, steps)
    requires KWf(r) && Enabled(r, ExecCreateStep) && FreeTask(r.tasks).Some?
    ensures
      var done, d := ExecCreate(r), Pool(r.exec.dir);
      && Holds(done.pages, d, APP_LOAD_ADDR, Padded(file))
      && Holds(done.pages, d, APP_STACK_VADDR + PAGE_SIZE, seq(3 * PAGE_SIZE, _ => 0))
      && forall a | 0 <= a < Argv.Count(args) :: ArgHeld(done.pages, d, args, a)
  {
    hide Inv, SlotsInv, ParentsInv, HeldInv, SchedInv, BootTaskInv, Distinct, LoadInv, ReapInv;
    hide ExecCreate, ExecStart, MapPrivate, Holds, ArgHeld, Reachable, StagedAs, Padded, Valid, After, Spares;
    ReachableInv(k);
    ExecStartKeeps(k, file, args);
    StagedAtStart(k, file, args);
    StagedRun(staged, steps, file, args);
    AllCopied(r, file, args);
    CreatedTask(r);
    ScratchLeavesProgram(r);
  }

  lemma AllCopied(k: Kernel, file: seq<byte>, args: Argv.Args)
    requires KInv(k) && k.exec.Loading? && k.exec.placed && StagedAs(k, file, args)
    ensures k.exec.copied == file && k.exec.args == args
  {
    hide Inv, SlotsInv, ParentsInv, HeldInv, SchedInv, Distinct, ReapInv, LoadedPages;
  }

  // ---- which steps change a byte a task reads ----

  /** The page behind a user address: a frame of the pool that a private table maps there. */
  ghost predicate PoolSeen(p: Pages, c: DirRef, w: nat, t: nat, f: nat)
    requires Wf(p) && ValidDir(c) && Slot(w) < PAGE_ENTRIES
  {
    && Dir(p, c)[Slot(w)].table == Private(t) && Ref(p, t, Index(w), f)
    && Translate(p, c, w).Some? && Translate(p, c, w).value.frame == FrameAddr(f)
  }

  /** Entry `i` of the app slot's table is still the boot entry: a page of the first 4 MB mapped to
      itself. */
  ghost predicate Unaltered(p: Pages, c: DirRef, i: nat)
    requires Wf(p) && ValidDir(c) && i < PAGE_ENTRIES
  {
    Table(p, Dir(p, c)[APP_SLOT].table)[i] == p.boot[0][i]
  }

  ghost predicate LowSeen(p: Pages, c: DirRef, w: nat)
    requires Wf(p) && ValidDir(c) && Slot(w) < PAGE_ENTRIES
  {
    && Slot(w) == APP_SLOT && Unaltered(p, c, Index(w))
    && Translate(p, c, w).Some? && Translate(p, c, w).value.frame == Index(w) * PAGE_SIZE
  }

  ghost predicate InUse(p: Pages, c: DirRef)
    requires Wf(p)
  {
    ValidDir(c) && (c.Pool? ==> p.dirUsed[c.d] && OwnTable(p, c.d, PRIVATE_SLOT))
  }

  /** User code sees nothing else. */
  lemma UserSees(p: Pages, c: DirRef, w: nat)
    requires Inv(p) && InUse(p, c) && Slot(w) < PAGE_ENTRIES
    requires var a := Translate(p, c, w); a.Some? && a.value.user
    ensures LowSeen(p, c, w) || exists t: nat, f: nat :: PoolSeen(p, c, w, t, f)
  {
    hide FrameInv, TableInv, PoolMapped;
    if c.Pool? { assert DirInv(p, c.d); }
    var e := Dir(p, c)[Slot(w)];
    assert Tracked(Slot(w));
    if e.table.Private? {
      EntryOwner(p, c, Slot(w));
      var t, i := e.table.t, Index(w);
      assert EntryInv(p, t) && LowInv(p, t);
      if p.tables[t][i].frame < POOL_START {
        AppOnly(p, c, Slot(w), t);
      } else {
        var f: nat :| Ref(p, t, i, f);
        assert PoolSeen(p, c, w, t, f);
      }
    }
  }

  /** An app table stands in app slots only. */
  lemma AppOnly(p: Pages, c: DirRef, s: nat, t: nat)
    requires Inv(p) && InUse(p, c) && s < PAGE_ENTRIES && t < MAX_TABLES && IsAppTable(p, t)
    requires Dir(p, c)[s].present && Dir(p, c)[s].table == Private(t)
    ensures s == APP_SLOT
  {
    hide FrameInv, EntryInv, LowInv, PoolMapped;
    assert TableInv(p, t);
    SharedOnlyInApp(p, c, s, p.owner[t].d, APP_SLOT, t);
  }

  /** Two directories show the same page at entry `i` of the app slot: they share the app table, or
      neither has mapped a page of its own over the boot entry. */
  ghost predicate SeesSame(p: Pages, c: DirRef, c': DirRef, i: nat)
    requires Wf(p) && ValidDir(c) && ValidDir(c') && i < PAGE_ENTRIES
  {
    Dir(p, c)[APP_SLOT] == Dir(p, c')[APP_SLOT] || (Unaltered(p, c, i) && Unaltered(p, c', i))
  }

  /** The app slot is open to user code in every directory. */
  lemma AppOpen(p: Pages, c: DirRef)
    requires Inv(p) && InUse(p, c)
    ensures var e := Dir(p, c)[APP_SLOT]; e.present && e.rw && e.user
  {
    hide FrameInv, EntryInv, LowInv, TableInv, PoolMapped;
    if c.Pool? { assert DirInv(p, c.d); }
  }

  lemma SameShown(p: Pages, c: DirRef, c': DirRef, v: nat)
    requires Inv(p) && Wf(p) && InUse(p, c) && InUse(p, c') && Slot(v) == APP_SLOT && SeesSame(p, c, c', Index(v))
    ensures Translate(p, c, v) == Translate(p, c', v)
  {
    hide Inv;
    AppOpen(p, c);
    AppOpen(p, c');
  }

  /** A pool frame is seen from two directories only through a shared app table. */
  lemma FrameShared(p: Pages, c: DirRef, v: nat, c': DirRef, w: nat, t: nat, t': nat, f: nat)
    requires Inv(p) && InUse(p, c) && InUse(p, c') && c != c' && Slot(v) < PAGE_ENTRIES && Slot(w) < PAGE_ENTRIES
    requires PoolSeen(p, c, v, t, f) && PoolSeen(p, c', w, t', f)
    ensures Slot(v) == Slot(w) == APP_SLOT && Index(v) == Index(w) && Dir(p, c)[APP_SLOT] == Dir(p, c')[APP_SLOT]
  {
    hide EntryInv, LowInv, PoolMapped;
    assert t == t' && Index(v) == Index(w);
    OwnedByPool(p, c, v, c', w, t);
    assert TableInv(p, t);
    var x := p.owner[t].d;
    var s: nat :| Tracked(s) && Points(p, x, s, t);
    SharedOnlyInApp(p, c, Slot(v), x, s, t);
    SharedOnlyInApp(p, c', Slot(w), x, s, t);
    AppEntry(p, c, t);
    AppEntry(p, c', t);
  }

  lemma OwnedByPool(p: Pages, c: DirRef, v: nat, c': DirRef, w: nat, t: nat)
    requires Inv(p) && InUse(p, c) && InUse(p, c') && c != c' && Slot(v) < PAGE_ENTRIES && Slot(w) < PAGE_ENTRIES
    requires t < MAX_TABLES && Dir(p, c)[Slot(v)].present && Dir(p, c)[Slot(v)].table == Private(t)
    requires Dir(p, c')[Slot(w)].present && Dir(p, c')[Slot(w)].table == Private(t)
    ensures p.owner[t].Pool?
  {
    hide FrameInv, EntryInv, LowInv, TableInv, PoolMapped;
    EntryOwner(p, c, Slot(v));
    EntryOwner(p, c', Slot(w));
  }

  lemma AppEntry(p: Pages, c: DirRef, t: nat)
    requires Inv(p) && InUse(p, c) && t < MAX_TABLES && Dir(p, c)[APP_SLOT].present
    requires Dir(p, c)[APP_SLOT].table == Private(t)
    ensures Dir(p, c)[APP_SLOT] == Pde(Private(t), true, true, true)
  {
    hide FrameInv, EntryInv, LowInv, TableInv, PoolMapped;
    if c.Pool? { assert DirInv(p, c.d); }
  }

  /** Two user addresses of different directories are the same page exactly when they are the same
      page of the app slot and both directories show the same there. */
  lemma SamePage(p: Pages, c: DirRef, v: nat, c': DirRef, w: nat)
    requires Inv(p) && InUse(p, c) && InUse(p, c') && c != c' && Slot(v) < PAGE_ENTRIES && Slot(w) < PAGE_ENTRIES
    requires var a, a' := Translate(p, c, v), Translate(p, c', w); a.Some? && a.value.user && a'.Some? && a'.value.user
    ensures Translate(p, c, v).value.frame == Translate(p, c', w).value.frame <==>
      Slot(v) == Slot(w) == APP_SLOT && Index(v) == Index(w) && SeesSame(p, c, c', Index(v))
  {
    hide BootInv, FrameInv, DirInv, TableInv, EntryInv, LowInv, Translate, Dir;
    UserSees(p, c, v);
    UserSees(p, c', w);
    if Slot(v) == Slot(w) == APP_SLOT && Index(v) == Index(w) && SeesSame(p, c, c', Index(v)) {
      SameShown(p, c, c', v);
      SameIndex(p, c', v, w);
    } else if Translate(p, c, v).value.frame == Translate(p, c', w).value.frame && !LowSeen(p, c, v) {
      var t: nat, f: nat :| PoolSeen(p, c, v, t, f);
      var t': nat, f': nat :| PoolSeen(p, c', w, t', f');
      FrameShared(p, c, v, c', w, t, t', f);
    }
  }

  lemma SameIndex(p: Pages, c: DirRef, v: nat, w: nat)
    requires Wf(p) && ValidDir(c) && Slot(v) == Slot(w) < PAGE_ENTRIES && Index(v) == Index(w)
    ensures Translate(p, c, v) == Translate(p, c, w)
  {}

  lemma PokePage(p: Pages, frame: nat, i: nat, b: byte, g: nat)
    requires Wf(p) && Modelled(frame) && Modelled(g) && i < PAGE_SIZE && frame % PAGE_SIZE == 0 && g % PAGE_SIZE == 0
    ensures Page(Poke(p, frame, i, b), g) == if g == frame then SetByte(Page(p, frame), i, b) else Page(p, g)
  {}

  /** User pages are whole pages of modelled memory. */
  lemma UserPage(p: Pages, c: DirRef, w: nat)
    requires Inv(p) && Wf(p) && InUse(p, c) && ValidDir(c) && Slot(w) < PAGE_ENTRIES
    requires var a := Translate(p, c, w); a.Some? && a.value.user
    ensures var frame := Translate(p, c, w).value.frame; Modelled(frame) && frame % PAGE_SIZE == 0
  {
    hide Inv, Translate;
    UserSees(p, c, w);
    if !LowSeen(p, c, w) {
      var t: nat, f: nat :| PoolSeen(p, c, w, t, f);
    }
  }

  /** The running task's user code can write at `v`. */
  ghost predicate Writes(k: Kernel, v: nat)
    requires KWf(k) && Slot(v) < PAGE_ENTRIES
  {
    && k.tasks[k.current].ring3 && ValidDir(k.tasks[k.current].cr3)
    && var a := Translate(k.pages, k.tasks[k.current].cr3, v); a.Some? && a.value.user && a.value.rw
  }

  lemma TaskInUse(k: Kernel, m: nat)
    requires KInv(k) && m < MAX_TASKS && Live(k, m)
    ensures InUse(k.pages, k.tasks[m].cr3)
  {
    hide Inv, ParentsInv, HeldInv, SchedInv, Distinct, LoadInv, ReapInv;
    if m != 0 { assert SlotInv(k, m); }
  }

  lemma OwnDirs(k: Kernel, m: nat)
    requires KInv(k) && m < MAX_TASKS && Live(k, m) && m != k.current && Live(k, k.current)
    ensures k.tasks[m].cr3 != k.tasks[k.current].cr3
  {
    hide Inv, ParentsInv, HeldInv, LoadInv, ReapInv;
    if m != 0 { assert SlotInv(k, m); }
    if k.current != 0 { assert SlotInv(k, k.current); }
  }

  /** A store by the running task's user code changes what another live task reads at `w` exactly when
      it writes another value at that very address, the address lies in the app slot, and the two tasks
      see the same page there: one app table shared, or a page of low memory open to user code that
      neither has mapped over. */
  lemma StoreReaches(k: Kernel, v: nat, b: byte, m: nat, w: nat)
    requires Reachable(k) && KWf(k) && Slot(v) < PAGE_ENTRIES && Slot(w) < PAGE_ENTRIES
    requires m < MAX_TASKS && k.tasks[m].state != Unused && m != k.current
    ensures ValidDir(k.tasks[m].cr3) && ValidDir(k.tasks[k.current].cr3)
    ensures
      var c, was := k.tasks[m].cr3, ReadUser(k.pages, k.tasks[m].cr3, w);
      ReadUser(Store(k, v, b).pages, c, w) != was <==>
        && v == w && Slot(v) == APP_SLOT && Writes(k, v) && was != Some(b)
        && SeesSame(k.pages, k.tasks[k.current].cr3, c, Index(v))
  {
    hide Inv, SlotsInv, ParentsInv, HeldInv, BootTaskInv, Distinct, LoadInv, ReapInv;
    hide Reachable, ReadUser, Writes, SeesSame, Store, InUse, Translate;
    ReachableInv(k);
    TaskInUse(k, m);
    TaskInUse(k, k.current);
    OwnDirs(k, m);
    assert ValidDir(k.tasks[m].cr3) && ValidDir(k.tasks[k.current].cr3) by { TaskDir(k, m); TaskDir(k, k.current); }
    if Writes(k, v) {
      StoreWrites(k, v, b, m, w);
    } else {
      assert Store(k, v, b) == k by { NoStore(k, v, b); }
    }
  }

  lemma NoStore(k: Kernel, v: nat, b: byte)
    requires KWf(k) && Slot(v) < PAGE_ENTRIES && !Writes(k, v)
    ensures Store(k, v, b) == k
  {}

  lemma StoreWrites(k: Kernel, v: nat, b: byte, m: nat, w: nat)
    requires KWf(k) && Inv(k.pages) && Slot(v) < PAGE_ENTRIES && Slot(w) < PAGE_ENTRIES && m < MAX_TASKS && Writes(k, v)
    requires InUse(k.pages, k.tasks[m].cr3) && InUse(k.pages, k.tasks[k.current].cr3)
    requires ValidDir(k.tasks[m].cr3) && ValidDir(k.tasks[k.current].cr3)
    requires k.tasks[m].cr3 != k.tasks[k.current].cr3
    ensures
      var c, was := k.tasks[m].cr3, ReadUser(k.pages, k.tasks[m].cr3, w);
      ReadUser(Store(k, v, b).pages, c, w) != was <==>
        v == w && Slot(v) == APP_SLOT && was != Some(b) && SeesSame(k.pages, k.tasks[k.current].cr3, c, Index(v))
  {
    hide Inv, SeesSame, InUse, Translate, Poke, Page;
    var p, c, c' := k.pages, k.tasks[k.current].cr3, k.tasks[m].cr3;
    var r, a, a' := Store(k, v, b), Translate(p, c, v), Translate(p, c', w);
    UserPage(p, c, v);
    assert r.pages == Poke(p, a.value.frame, v % PAGE_SIZE, b);
    StoreKeepsTables(k, v, b);
    SameTables(p, r.pages, c', w);
    if a'.Some? && a'.value.user {
      UserPage(p, c', w);
      SamePage(p, c, v, c', w);
      PokePage(p, a.value.frame, v % PAGE_SIZE, b, a'.value.frame);
      SameAddress(v, w);
    } else if Slot(v) == APP_SLOT && v == w && SeesSame(p, c, c', Index(v)) {
      SameShown(p, c, c', v);
    }
  }

  lemma SameAddress(v: nat, w: nat)
    ensures v == w && Slot(v) == APP_SLOT <==>
      Slot(v) == Slot(w) == APP_SLOT && Index(v) == Index(w) && v % PAGE_SIZE == w % PAGE_SIZE
  {}

  lemma SameTables(p: Pages, q: Pages, d: DirRef, w: nat)
    requires Wf(p) && Wf(q) && q == p.(ram := q.ram, low := q.low) && ValidDir(d) && Slot(w) < PAGE_ENTRIES
    ensures Translate(q, d, w) == Translate(p, d, w)
  {}

  /** A page of low memory opened to user code, such as the one that holds the system-call trampolines
      (section .usertramp, below APP_LOAD_ADDR), is never mapped over, so what one ring-3 task stores
      there every other task reads, even one with an app table of its own. */
  lemma TrampolineShared(k: Kernel, v: nat, b: byte, m: nat)
    requires Reachable(k) && KWf(k) && v < APP_LOAD_ADDR && k.tasks[k.current].ring3
    requires var e := k.pages.boot[0][v / PAGE_SIZE]; e.present && e.rw && e.user
    requires m < MAX_TASKS && k.tasks[m].state != Unused && m != k.current
    ensures ValidDir(k.tasks[m].cr3) && ReadUser(Store(k, v, b).pages, k.tasks[m].cr3, v) == Some(b)
  {
    hide Inv, SlotsInv, ParentsInv, HeldInv, BootTaskInv, Distinct, LoadInv, ReapInv, Reachable, ReadUser, Store, InUse;
    ReachableInv(k);
    TaskInUse(k, m);
    TaskInUse(k, k.current);
    assert ValidDir(k.tasks[m].cr3) && ValidDir(k.tasks[k.current].cr3) by { TaskDir(k, m); TaskDir(k, k.current); }
    assert Slot(v) == APP_SLOT && Index(v) == v / PAGE_SIZE < 512;
    LowShown(k.pages, k.tasks[k.current].cr3, v);
    LowShown(k.pages, k.tasks[m].cr3, v);
    StoreReaches(k, v, b, m, v);
    LowStored(k, v, b, m);
  }

  /** Below the app's pages every directory shows the boot entry. */
  lemma LowShown(p: Pages, c: DirRef, v: nat)
    requires Inv(p) && InUse(p, c) && Slot(v) == APP_SLOT && !AppIndex(Index(v))
    ensures Unaltered(p, c, Index(v))
    ensures
      var e := p.boot[0][Index(v)];
      Translate(p, c, v) == if e.present then Some(Access(e.frame, e.rw, e.user)) else None
  {
    hide FrameInv, EntryInv, PoolMapped;
    AppOpen(p, c);
    if c.Pool? {
      assert DirInv(p, c.d);
      if AppTable(p, c.d) {
        var t := p.dirs[c.d][APP_SLOT].table.t;
        assert LowInv(p, t) && IsAppTable(p, t);
      }
    }
  }

  lemma LowStored(k: Kernel, v: nat, b: byte, m: nat)
    requires KWf(k) && Inv(k.pages) && Slot(v) == APP_SLOT && m < MAX_TASKS && Writes(k, v)
    requires InUse(k.pages, k.tasks[m].cr3) && InUse(k.pages, k.tasks[k.current].cr3)
    requires ValidDir(k.tasks[m].cr3) && ValidDir(k.tasks[k.current].cr3)
    requires Translate(k.pages, k.tasks[m].cr3, v) == Translate(k.pages, k.tasks[k.current].cr3, v)
    ensures ReadUser(Store(k, v, b).pages, k.tasks[m].cr3, v) == Some(b)
  {
    hide Inv, InUse, Translate, Poke, Page;
    var p, c, c' := k.pages, k.tasks[k.current].cr3, k.tasks[m].cr3;
    UserPage(p, c, v);
    var frame := Translate(p, c, v).value.frame;
    assert Store(k, v, b).pages == Poke(p, frame, v % PAGE_SIZE, b);
    StoreKeepsTables(k, v, b);
    SameTables(p, Store(k, v, b).pages, c', v);
    PokePage(p, frame, v % PAGE_SIZE, b, frame);
  }

  /** No step but a store changes a byte that a live task reads, with one exception: starting to load
      a program fills the staging buffer, which a task that has no page of its own there can read. */
  lemma BytesNeverChange(k: Kernel, s: Step, m: nat, w: nat)
    requires Reachable(k) && KWf(k) && Enabled(k, s) && !s.StoreStep? && m < MAX_TASKS && Slot(w) < PAGE_ENTRIES
    requires k.tasks[m].state != Unused && Next(k, s).tasks[m].state != Unused
    ensures ValidDir(k.tasks[m].cr3)
    ensures
      var c, r := k.tasks[m].cr3, Next(k, s);
      && (!s.ExecStartStep? ==> ReadUser(r.pages, c, w) == ReadUser(k.pages, c, w))
      && (s.ExecStartStep? ==> ReadUser(r.pages, c, w) == ReadStaged(k.pages, c, w, s.blob))
  {
    hide Inv, SlotsInv, ParentsInv, HeldInv, BootTaskInv, Distinct, LoadInv, ReapInv;
    hide Reachable, ReadUser, ReadStaged, Next, Enabled, InUse, Keeps;
    ReachableInv(k);
    TaskInUse(k, m);
    TaskDir(k, m);
    MappingsKept(k, s, m, w);
    var d := ViewKept(k, s, m, Slot(w));
    BytesKept(k, Before(k, s), Next(k, s).pages, k.tasks[m].cr3, d, w);
    if s.ExecStartStep? {
      assert Next(k, s).pages.low == Stage(k.pages.low, s.blob) by { StartStages(k, s); }
      StagedReads(k.pages, Next(k, s).pages.low, k.tasks[m].cr3, w, s.blob);
    } else {
      assert Before(k, s) == k.pages;
    }
  }

  lemma StartStages(k: Kernel, s: Step)
    requires KInv(k) && Enabled(k, s) && s.ExecStartStep?
    ensures Next(k, s).pages.low == Stage(k.pages.low, s.blob)
  {
    hide Inv, SlotsInv, ParentsInv, HeldInv, BootTaskInv, Distinct, LoadInv, ReapInv, Stage, CloneDir;
    var d := StartWorksOn(k, s.blob, s.args);
  }

  /** What a user address reads once a program is staged. */
  ghost function ReadStaged(p: Pages, c: DirRef, w: nat, blob: seq<byte>): Option<byte>
    requires Wf(p) && ValidDir(c) && Slot(w) < PAGE_ENTRIES
  {
    var was, a := ReadUser(p, c, w), Translate(p, c, w);
    if was.None? || InPool(a.value.frame) then was
    else
      var at := a.value.frame + w % PAGE_SIZE - APP_LOAD_ADDR;
      if 0 <= at < |blob| then Some(blob[at]) else was
  }

  lemma StagedReads(p: Pages, low: seq<seq<byte>>, c: DirRef, w: nat, blob: seq<byte>)
    requires Inv(p) && Wf(p) && InUse(p, c) && ValidDir(c) && Slot(w) < PAGE_ENTRIES && low == Stage(p.low, blob)
    ensures ReadUser(p.(low := low), c, w) == ReadStaged(p, c, w, blob)
  {
    hide Inv, InUse, Translate;
    SameTables(p, p.(low := low), c, w);
    var a := Translate(p, c, w);
    if a.Some? && a.value.user && !InPool(a.value.frame) {
      UserPage(p, c, w);
      var n := a.value.frame / PAGE_SIZE;
      assert low[n] == StagedPage(p.low[n], blob, n);
    }
  }

  /** Bytes seen through tables that are kept are kept. */
  lemma BytesKept(k: Kernel, p: Pages, q: Pages, c: DirRef, d: nat, w: nat)
    requires Wf(k.pages) && Inv(k.pages) && InUse(k.pages, c) && p == k.pages.(low := p.low) && Slot(w) < PAGE_ENTRIES
    requires Keeps(p, q, d) && Dir(q, c)[Slot(w)] == Dir(p, c)[Slot(w)] && TableKept(p, q, Dir(p, c)[Slot(w)], d)
    ensures ReadUser(q, c, w) == ReadUser(p, c, w)
  {
    hide BootInv, FrameInv, DirInv, TableInv, EntryInv, LowInv;
    var a := Translate(p, c, w);
    assert a == Translate(k.pages, c, w) == Translate(q, c, w);
    if a.Some? && a.value.user {
      UserSees(k.pages, c, w);
      if !LowSeen(k.pages, c, w) {
        var t: nat, f: nat :| PoolSeen(k.pages, c, w, t, f);
        assert Ref(p, t, Index(w), f);
      }
    }
  }
}
