/** The loader's steps keep the invariant, never fail for lack of memory, and fill the new
    directory with the program and its arguments. */
module ExecSteps {
  import opened Common
  import opened Paging
  import opened PagingInv
  import opened PagingSteps
  import opened Tasks
  import opened TasksInv
  import opened TasksSteps
  import Argv

  /** Work on a directory no task runs on keeps all but the loader's own part of the invariant. */
  lemma RestKept(k: Kernel, r: Kernel, d: nat)
    requires KInv(k) && KWf(r) && r == k.(pages := r.pages, exec := r.exec)
    requires Keeps(k.pages, r.pages, d) && Nobodys(k, d) && (d < MAX_DIRS && r.pages.dirUsed[d] ==> Held(r, d))
    requires k.exec.Loading? && k.exec.dir != d ==> r.exec == k.exec
    ensures SchedInv(r) && BootTaskInv(r) && Distinct(r) && SlotsInv(r) && ParentsInv(r) && HeldInv(r)
  {
    forall i | 0 < i < MAX_TASKS ensures SlotInv(r, i) {
      assert SlotInv(k, i);
      SlotKept(k, r, d, i);
    }
    forall i | 0 < i < MAX_TASKS && Live(r, i) ensures ParentInv(r, i) { ParentKept(k, r, d, i); }
    forall c | 0 <= c < MAX_DIRS && r.pages.dirUsed[c] ensures Held(r, c) {
      if c != d {
        assert Held(k, c);
        if !(k.exec.Loading? && k.exec.dir == c) {
          var i: nat :| Live(k, i) && k.tasks[i].cr3 == Pool(c);
          assert Live(r, i);
        }
      }
    }
  }

  /** What memory holds is no concern of the paging invariant. */
  lemma MemoryKeeps(q: Pages, r: Pages)
    requires Inv(q) && Wf(r) && r == q.(ram := r.ram, low := r.low)
    ensures Inv(r)
  {
    hide PoolMapped;
    forall t: nat, i: nat, g: nat ensures Ref(r, t, i, g) == Ref(q, t, i, g) {}
    forall t | 0 <= t < MAX_TABLES
      ensures TableInv(r, t) && (q.owner[t] != NoDir ==> EntryInv(r, t) && LowInv(r, t))
    {
      assert TableInv(q, t) && (q.owner[t] != NoDir ==> EntryInv(q, t) && LowInv(q, t));
      if q.owner[t].Pool? {
        var s: nat :| Tracked(s) && Points(q, q.owner[t].d, s, t);
        assert Points(r, q.owner[t].d, s, t);
      }
    }
    forall c | 0 <= c < MAX_DIRS && r.dirUsed[c] ensures DirInv(r, c) { assert DirInv(q, c); }
  }

  /** Nor of the rest of the kernel's invariant, but for the pages being loaded. */
  lemma MemoryOnlyKeeps(k: Kernel, r: Kernel)
    requires KInv(k) && KWf(r) && r == k.(pages := k.pages.(ram := r.pages.ram, low := r.pages.low))
    ensures SchedInv(r) && BootTaskInv(r) && Distinct(r) && SlotsInv(r) && ParentsInv(r) && HeldInv(r)
    ensures k.exec.Reaping? ==> ReapInv(r)
  {
    hide BootInv, FrameInv, DirInv, TableInv, EntryInv, LowInv, LoadedPages;
    forall i | 0 < i < MAX_TASKS ensures SlotInv(r, i) { assert SlotInv(k, i); }
    forall i: nat, j: nat ensures Parent(r, i, j) == Parent(k, i, j) {}
    forall i | 0 < i < MAX_TASKS && Live(r, i) ensures ParentInv(r, i) { assert ParentInv(k, i); }
    forall d | 0 <= d < MAX_DIRS && r.pages.dirUsed[d] ensures Held(r, d) { assert Held(k, d); }
  }

  /** Low memory holds nothing of the programs already copied. */
  lemma LowKeeps(k: Kernel, r: Kernel)
    requires KInv(k) && KWf(r) && r == k.(pages := k.pages.(low := r.pages.low))
    ensures KInv(r)
  {
    hide BootInv, FrameInv, DirInv, TableInv, EntryInv, LowInv;
    MemoryKeeps(k.pages, r.pages);
    MemoryOnlyKeeps(k, r);
    if k.exec.Loading? && k.exec.code > 0 {
      LoadedLow(k, r, k.pages.dirs[k.exec.dir][APP_SLOT].table.t);
    }
  }

  lemma LoadedLow(k: Kernel, r: Kernel, t: nat)
    requires KWf(k) && k.exec.Loading? && LoadInv(k) && k.exec.code > 0 && t < MAX_TABLES
    requires k.pages.dirs[k.exec.dir][APP_SLOT].table == Private(t)
    requires KWf(r) && r == k.(pages := k.pages.(low := r.pages.low))
    ensures LoadedPages(r, t)
  {
    var x, p, q := k.exec, k.pages, r.pages;
    forall i: nat, b ensures PageHolds(p, t, i, b) ==> PageHolds(q, t, i, b) {}
    forall i | 512 <= i < 512 + x.code ensures CodeHolds(q, t, i, x.copied) { assert CodeHolds(p, t, i, x.copied); }
  }

  /** The loader always gets a directory. */
  lemma ExecStartKeeps(k: Kernel, blob: seq<byte>, args: Argv.Args)
    requires KInv(k) && Enabled(k, ExecStartStep(blob, args))
    ensures KInv(ExecStart(k, blob, args)) && ExecStart(k, blob, args).exec.Loading?
  {
    hide BootInv, FrameInv, DirInv, TableInv, EntryInv, LowInv, Stage, Held, ReapInv, ParentsInv, SlotInv;
    var k' := k.(pages := k.pages.(low := Stage(k.pages.low, blob)));
    LowKeeps(k, k');
    DirsAvailable(k', 0);
    CloneBuilds(k'.pages);
    var d := CloneDir(k'.pages).1.value;
    var r := ExecStart(k, blob, args);
    UnusedIsNobodys(k', d);
    RestKept(k', r, d);
  }

  /** Overwriting a frame that only `d` may refer to. */
  lemma WriteBuilds(p: Pages, q: Pages, d: nat, f: nat, bytes: seq<byte>)
    requires Inv(p) && Builds(p, q, d) && f < POOL_FRAMES && |bytes| == PAGE_SIZE
    requires forall t: nat, i: nat | Ref(p, t, i, f) :: p.owner[t] == Pool(d)
    ensures Builds(p, q.(ram := q.ram[f := bytes]), d)
  {
    hide BootInv, FrameInv, DirInv, TableInv, EntryInv, LowInv;
    MemoryKeeps(q, q.(ram := q.ram[f := bytes]));
  }

  /** Mapping one more app page leaves the pages already there as they were. */
  lemma PageStays(p: Pages, q: Pages, d: nat, i: nat, t: nat, f: nat, j: nat, bytes: seq<byte>, fill: seq<byte>)
    requires Inv(p) && Wf(q) && Mapped(p, q, d, APP_SLOT, i, t, f) && OwnTable(p, d, APP_SLOT)
    requires j != i && PageHolds(p, t, j, bytes) && |fill| == PAGE_SIZE
    ensures PageHolds(q.(ram := q.ram[f := fill]), t, j, bytes)
  {
    var g: nat :| g < POOL_FRAMES && p.tables[t][j] == Pte(FrameAddr(g), true, true, true) && p.ram[g] == bytes;
    assert Ref(p, t, j, g);
  }

  lemma AppAddress(n: nat)
    requires n < 20
    ensures Slot(APP_LOAD_ADDR + n * PAGE_SIZE) == APP_SLOT && Index(APP_LOAD_ADDR + n * PAGE_SIZE) == 512 + n
  {}

  /** The state after page `n` of the app region is mapped and filled. */
  lemma AppPage(k: Kernel, n: nat, fill: seq<byte>) returns (t: nat, f: nat, q: Pages)
    requires KInv(k) && k.exec.Loading? && n < 20 && |fill| == PAGE_SIZE
    requires
      var x := k.exec;
      if n < 16 then x.code == n && x.stack == 0 else x.code == CodePages(x.size) && x.stack == n - 16
    ensures
      var (p, g) := MapPrivate(k.pages, Pool(k.exec.dir), APP_LOAD_ADDR + n * PAGE_SIZE);
      && Wf(p) && g == Some(f) && f < POOL_FRAMES && q == p.(ram := p.ram[f := fill])
      && Mapped(k.pages, p, k.exec.dir, APP_SLOT, 512 + n, t, f)
    ensures Builds(k.pages, q, k.exec.dir)
  {
    var d, v := k.exec.dir, APP_LOAD_ADDR + n * PAGE_SIZE;
    AppAddress(n);
    assert DirInv(k.pages, d);
    assert Mappable(k.pages, d, v);
    t := MapKeeps(k.pages, d, v);
    MapBuilds(k.pages, d, v);
    var (p, g) := MapPrivate(k.pages, Pool(d), v);
    f := g.value;
    q := p.(ram := p.ram[f := fill]);
    WriteBuilds(k.pages, p, d, f, fill);
  }

  lemma ChunkPrefix(a: seq<byte>, b: seq<byte>, page: nat)
    requires (page + 1) * PAGE_SIZE <= |a|
    ensures Chunk(a + b, page) == Chunk(a, page)
  {}

  lemma ChunkLast(a: seq<byte>, b: seq<byte>, page: nat)
    requires |a| == page * PAGE_SIZE
    ensures Chunk(a + b, page) == Chunk(b, 0)
  {}

  /** The loader's next state once a page is mapped at entry `i` and filled. */
  ghost predicate Grows(x: Exec, y: Exec, i: nat, f: nat, fill: seq<byte>)
    requires x.Loading? && y.Loading?
  {
    || (&& y == x.(code := x.code + 1, copied := y.copied) && x.stack == 0 && x.code < CodePages(x.size)
        && i == 512 + x.code && |y.copied| == Copied(x.size, x.code + 1) && x.copied <= y.copied
        && fill == Chunk(y.copied[|x.copied|..], 0))
    || (&& y == x.(stack := x.stack + 1, frame0 := if x.stack == 0 then f else x.frame0)
        && x.code == CodePages(x.size) && x.stack < 4 && i == 528 + x.stack && fill == ZeroFrame())
  }

  /** The loaded pages after one more, at entry `i`, has been mapped and filled. */
  lemma LoadedGrows(k: Kernel, r: Kernel, p: Pages, i: nat, t: nat, f: nat, fill: seq<byte>)
    requires KInv(k) && KWf(r) && k.exec.Loading? && r.exec.Loading? && Wf(p) && |fill| == PAGE_SIZE
    requires Mapped(k.pages, p, k.exec.dir, APP_SLOT, i, t, f) && r.pages == p.(ram := p.ram[f := fill])
    requires Grows(k.exec, r.exec, i, f, fill)
    ensures LoadedPages(r, t)
  {
    hide EntryInv, FrameInv, LowInv, TableInv, PoolMapped;
    var x, y, o, q := k.exec, r.exec, k.pages, r.pages;
    forall j | 512 <= j < 512 + y.code ensures CodeHolds(q, t, j, y.copied) { CodeGrows(k, r, p, i, t, f, fill, j); }
    forall j | 528 < j < 528 + y.stack ensures PageHolds(q, t, j, ZeroFrame()) {
      if j == i {
        assert q.tables[t][j] == Pte(FrameAddr(f), true, true, true);
      } else {
        PageStays(o, p, k.exec.dir, i, t, f, j, ZeroFrame(), fill);
      }
    }
    if x.stack > 0 {
      assert Ref(o, t, 528, x.frame0);
    }
    if x.code == 0 {
      assert Base(o, k.exec.dir, APP_SLOT) == o.boot[0];
    }
  }

  lemma CodeGrows(k: Kernel, r: Kernel, p: Pages, i: nat, t: nat, f: nat, fill: seq<byte>, j: nat)
    requires KInv(k) && KWf(r) && k.exec.Loading? && r.exec.Loading? && Wf(p) && |fill| == PAGE_SIZE
    requires Mapped(k.pages, p, k.exec.dir, APP_SLOT, i, t, f) && r.pages == p.(ram := p.ram[f := fill])
    requires Grows(k.exec, r.exec, i, f, fill) && 512 <= j < 512 + r.exec.code
    ensures (j - 512) * PAGE_SIZE <= |r.exec.copied| && CodeHolds(r.pages, t, j, r.exec.copied)
  {
    var x, y, o, q := k.exec, r.exec, k.pages, r.pages;
    var rest := y.copied[|x.copied|..];
    assert y.copied == x.copied + rest;
    if j == i {
      assert q.tables[t][j] == Pte(FrameAddr(f), true, true, true);
      ChunkLast(x.copied, rest, j - 512);
    } else {
      assert CodeHolds(o, t, j, x.copied);
      PageStays(o, p, k.exec.dir, i, t, f, j, Chunk(x.copied, j - 512), fill);
      if y.code > x.code { ChunkPrefix(x.copied, rest, j - 512); }
    }
  }

  /** With its pages in place the loader's new state is complete. */
  lemma GrownKeeps(k: Kernel, r: Kernel, p: Pages, i: nat, t: nat, f: nat, fill: seq<byte>)
    requires KInv(k) && KWf(r) && k.exec.Loading? && r.exec.Loading? && r == k.(pages := r.pages, exec := r.exec)
    requires Wf(p) && |fill| == PAGE_SIZE && f < POOL_FRAMES
    requires Builds(k.pages, r.pages, k.exec.dir)
    requires Mapped(k.pages, p, k.exec.dir, APP_SLOT, i, t, f) && r.pages == p.(ram := p.ram[f := fill])
    requires Grows(k.exec, r.exec, i, f, fill)
    ensures KInv(r)
  {
    RestKept(k, r, k.exec.dir);
    LoadedGrows(k, r, p, i, t, f, fill);
  }

  lemma ExecCodeMaps(k: Kernel) returns (t: nat, f: nat)
    requires KInv(k) && Enabled(k, ExecCodeStep)
    ensures
      var n, d, r := k.exec.code, k.exec.dir, ExecCodePage(k);
      var p := MapPrivate(k.pages, Pool(d), APP_LOAD_ADDR + n * PAGE_SIZE).0;
      var bytes := Share(k.pages.low, k.exec.size, n);
      && Wf(p) && f < POOL_FRAMES && Mapped(k.pages, p, d, APP_SLOT, 512 + n, t, f)
      && r == k.(pages := p.(ram := p.ram[f := Chunk(bytes, 0)]),
                 exec := k.exec.(code := n + 1, copied := k.exec.copied + bytes))
      && Builds(k.pages, r.pages, d) && k.exec.stack == 0
  {
    hide Inv, MapPrivate, Keeps, LoadedPages, Chunk, Share;
    var q;
    t, f, q := AppPage(k, k.exec.code, Chunk(Share(k.pages.low, k.exec.size, k.exec.code), 0));
  }

  /** Copying a page of the program never runs out of memory. */
  lemma ExecCodeKeeps(k: Kernel)
    requires KInv(k) && Enabled(k, ExecCodeStep)
    ensures KInv(ExecCodePage(k)) && ExecCodePage(k).exec.Loading?
  {
    hide Inv, Mapped, MapPrivate, Keeps, LoadedPages;
    var n := k.exec.code;
    var t, f := ExecCodeMaps(k);
    var bytes := Share(k.pages.low, k.exec.size, n);
    assert (k.exec.copied + bytes)[|k.exec.copied|..] == bytes;
    GrownKeeps(k, ExecCodePage(k), MapPrivate(k.pages, Pool(k.exec.dir), APP_LOAD_ADDR + n * PAGE_SIZE).0,
               512 + n, t, f, Chunk(bytes, 0));
  }

  lemma ExecStackMaps(k: Kernel) returns (t: nat, f: nat)
    requires KInv(k) && Enabled(k, ExecStackStep)
    ensures
      var n, d, r := k.exec.stack, k.exec.dir, ExecStackPage(k);
      var p := MapPrivate(k.pages, Pool(d), APP_STACK_VADDR + n * PAGE_SIZE).0;
      && Wf(p) && f < POOL_FRAMES && Mapped(k.pages, p, d, APP_SLOT, 528 + n, t, f)
      && r == k.(pages := p.(ram := p.ram[f := ZeroFrame()]),
                 exec := k.exec.(stack := n + 1, frame0 := if n == 0 then f else k.exec.frame0))
      && Builds(k.pages, r.pages, d)
  {
    hide BootInv, FrameInv, DirInv, TableInv, EntryInv, LowInv, Keeps, LoadedPages, SlotsInv, ParentsInv, HeldInv,
         MapPrivate;
    var q;
    t, f, q := AppPage(k, 16 + k.exec.stack, ZeroFrame());
    var p := MapPrivate(k.pages, Pool(k.exec.dir), APP_STACK_VADDR + k.exec.stack * PAGE_SIZE).0;
    assert p.ram[f := ZeroFrame()] == p.ram;
  }

  /** Mapping a stack page never runs out of memory. */
  lemma ExecStackKeeps(k: Kernel)
    requires KInv(k) && Enabled(k, ExecStackStep)
    ensures KInv(ExecStackPage(k)) && ExecStackPage(k).exec.Loading?
  {
    hide Inv, Mapped, MapPrivate, Keeps, LoadedPages;
    var n := k.exec.stack;
    var t, f := ExecStackMaps(k);
    GrownKeeps(k, ExecStackPage(k), MapPrivate(k.pages, Pool(k.exec.dir), APP_STACK_VADDR + n * PAGE_SIZE).0,
               528 + n, t, f, ZeroFrame());
  }

  /** The loader's pages after a frame that holds none of them, or its bottom stack page, is
      written. */
  lemma LoadedAfterWrite(k: Kernel, r: Kernel, t: nat, f: nat, bytes: seq<byte>)
    requires KInv(k) && KWf(r) && k.exec.Loading? && k.exec.code > 0 && t < MAX_TABLES
    requires k.pages.dirs[k.exec.dir][APP_SLOT].table == Private(t)
    requires f < POOL_FRAMES && |bytes| == PAGE_SIZE
    requires r.pages == k.pages.(ram := k.pages.ram[f := bytes])
    requires
      || (r.exec == k.exec && forall i: nat :: !Ref(k.pages, t, i, f))
      || (r.exec == k.exec.(placed := true) && k.exec.stack > 0 && f == k.exec.frame0 && bytes == StackPage(r.exec))
    ensures LoadedPages(r, t)
  {
    var x, p, q := k.exec, k.pages, r.pages;
    forall i: nat, b | PageHolds(p, t, i, b) && (r.exec == k.exec || i != 528) ensures PageHolds(q, t, i, b) {
      var g: nat :| g < POOL_FRAMES && p.tables[t][i] == Pte(FrameAddr(g), true, true, true) && p.ram[g] == b;
      assert Ref(p, t, i, g);
      if x.stack > 0 { assert Ref(p, t, 528, x.frame0); }
    }
    forall i | 512 <= i < 512 + x.code ensures CodeHolds(q, t, i, x.copied) {
      assert CodeHolds(p, t, i, x.copied);
    }
    if x.stack > 0 { assert Ref(p, t, 528, x.frame0); }
  }

  /** Placing the arguments in the bottom stack page. */
  lemma ExecArgsKeeps(k: Kernel)
    requires KInv(k) && Enabled(k, ExecArgsStep)
    ensures KInv(ExecArgs(k))
  {
    hide BootInv, DirInv, TableInv, EntryInv, LowInv, LoadedPages;
    var r, x, d := ExecArgs(k), k.exec, k.exec.dir;
    var f, t := x.frame0, k.pages.dirs[d][APP_SLOT].table.t;
    BottomPage(k);
    LoadedAfterWrite(k, r, t, f, r.pages.ram[f]);
    BuildsRefl(k.pages, d);
    WriteBuilds(k.pages, k.pages, d, f, r.pages.ram[f]);
    RestKept(k, r, d);
  }

  /** The bottom stack page is the loader's own and still blank. */
  lemma BottomPage(k: Kernel)
    requires KInv(k) && Enabled(k, ExecArgsStep)
    ensures k.exec.code > 0 && k.pages.ram[k.exec.frame0] == ZeroFrame()
    ensures forall t: nat, i: nat | Ref(k.pages, t, i, k.exec.frame0) :: k.pages.owner[t] == Pool(k.exec.dir)
  {
    assert k.exec.code > 0;
    assert Ref(k.pages, k.pages.dirs[k.exec.dir][APP_SLOT].table.t, 528, k.exec.frame0);
  }

  // ---- handing the directory over, or giving it back ----

  /** Nobody shares the directory the loader is filling. */
  lemma LoaderUnshared(k: Kernel)
    requires KInv(k) && k.exec.Loading?
    ensures NoSharers(k.pages, k.exec.dir)
  {
    hide BootInv, FrameInv, DirInv, TableInv, EntryInv, LowInv, LoadedPages;
    var d := k.exec.dir;
    forall c | 0 <= c < MAX_DIRS && k.pages.dirUsed[c] && c != d && k.pages.dirs[c][APP_SLOT].table.Private?
      ensures k.pages.owner[k.pages.dirs[c][APP_SLOT].table.t] != Pool(d)
    {
      assert Held(k, c);
      var m: nat :| Live(k, m) && k.tasks[m].cr3 == Pool(c);
      assert SlotInv(k, m);
      AppSlotOf(k, m);
      var a := AppOwner(k, m);
      assert SlotInv(k, a);
    }
  }

  lemma AppSlotOf(k: Kernel, m: nat)
    requires KInv(k) && 0 < m < MAX_TASKS && Live(k, m)
    requires k.pages.dirs[DirOf(k, m)][APP_SLOT].table.Private?
    ensures k.pages.dirs[DirOf(k, m)][APP_SLOT] != k.pages.kdir[APP_SLOT]
  {}

  lemma FreeAllKeepsOthers(p: Pages, d: nat)
    requires Inv(p) && d < MAX_DIRS && p.dirUsed[d] && NoSharers(p, d)
    ensures Inv(FreeAll(p, d)) && Keeps(p, FreeAll(p, d), d) && !FreeAll(p, d).dirUsed[d]
  {
    hide BootInv, FrameInv, DirInv, TableInv, EntryInv, LowInv, FreeAll;
    FreeKeeps(p, d);
  }

  lemma ExecAbortKeeps(k: Kernel)
    requires KInv(k) && k.exec.Loading?
    ensures KInv(ExecAbort(k, k.pages))
  {
    hide BootInv, FrameInv, DirInv, TableInv, EntryInv, LowInv, LoadedPages, FreeAll, Keeps;
    LoaderUnshared(k);
    FreeAllKeepsOthers(k.pages, k.exec.dir);
    RestKept(k, ExecAbort(k, k.pages), k.exec.dir);
  }

  /** The app's task is created exactly when a task slot is free; otherwise everything the
      loader took is given back. */
  lemma ExecCreateKeeps(k: Kernel)
    requires KInv(k) && Enabled(k, ExecCreateStep)
    ensures KInv(ExecCreate(k))
    ensures
      if FreeTask(k.tasks).Some? then ExecCreate(k).exec == Waiting(k.nextId) else ExecCreate(k).exec == Idle
  {
    hide BootInv, FrameInv, DirInv, TableInv, EntryInv, LowInv, Keeps, LoadedPages, ReapInv, ParentsInv, HeldInv,
         MapPrivate, FreeAll;
    var i, d := FreeTask(k.tasks), k.exec.dir;
    if i.None? {
      ExecAbortKeeps(k);
    } else {
      ScratchBuilds(k.pages, d);
      var q := MapPrivate(k.pages, Pool(d), TASK_PRIVATE_VADDR).0;
      AppSlotSurvives(k, q);
      InstallKeeps(k, q, i.value, d, true, -1, Waiting(k.nextId));
      assert ExecCreate(k) == Installed(k, q, i.value, d, true, -1, Waiting(k.nextId));
    }
  }

  lemma AppSlotSurvives(k: Kernel, q: Pages)
    requires KInv(k) && k.exec.Loading?
    requires Builds(k.pages, q, k.exec.dir) && OwnTable(q, k.exec.dir, PRIVATE_SLOT)
    requires q.dirs[k.exec.dir][APP_SLOT] == k.pages.dirs[k.exec.dir][APP_SLOT]
    ensures q.dirs[k.exec.dir][APP_SLOT] == q.kdir[APP_SLOT] || OwnTable(q, k.exec.dir, APP_SLOT)
  {
    var d := k.exec.dir;
    assert DirInv(q, d);
    if AppTable(q, d) && OwnTable(k.pages, d, APP_SLOT) {
      var t := q.dirs[d][APP_SLOT].table.t;
      assert TableInv(q, t);
    }
  }
}
