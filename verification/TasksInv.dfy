/** What every step of the kernel keeps. */
module TasksInv {
  import opened Common
  import opened Paging
  import opened PagingInv
  import opened PagingSteps
  import opened Tasks
  import Argv

  ghost predicate Live(k: Kernel, i: nat)
    requires Sized(k)
  {
    i < MAX_TASKS && k.tasks[i].state != Unused
  }

  /** The number of task `i`'s pool directory. */
  ghost function DirOf(k: Kernel, i: nat): (d: nat)
    requires Sized(k) && i < MAX_TASKS
    ensures d < MAX_DIRS
  {
    if k.tasks[i].cr3.Pool? then k.tasks[i].cr3.d else 0
  }

  /** Exactly one task is RUNNING; its directory is loaded and, in ring 3, its kernel stack is
      the one the processor will switch to. */
  ghost predicate SchedInv(k: Kernel)
    requires Sized(k)
  {
    var me := k.tasks[k.current];
    && (forall i | 0 <= i < MAX_TASKS :: k.tasks[i].state == Running <==> i == k.current)
    && (forall i | 0 <= i < MAX_TASKS :: k.tasks[i].state != Blocked)
    && k.cr3 == me.cr3
    && (me.ring3 ==> k.esp0 == me.stackTop)
  }

  /** The boot task runs on the boot directory and stays runnable. */
  ghost predicate BootTaskInv(k: Kernel)
    requires Sized(k)
  {
    var t := k.tasks[0];
    && (t.state == Ready || t.state == Running) && t.id == 0 && k.nextId > 0
    && t.cr3 == KernelDir && !t.ring3 && t.parent == -1
  }

  /** A free slot holds nothing; a live task has a fresh id and its own complete directory. */
  ghost predicate SlotInv(k: Kernel, i: nat)
    requires KWf(k) && i < MAX_TASKS
  {
    var t := k.tasks[i];
    if t.state == Unused then t.id == -1 && t.cr3 == NoDir && !t.ring3
    else
      && 0 < t.id < k.nextId
      && t.cr3 == Pool(DirOf(k, i)) && k.pages.dirUsed[DirOf(k, i)]
      && OwnTable(k.pages, DirOf(k, i), PRIVATE_SLOT)
      && (t.ring3 ==> t.stackTop == StackTop(i))
  }

  ghost predicate Distinct(k: Kernel)
    requires Sized(k)
  {
    forall i, j | 0 <= i < MAX_TASKS && 0 <= j < MAX_TASKS && i != j && Live(k, i) && Live(k, j) ::
      k.tasks[i].id != k.tasks[j].id && k.tasks[i].cr3 != k.tasks[j].cr3
  }

  /** Task `j` is `i`'s live parent, and `i` uses whatever app table `j` uses. */
  ghost predicate Parent(k: Kernel, i: nat, j: nat)
    requires KWf(k)
  {
    && Live(k, i) && Live(k, j) && j != 0
    && k.tasks[j].id == k.tasks[i].parent && k.tasks[j].id < k.tasks[i].id
    && k.pages.dirs[DirOf(k, i)][APP_SLOT] == k.pages.dirs[DirOf(k, j)][APP_SLOT]
  }

  ghost predicate ParentInv(k: Kernel, i: nat)
    requires KWf(k) && Live(k, i)
  {
    var d := DirOf(k, i);
    if k.tasks[i].parent == -1 then
      k.pages.dirs[d][APP_SLOT] == k.pages.kdir[APP_SLOT] || OwnTable(k.pages, d, APP_SLOT)
    else exists j: nat :: Parent(k, i, j)
  }

  /** A directory in use belongs to a live task or to the loader. */
  ghost predicate Held(k: Kernel, d: nat)
    requires Sized(k)
  {
    (k.exec.Loading? && k.exec.dir == d) || exists i: nat :: Live(k, i) && k.tasks[i].cr3 == Pool(d)
  }

  /** Entry `i` of table `t` gives user code read and write access to a frame holding `bytes`. */
  ghost predicate PageHolds(p: Pages, t: nat, i: nat, bytes: seq<byte>)
    requires Wf(p)
  {
    && t < MAX_TABLES && i < PAGE_ENTRIES
    && var e := p.tables[t][i];
       exists f: nat :: f < POOL_FRAMES && e == Pte(FrameAddr(f), true, true, true) && p.ram[f] == bytes
  }

  /** Entry `i` of table `t` holds the page of the program that belongs at that address. */
  ghost predicate CodeHolds(p: Pages, t: nat, i: nat, code: seq<byte>)
    requires Wf(p) && 512 <= i && (i - 512) * PAGE_SIZE <= |code|
  {
    PageHolds(p, t, i, Chunk(code, i - 512))
  }

  /** How much of a program of `size` bytes the first `code` pages hold. */
  function Copied(size: nat, code: nat): nat { if code * PAGE_SIZE < size then code * PAGE_SIZE else size }

  /** The bottom stack page before and after the arguments are placed. */
  ghost function StackPage(x: Exec): seq<byte>
    requires x.Loading? && Argv.StagesInBounds(x.args)
  {
    if x.placed then Argv.Place(ZeroFrame(), x.args, Argv.Count(x.args)) else ZeroFrame()
  }

  /** The directory the loader is filling: no task has it yet, and it maps the code pages and
      stack pages placed so far, with their contents, and no other pool frame. */
  ghost predicate LoadInv(k: Kernel)
    requires KWf(k) && k.exec.Loading?
  {
    var x, p, d := k.exec, k.pages, k.exec.dir;
    && p.dirUsed[d]
    && (forall i: nat | Live(k, i) :: k.tasks[i].cr3 != Pool(d))
    && p.dirs[d][PRIVATE_SLOT] == p.kdir[PRIVATE_SLOT] && p.dirs[d][SPAWN_SLOT] == p.kdir[SPAWN_SLOT]
    && 0 < x.size <= EXEC_BUF_SIZE && Argv.StagesInBounds(x.args)
    && x.code <= CodePages(x.size) && |x.copied| == Copied(x.size, x.code) && x.stack <= APP_STACK_PAGES
    && (x.stack > 0 ==> x.code == CodePages(x.size)) && (x.placed ==> x.stack == APP_STACK_PAGES)
    && (if x.code == 0 then p.dirs[d][APP_SLOT] == p.kdir[APP_SLOT]
        else OwnTable(p, d, APP_SLOT) && LoadedPages(k, p.dirs[d][APP_SLOT].table.t))
  }

  ghost predicate LoadedPages(k: Kernel, t: nat)
    requires KWf(k) && k.exec.Loading? && t < MAX_TABLES && Argv.StagesInBounds(k.exec.args)
    requires k.exec.code <= CodePages(k.exec.size) && |k.exec.copied| == Copied(k.exec.size, k.exec.code)
  {
    var x, p := k.exec, k.pages;
    && (forall i | 512 <= i < 512 + x.code :: CodeHolds(p, t, i, x.copied))
    && (x.stack > 0 ==> x.frame0 < POOL_FRAMES && p.tables[t][528] == Pte(FrameAddr(x.frame0), true, true, true)
                        && p.ram[x.frame0] == StackPage(x))
    && (forall i | 528 < i < 528 + x.stack :: PageHolds(p, t, i, ZeroFrame()))
    && (forall i | 0 <= i < PAGE_ENTRIES && p.tables[t][i].present && p.tables[t][i].frame >= POOL_START ::
          512 <= i < 512 + x.code || 528 <= i < 528 + x.stack)
  }

  /** One activation of task_reap: it reaps a zombie, and no slot its child loop has passed
      holds a child of that zombie. */
  ghost predicate CallInv(tasks: seq<Task>, c: Reap)
    requires |tasks| == MAX_TASKS
  {
    && 0 < c.slot < MAX_TASKS && tasks[c.slot].state == Zombie && tasks[c.slot].id == c.id && c.j <= MAX_TASKS
    && (forall x: nat | x < c.j :: !IsChild(tasks, c.id, x))
  }

  /** Each activation but the last stands at the child that the next one reaps. */
  ghost predicate ReapInv(k: Kernel)
    requires Sized(k) && k.exec.Reaping?
  {
    var c := k.exec.calls;
    && c != []
    && (forall m | 0 <= m < |c| :: CallInv(k.tasks, c[m]))
    && (forall m | 0 < m < |c| :: c[m - 1].j == c[m].slot)
    && (forall m, n | 0 <= m < n < |c| :: c[m].id < c[n].id)
  }

  ghost predicate SlotsInv(k: Kernel)
    requires KWf(k)
  {
    forall i | 0 < i < MAX_TASKS :: SlotInv(k, i)
  }

  ghost predicate ParentsInv(k: Kernel)
    requires KWf(k)
  {
    forall i | 0 < i < MAX_TASKS && Live(k, i) :: ParentInv(k, i)
  }

  ghost predicate HeldInv(k: Kernel)
    requires KWf(k)
  {
    forall d | 0 <= d < MAX_DIRS && k.pages.dirUsed[d] :: Held(k, d)
  }

  ghost predicate KInv(k: Kernel)
  {
    && KWf(k) && Inv(k.pages) && SchedInv(k) && BootTaskInv(k) && Distinct(k)
    && SlotsInv(k) && ParentsInv(k) && HeldInv(k)
    && (k.exec.Loading? ==> LoadInv(k))
    && (k.exec.Reaping? ==> ReapInv(k))
  }

  // ---- a free directory is always found ----

  /** The directory of task `x + 1`, or the loader's in place of slot `u`. */
  ghost function DirAt(k: Kernel, u: nat, x: nat): nat
    requires Sized(k)
  {
    if x >= 7 then 0 else if x + 1 == u && k.exec.Loading? then k.exec.dir else DirOf(k, x + 1)
  }

  /** While a task slot is free, or while the loader has no directory, one of the eight pool
      directories is free. */
  lemma DirsAvailable(k: Kernel, u: nat)
    requires KInv(k) && (if k.exec.Loading? then u < MAX_TASKS && !Live(k, u) else u == 0)
    ensures CloneDir(k.pages).1.Some?
  {
    hide Inv, SlotsInv, ParentsInv, LoadInv, ReapInv, Distinct, SchedInv;
    var at := x => DirAt(k, u, x);
    if First(k.pages.dirUsed, false).None? {
      forall d: nat | d < MAX_DIRS
        ensures Hits(at, 7, d)
      {
        assert Held(k, d);
        var i: nat;
        if k.exec.Loading? && k.exec.dir == d {
          i := u;
        } else {
          i :| Live(k, i) && k.tasks[i].cr3 == Pool(d);
        }
        assert i != 0;
        var x: nat := i - 1;
        assert at(x) == d;
      }
      CoverSize(at, 7, MAX_DIRS);
    }
  }

  // ---- ancestors ----

  /** Task `a` is `i` itself or one of its ancestors, all of them live. */
  ghost predicate Descends(k: Kernel, i: nat, a: nat)
    requires KWf(k) && i < MAX_TASKS
    decreases k.tasks[i].id
  {
    i == a || exists j: nat :: Parent(k, i, j) && k.tasks[j].id >= 0 && Descends(k, j, a)
  }

  /** The live task whose directory owns the app table that task `i` uses: `i` itself or the
      ancestor it was shared from. */
  lemma {:induction false} AppOwner(k: Kernel, i: nat) returns (a: nat)
    requires KInv(k) && 0 < i < MAX_TASKS && Live(k, i)
    requires k.pages.dirs[DirOf(k, i)][APP_SLOT] != k.pages.kdir[APP_SLOT]
    ensures 0 < a < MAX_TASKS && Live(k, a) && OwnTable(k.pages, DirOf(k, a), APP_SLOT)
    ensures k.pages.dirs[DirOf(k, a)][APP_SLOT] == k.pages.dirs[DirOf(k, i)][APP_SLOT]
    ensures Descends(k, i, a)
    ensures a != i ==> exists j: nat :: IsChild(k.tasks, k.tasks[a].id, j)
    decreases k.tasks[i].id
  {
    assert ParentInv(k, i) && SlotInv(k, i);
    if k.tasks[i].parent == -1 {
      a := i;
    } else {
      var j: nat :| Parent(k, i, j);
      assert SlotInv(k, j);
      a := AppOwner(k, j);
      assert IsChild(k.tasks, k.tasks[j].id, i);
    }
  }

  /** A childless task's tables are shared with nobody. */
  lemma ChildlessUnshared(k: Kernel, i: nat)
    requires KInv(k) && 0 < i < MAX_TASKS && Live(k, i)
    requires forall j: nat :: !IsChild(k.tasks, k.tasks[i].id, j)
    ensures NoSharers(k.pages, DirOf(k, i))
  {
    var d := DirOf(k, i);
    assert SlotInv(k, i);
    forall c | 0 <= c < MAX_DIRS && k.pages.dirUsed[c] && c != d && k.pages.dirs[c][APP_SLOT].table.Private?
      ensures k.pages.owner[k.pages.dirs[c][APP_SLOT].table.t] != Pool(d)
    {
      assert Held(k, c);
      if k.exec.Loading? && k.exec.dir == c {
      } else {
        var m: nat :| Live(k, m) && k.tasks[m].cr3 == Pool(c);
        assert SlotInv(k, m);
        var a := AppOwner(k, m);
        assert SlotInv(k, a);
      }
    }
  }
}
