/** Every kernel step keeps the invariant. */
module TasksSteps {
  import opened Common
  import opened Paging
  import opened PagingInv
  import opened PagingSteps
  import opened Tasks
  import opened TasksInv
  import Argv

  // ---- scheduling ----

  /** How many places after `from` slot `i` comes, 1 to 8. */
  function Distance(from: nat, i: nat): (n: nat)
    requires from < MAX_TASKS && i < MAX_TASKS
    ensures 1 <= n <= MAX_TASKS && At(from, n) == i
    ensures forall m: nat | 1 <= m <= MAX_TASKS && At(from, m) == i :: m == n
  {
    if i > from then i - from else i + MAX_TASKS - from
  }

  /** `pick_next` returns the nearest READY slot, or where it started if there is none. */
  lemma {:induction false} PickFromNearest(tasks: seq<Task>, from: nat, step: nat)
    requires |tasks| == MAX_TASKS && from < MAX_TASKS && 1 <= step <= MAX_TASKS + 1
    ensures
      var r := PickFrom(tasks, from, step);
      if tasks[r].state == Ready then
        forall s | step <= s < Distance(from, r) :: tasks[At(from, s)].state != Ready
      else
        r == from && forall s | step <= s <= MAX_TASKS :: tasks[At(from, s)].state != Ready
    decreases MAX_TASKS + 1 - step
  {
    if step <= MAX_TASKS && tasks[At(from, step)].state != Ready {
      PickFromNearest(tasks, from, step + 1);
    }
  }

  lemma PickNextReady(tasks: seq<Task>, from: nat, i: nat)
    requires |tasks| == MAX_TASKS && from < MAX_TASKS && i < MAX_TASKS && tasks[i].state == Ready
    ensures tasks[PickNext(tasks, from)].state == Ready
    ensures Distance(from, PickNext(tasks, from)) <= Distance(from, i)
  {
    PickFromNearest(tasks, from, 1);
    assert At(from, Distance(from, i)) == i;
  }

  /** From `k` to `r` only task states changed, and neither zombies nor free slots did. */
  ghost predicate OnlyStates(k: Kernel, r: Kernel)
    requires Sized(k)
  {
    && Sized(r) && r.pages == k.pages && r.exec == k.exec && r.nextId == k.nextId
    && (forall i | 0 <= i < MAX_TASKS :: r.tasks[i] == k.tasks[i].(state := r.tasks[i].state))
    && (forall i | 0 <= i < MAX_TASKS ::
          && (k.tasks[i].state == Zombie ==> r.tasks[i].state == Zombie)
          && (k.tasks[i].state == Unused <==> r.tasks[i].state == Unused))
  }

  lemma OnlyStatesKeeps(k: Kernel, r: Kernel)
    requires KInv(k) && OnlyStates(k, r) && SchedInv(r) && BootTaskInv(r)
    ensures KInv(r)
  {
    forall i: nat ensures Live(r, i) == Live(k, i) {}
    forall i | 0 < i < MAX_TASKS ensures SlotInv(r, i) { assert SlotInv(k, i); }
    forall i: nat, j: nat ensures Parent(r, i, j) == Parent(k, i, j) {}
    forall i | 0 < i < MAX_TASKS && Live(r, i) ensures ParentInv(r, i) { assert ParentInv(k, i); }
    forall d | 0 <= d < MAX_DIRS && r.pages.dirUsed[d] ensures Held(r, d) { assert Held(k, d); }
    forall id, j: nat ensures IsChild(r.tasks, id, j) == IsChild(k.tasks, id, j) {}
    if r.exec.Loading? { assert LoadedSame(k, r); }
  }

  ghost predicate LoadedSame(k: Kernel, r: Kernel)
    requires KWf(k) && KWf(r) && k.exec.Loading? && LoadInv(k) && r.exec == k.exec && r.pages == k.pages
  {
    k.exec.code > 0 ==> LoadedPages(r, k.pages.dirs[k.exec.dir][APP_SLOT].table.t)
  }

  lemma ScheduleSwitches(k: Kernel)
    requires KWf(k) && SchedInv(k) && BootTaskInv(k)
    ensures OnlyStates(k, Schedule(k)) && SchedInv(Schedule(k)) && BootTaskInv(Schedule(k))
  {
    hide PickFrom, Paging.Wf;
    PickFromNearest(k.tasks, k.current, 1);
  }

  lemma ScheduleKeeps(k: Kernel)
    requires KInv(k)
    ensures KInv(Schedule(k))
  {
    ScheduleSwitches(k);
    OnlyStatesKeeps(k, Schedule(k));
  }

  lemma ExitSwitches(k: Kernel)
    requires KWf(k) && SchedInv(k) && BootTaskInv(k) && k.current != 0
    ensures OnlyStates(k, Exit(k)) && SchedInv(Exit(k)) && BootTaskInv(Exit(k))
    ensures Exit(k).current != k.current && Exit(k).tasks[k.current].state == Zombie
  {
    hide PickNext;
    var z := k.(tasks := SetState(k.tasks, k.current, Zombie));
    assert z.tasks[0].state == Ready;
    PickNextReady(z.tasks, k.current, 0);
  }

  /** `task_exit` always finds a successor: the boot task at least is READY. */
  lemma ExitFindsSuccessor(k: Kernel)
    requires KInv(k) && k.current != 0
    ensures KInv(Exit(k)) && Exit(k).current != k.current && Exit(k).tasks[k.current].state == Zombie
  {
    ExitSwitches(k);
    OnlyStatesKeeps(k, Exit(k));
  }

  // ---- building a directory leaves every other task alone ----

  /** No live task runs on directory `d`. */
  ghost predicate Nobodys(k: Kernel, d: nat)
    requires Sized(k)
  {
    forall i: nat | Live(k, i) :: k.tasks[i].cr3 != Pool(d)
  }

  lemma SlotKept(k: Kernel, r: Kernel, d: nat, i: nat)
    requires KWf(k) && KWf(r) && Keeps(k.pages, r.pages, d) && 0 < i < MAX_TASKS
    requires SlotInv(k, i) && r.tasks[i] == k.tasks[i] && r.nextId >= k.nextId && k.tasks[i].cr3 != Pool(d)
    ensures SlotInv(r, i)
  {}

  lemma ParentKept(k: Kernel, r: Kernel, d: nat, i: nat)
    requires KInv(k) && KWf(r) && Keeps(k.pages, r.pages, d) && Nobodys(k, d)
    requires 0 < i < MAX_TASKS && Live(k, i) && r.tasks[i] == k.tasks[i]
    requires forall j: nat | Live(k, j) && (k.tasks[j].id == k.tasks[i].parent) :: r.tasks[j] == k.tasks[j]
    ensures ParentInv(r, i)
  {
    assert ParentInv(k, i) && SlotInv(k, i);
    if k.tasks[i].parent != -1 {
      var j: nat :| Parent(k, i, j);
      assert SlotInv(k, j);
      assert Parent(r, i, j);
    }
  }

  lemma PageKept(p: Pages, q: Pages, d: nat, t: nat, i: nat, bytes: seq<byte>)
    requires Keeps(p, q, d) && t < MAX_TABLES && p.owner[t] != NoDir && p.owner[t] != Pool(d)
    requires PageHolds(p, t, i, bytes)
    ensures PageHolds(q, t, i, bytes)
  {
    var f: nat :| f < POOL_FRAMES && p.tables[t][i] == Pte(FrameAddr(f), true, true, true) && p.ram[f] == bytes;
    assert Ref(p, t, i, f);
  }

  lemma LoadedKept(k: Kernel, r: Kernel, d: nat, t: nat)
    requires KWf(k) && KWf(r) && k.exec.Loading? && r.exec == k.exec && Keeps(k.pages, r.pages, d)
    requires t < MAX_TABLES && k.pages.owner[t] == Pool(k.exec.dir) && k.exec.dir != d
    requires Argv.StagesInBounds(k.exec.args) && k.exec.code <= CodePages(k.exec.size)
    requires |k.exec.copied| == Copied(k.exec.size, k.exec.code) && LoadedPages(k, t)
    ensures LoadedPages(r, t)
  {
    var x, p, q := k.exec, k.pages, r.pages;
    forall i | 512 <= i < 512 + x.code ensures CodeHolds(q, t, i, x.copied) {
      assert CodeHolds(p, t, i, x.copied);
      PageKept(p, q, d, t, i, Chunk(x.copied, i - 512));
    }
    forall i | 528 < i < 528 + x.stack ensures PageHolds(q, t, i, ZeroFrame()) {
      PageKept(p, q, d, t, i, ZeroFrame());
    }
    if x.stack > 0 {
      assert Ref(p, t, 528, x.frame0);
    }
  }

  lemma LoadKept(k: Kernel, r: Kernel, d: nat)
    requires KWf(k) && KWf(r) && k.exec.Loading? && r.exec == k.exec && Keeps(k.pages, r.pages, d)
    requires LoadInv(k) && k.exec.dir != d && Nobodys(r, k.exec.dir)
    ensures LoadInv(r)
  {
    if k.exec.code > 0 {
      LoadedKept(k, r, d, k.pages.dirs[k.exec.dir][APP_SLOT].table.t);
    }
  }

  lemma HeldKept(k: Kernel, r: Kernel, d: nat)
    requires KInv(k) && KWf(r) && Keeps(k.pages, r.pages, d) && Held(r, d)
    requires forall i: nat | Live(k, i) :: r.tasks[i] == k.tasks[i]
    requires k.exec.Loading? && k.exec.dir != d ==> r.exec == k.exec
    ensures HeldInv(r)
  {
    forall c | 0 <= c < MAX_DIRS && r.pages.dirUsed[c] ensures Held(r, c) {
      if c != d {
        assert Held(k, c);
        if !(k.exec.Loading? && k.exec.dir == c) {
          var i: nat :| Live(k, i) && k.tasks[i].cr3 == Pool(c);
          assert Live(r, i);
        }
      }
    }
  }

  /** Slot `i` is free and directory `d`, built in `q`, is ready for a new task of that parent. */
  ghost predicate Installable(k: Kernel, q: Pages, i: nat, d: nat, parent: int, x: Exec)
  {
    && KInv(k) && 0 < i < MAX_TASKS && !Live(k, i)
    && Builds(k.pages, q, d) && Nobodys(k, d) && OwnTable(q, d, PRIVATE_SLOT)
    && (if k.exec.Loading? && k.exec.dir == d then x.Waiting? else x == k.exec)
    && if parent == -1 then q.dirs[d][APP_SLOT] == q.kdir[APP_SLOT] || OwnTable(q, d, APP_SLOT)
       else k.current != 0 && parent == k.tasks[k.current].id
            && q.dirs[d][APP_SLOT] == q.dirs[DirOf(k, k.current)][APP_SLOT]
  }

  function Installed(k: Kernel, q: Pages, i: nat, d: nat, ring3: bool, parent: int, x: Exec): Kernel
    requires KWf(k) && Wf(q) && i < MAX_TASKS && d < MAX_DIRS
  {
    Install(k, q, i, d, ring3, parent).(exec := x)
  }

  lemma InstallTasks(k: Kernel, q: Pages, i: nat, d: nat, ring3: bool, parent: int, x: Exec)
    requires Installable(k, q, i, d, parent, x)
    ensures
      var r := Installed(k, q, i, d, ring3, parent, x);
      KWf(r) && SchedInv(r) && BootTaskInv(r) && Distinct(r) && SlotsInv(r)
  {
    hide BootInv, FrameInv, DirInv, TableInv, EntryInv, LowInv, Keeps, LoadInv, ReapInv, ParentsInv, HeldInv;
    hide OwnTable, SlotInv;
    var r := Installed(k, q, i, d, ring3, parent, x);
    forall j | 0 < j < MAX_TASKS
      ensures SlotInv(r, j) && (j != i ==> Live(k, j) ==> k.tasks[j].id < k.nextId)
    {
      InstallSlot(k, q, i, d, ring3, parent, x, j);
    }
  }

  lemma InstallSlot(k: Kernel, q: Pages, i: nat, d: nat, ring3: bool, parent: int, x: Exec, j: nat)
    requires Installable(k, q, i, d, parent, x) && 0 < j < MAX_TASKS
    ensures SlotInv(Installed(k, q, i, d, ring3, parent, x), j)
    ensures j != i ==> Live(k, j) ==> k.tasks[j].id < k.nextId
  {
    hide BootInv, FrameInv, DirInv, TableInv, EntryInv, LowInv, Keeps, LoadInv, ReapInv, ParentsInv, HeldInv;
    assert SlotInv(k, j);
    if j != i {
      SlotKept(k, Installed(k, q, i, d, ring3, parent, x), d, j);
    }
  }

  lemma InstallParents(k: Kernel, q: Pages, i: nat, d: nat, ring3: bool, parent: int, x: Exec)
    requires Installable(k, q, i, d, parent, x)
    ensures
      var r := Installed(k, q, i, d, ring3, parent, x);
      KWf(r) && ParentsInv(r)
  {
    hide BootInv, FrameInv, DirInv, TableInv, EntryInv, LowInv, LoadInv, ReapInv, HeldInv;
    var r := Installed(k, q, i, d, ring3, parent, x);
    forall j | 0 < j < MAX_TASKS && Live(r, j) ensures ParentInv(r, j) {
      if j != i {
        ParentKept(k, r, d, j);
      } else if parent != -1 {
        assert SlotInv(k, k.current);
        assert Parent(r, i, k.current);
      }
    }
  }

  /** A READY task in a free slot, with its own new directory, completes the state. */
  lemma InstallKeeps(k: Kernel, q: Pages, i: nat, d: nat, ring3: bool, parent: int, x: Exec)
    requires Installable(k, q, i, d, parent, x)
    ensures KInv(Installed(k, q, i, d, ring3, parent, x))
  {
    hide BootInv, FrameInv, DirInv, TableInv, EntryInv, LowInv, Keeps, LoadedPages, ReapInv, SlotsInv, ParentsInv,
         HeldInv;
    var r := Installed(k, q, i, d, ring3, parent, x);
    InstallTasks(k, q, i, d, ring3, parent, x);
    InstallParents(k, q, i, d, ring3, parent, x);
    assert Held(r, d) by { assert Live(r, i) && r.tasks[i].cr3 == Pool(d); }
    HeldKept(k, r, d);
    if r.exec.Loading? { LoadKept(k, r, d); }
    if r.exec.Reaping? { ReapKeptByInstall(k, r, i, parent); }
  }

  lemma ReapKeptByInstall(k: Kernel, r: Kernel, i: nat, parent: int)
    requires KInv(k) && Sized(r) && k.exec.Reaping? && r.exec == k.exec && 0 < i < MAX_TASKS && !Live(k, i)
    requires r.tasks == k.tasks[i := r.tasks[i]] && r.tasks[i].parent == parent
    requires parent == -1 || parent == k.tasks[k.current].id
    ensures ReapInv(r)
  {
    var c := k.exec.calls;
    forall m | 0 <= m < |c| ensures CallInv(r.tasks, c[m]) {
      assert CallInv(k.tasks, c[m]);
      assert SlotInv(k, c[m].slot);
      forall x: nat | x < c[m].j ensures !IsChild(r.tasks, c[m].id, x) {
        assert !IsChild(k.tasks, c[m].id, x);
      }
    }
  }

  // ---- creating tasks ----

  lemma FreeSlotIsNotBoot(k: Kernel)
    requires KInv(k) && FreeTask(k.tasks).Some?
    ensures var i := FreeTask(k.tasks).value; 0 < i < MAX_TASKS && !Live(k, i) && CloneDir(k.pages).1.Some?
  {
    DirsAvailable(k, if k.exec.Loading? then FreeTask(k.tasks).value else 0);
  }

  lemma UnusedIsNobodys(k: Kernel, d: nat)
    requires KInv(k) && d < MAX_DIRS && !k.pages.dirUsed[d]
    ensures Nobodys(k, d) && !(k.exec.Loading? && k.exec.dir == d)
  {
    forall i: nat | Live(k, i) ensures k.tasks[i].cr3 != Pool(d) {
      if i != 0 { assert SlotInv(k, i); }
    }
  }

  /** `task_create` and `task_create_ring3` succeed whenever a task slot is free. */
  lemma CreateKeeps(k: Kernel, ring3: bool)
    requires KInv(k)
    ensures KInv(Create(k, ring3))
    ensures FreeTask(k.tasks).Some? ==> Create(k, ring3).nextId == k.nextId + 1
    ensures FreeTask(k.tasks).None? ==> Create(k, ring3) == k
  {
    hide BootInv, FrameInv, DirInv, TableInv, EntryInv, LowInv, Keeps, LoadInv, ReapInv, ParentsInv, HeldInv,
         MapPrivate;
    var i := FreeTask(k.tasks);
    if i.Some? {
      FreeSlotIsNotBoot(k);
      var d, q := NewTaskDir(k.pages);
      UnusedIsNobodys(k, d);
      InstallKeeps(k, q, i.value, d, ring3, -1, k.exec);
      assert Create(k, ring3) == Installed(k, q, i.value, d, ring3, -1, k.exec);
    }
  }

  /** A caller in ring 3 gets its child whenever a slot is free. */
  lemma SpawnInstalls(k: Kernel) returns (d: nat, q: Pages)
    requires KInv(k) && FreeTask(k.tasks).Some? && k.tasks[k.current].ring3
    ensures
      var i, me := FreeTask(k.tasks).value, k.tasks[k.current];
      && Installable(k, q, i, d, me.id, k.exec) && Spawn(k) == Installed(k, q, i, d, true, me.id, k.exec)
  {
    hide BootInv, FrameInv, DirInv, TableInv, EntryInv, LowInv, Keeps, LoadInv, ReapInv, ParentsInv, HeldInv,
         MapPrivate, CallInv, Builds, MapPages, FreeAll, Distinct;
    FreeSlotIsNotBoot(k);
    assert SlotInv(k, k.current);
    d, q := NewChildDir(k.pages, DirOf(k, k.current));
    UnusedIsNobodys(k, d);
  }

  /** `task_create_ring3_child` succeeds whenever a slot is free and the caller is in ring 3. */
  lemma SpawnKeeps(k: Kernel)
    requires KInv(k)
    ensures KInv(Spawn(k))
    ensures
      if FreeTask(k.tasks).Some? && k.tasks[k.current].ring3
      then Spawn(k).nextId == k.nextId + 1 else Spawn(k) == k
  {
    hide Inv, SlotsInv, ParentsInv, HeldInv, LoadInv, ReapInv, Distinct, MapPages, MapPrivate, Installable;
    var i, me := FreeTask(k.tasks), k.tasks[k.current];
    if i.Some? && me.ring3 {
      var d, q := SpawnInstalls(k);
      InstallKeeps(k, q, i.value, d, true, me.id, k.exec);
    }
  }
}
