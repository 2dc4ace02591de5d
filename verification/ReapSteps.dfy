/** The cascade of task_reap, with other tasks running between its turns, keeps the invariant:
    by the time a task's memory is freed no live task is its child, so nobody shares it. */
module ReapSteps {
  import opened Common
  import opened Paging
  import opened PagingInv
  import opened PagingSteps
  import opened Tasks
  import opened TasksInv
  import opened TasksSteps
  import opened ExecSteps

  /** task_reap(id) finds the zombie that has that id. */
  lemma FindsZombie(k: Kernel, i: nat)
    requires KInv(k) && i < MAX_TASKS && k.tasks[i].state == Zombie
    ensures ZombieFrom(k.tasks, k.tasks[i].id, 0) == Some(i) && i != 0
  {
    var r := ZombieFrom(k.tasks, k.tasks[i].id, 0);
    assert Live(k, i) && (r.Some? ==> Live(k, r.value));
  }

  /** Only the loader's progress changed, and the reaping part of it is sound. */
  lemma OnlyExecKeeps(k: Kernel, x: Exec)
    requires KInv(k) && !k.exec.Loading? && !x.Loading? && Sized(k.(exec := x))
    requires x.Reaping? ==> ReapInv(k.(exec := x))
    ensures KInv(k.(exec := x))
  {
    var r := k.(exec := x);
    forall i | 0 < i < MAX_TASKS ensures SlotInv(r, i) { assert SlotInv(k, i); }
    forall i: nat, j: nat ensures Parent(r, i, j) == Parent(k, i, j) {}
    forall i | 0 < i < MAX_TASKS && Live(r, i) ensures ParentInv(r, i) { assert ParentInv(k, i); }
    forall d | 0 <= d < MAX_DIRS && r.pages.dirUsed[d] ensures Held(r, d) { assert Held(k, d); }
  }

  /** Seeing the app finished starts a cascade at its slot. */
  lemma ExecObserveKeeps(k: Kernel)
    requires KInv(k) && k.exec.Waiting?
    ensures KInv(ExecObserve(k))
  {
    if IsZombie(k.tasks, k.exec.id) {
      var i := First(Ids(k.tasks), k.exec.id).value;
      FindsZombie(k, i);
      var x := Reaping([Reap(k.exec.id, i, 0)]);
      assert [] + x.calls == x.calls;
      assert ExecObserve(k) == k.(exec := x);
      OnlyExecKeeps(k, x);
    }
  }

  /** A child's id is larger than its parent's. */
  lemma ChildIsYounger(k: Kernel, i: nat, j: nat)
    requires KInv(k) && 0 < i < MAX_TASKS && Live(k, i) && IsChild(k.tasks, k.tasks[i].id, j)
    ensures 0 < j < MAX_TASKS && Live(k, j) && k.tasks[i].id < k.tasks[j].id
  {
    assert SlotInv(k, i) && j != 0;
    assert SlotInv(k, j) && ParentInv(k, j);
    var a: nat :| Parent(k, j, a);
  }

  lemma StepLoopKeeps(k: Kernel)
    requires KInv(k) && k.exec.Reaping?
    requires var top := k.exec.calls[|k.exec.calls| - 1]; top.j < MAX_TASKS && !IsChild(k.tasks, top.id, top.j)
    ensures KInv(k.(exec := Reaping(Return(k.exec.calls))))
  {
    OnlyExecKeeps(k, Reaping(Return(k.exec.calls)));
  }

  /** Pushing an activation for the zombie child the innermost one stands at. */
  lemma PushedCalls(k: Kernel)
    requires Sized(k) && k.exec.Reaping? && ReapInv(k)
    requires
      var top := k.exec.calls[|k.exec.calls| - 1];
      && 0 < top.j < MAX_TASKS && IsChild(k.tasks, top.id, top.j) && k.tasks[top.j].state == Zombie
      && top.id < k.tasks[top.j].id
    ensures
      var c := k.exec.calls;
      var j := c[|c| - 1].j;
      var r := k.(exec := Reaping(c + [Reap(k.tasks[j].id, j, 0)]));
      Sized(r) && ReapInv(r)
  {
    var c := k.exec.calls;
    var c' := c + [Reap(k.tasks[c[|c| - 1].j].id, c[|c| - 1].j, 0)];
    assert CallInv(k.tasks, c'[|c|]);
  }

  lemma DescendKeeps(k: Kernel)
    requires KInv(k) && k.exec.Reaping?
    requires
      var top := k.exec.calls[|k.exec.calls| - 1];
      top.j < MAX_TASKS && IsChild(k.tasks, top.id, top.j) && k.tasks[top.j].state == Zombie
    ensures
      var j := k.exec.calls[|k.exec.calls| - 1].j;
      KInv(k.(exec := Reaping(Enter(k.tasks, k.tasks[j].id, k.exec.calls))))
  {
    hide Inv, SlotsInv, ParentsInv, HeldInv, Distinct, SchedInv;
    var c := k.exec.calls;
    var top := c[|c| - 1];
    FindsZombie(k, top.j);
    ChildIsYounger(k, top.slot, top.j);
    PushedCalls(k);
    OnlyExecKeeps(k, Reaping(c + [Reap(k.tasks[top.j].id, top.j, 0)]));
  }

  /** The innermost activation has seen every slot: its task has no child left. */
  lemma LoopDoneChildless(k: Kernel)
    requires KInv(k) && k.exec.Reaping? && k.exec.calls[|k.exec.calls| - 1].j >= MAX_TASKS
    ensures
      var top := k.exec.calls[|k.exec.calls| - 1];
      && 0 < top.slot < MAX_TASKS && k.tasks[top.slot].state == Zombie && top.slot != k.current
      && k.tasks[top.slot].id == top.id
      && forall j: nat :: !IsChild(k.tasks, top.id, j)
  {
    var top := k.exec.calls[|k.exec.calls| - 1];
    forall j: nat ensures !IsChild(k.tasks, top.id, j) {}
  }

  /** The state after task `i` is reclaimed. */
  ghost predicate Reclaimed(k: Kernel, r: Kernel, i: nat)
    requires KWf(k)
  {
    && KWf(r) && 0 < i < MAX_TASKS && i != k.current && k.tasks[i].state == Zombie
    && r == k.(pages := FreeAll(k.pages, DirOf(k, i)), tasks := k.tasks[i := FREE_TASK], exec := r.exec)
  }

  lemma ReclaimPages(k: Kernel, i: nat)
    requires KInv(k) && 0 < i < MAX_TASKS && k.tasks[i].state == Zombie
    requires forall j: nat :: !IsChild(k.tasks, k.tasks[i].id, j)
    ensures
      var d, q := DirOf(k, i), FreeAll(k.pages, DirOf(k, i));
      && Inv(q) && Keeps(k.pages, q, d) && !q.dirUsed[d] && Reclaim(k, i).pages == q
  {
    hide BootInv, FrameInv, DirInv, TableInv, EntryInv, LowInv, Keeps;
    assert SlotInv(k, i);
    ChildlessUnshared(k, i);
    FreeAllKeepsOthers(k.pages, DirOf(k, i));
  }

  lemma ReclaimTasks(k: Kernel, r: Kernel, i: nat)
    requires KInv(k) && Reclaimed(k, r, i) && Keeps(k.pages, r.pages, DirOf(k, i))
    requires forall j: nat :: !IsChild(k.tasks, k.tasks[i].id, j)
    ensures SchedInv(r) && BootTaskInv(r) && Distinct(r) && SlotsInv(r) && ParentsInv(r)
  {
    hide BootInv, FrameInv, DirInv, TableInv, EntryInv, LowInv, FreeAll;
    var d := DirOf(k, i);
    assert SlotInv(k, i);
    forall m: nat ensures Live(r, m) <==> m != i && Live(k, m) {}
    forall m | 0 < m < MAX_TASKS ensures SlotInv(r, m) {
      assert SlotInv(k, m);
      if m != i { SlotKept(k, r, d, m); }
    }
    forall m | 0 < m < MAX_TASKS && Live(r, m) ensures ParentInv(r, m) {
      assert ParentInv(k, m) && SlotInv(k, m);
      if k.tasks[m].parent != -1 {
        var j: nat :| Parent(k, m, j);
        assert !IsChild(k.tasks, k.tasks[i].id, m);
        assert SlotInv(k, j);
        assert Parent(r, m, j);
      }
    }
  }

  lemma ReclaimHeld(k: Kernel, r: Kernel, i: nat)
    requires KInv(k) && Reclaimed(k, r, i) && Keeps(k.pages, r.pages, DirOf(k, i))
    requires !r.pages.dirUsed[DirOf(k, i)] && !k.exec.Loading?
    ensures HeldInv(r)
  {
    hide BootInv, FrameInv, DirInv, TableInv, EntryInv, LowInv, FreeAll;
    assert SlotInv(k, i);
    forall c | 0 <= c < MAX_DIRS && r.pages.dirUsed[c] ensures Held(r, c) {
      assert Held(k, c);
      var m: nat :| Live(k, m) && k.tasks[m].cr3 == Pool(c);
      assert Live(r, m);
    }
  }

  /** The callers' activations stand once the child they stand at is gone. */
  lemma ReclaimCalls(k: Kernel, r: Kernel, i: nat)
    requires Sized(k) && k.exec.Reaping? && ReapInv(k)
    requires Sized(r) && i < MAX_TASKS && r.tasks == k.tasks[i := FREE_TASK]
    requires i == k.exec.calls[|k.exec.calls| - 1].slot && |k.exec.calls| > 1
    requires r.exec == Reaping(Return(k.exec.calls[..|k.exec.calls| - 1]))
    ensures ReapInv(r)
  {
    var c := k.exec.calls;
    var c' := Return(c[..|c| - 1]);
    forall m | 0 <= m < |c'| ensures CallInv(r.tasks, c'[m]) {
      assert CallInv(k.tasks, c[m]) && CallInv(k.tasks, c[|c| - 1]) && c[m].id < c[|c| - 1].id;
      forall x: nat | x < c'[m].j ensures !IsChild(r.tasks, c'[m].id, x) {
        if x < c[m].j {
          assert !IsChild(k.tasks, c[m].id, x);
        } else {
          assert x == i;
        }
      }
    }
  }

  /** Reclaiming the innermost task: its memory goes back, everything else stands. */
  lemma ReclaimKeeps(k: Kernel)
    requires KInv(k) && k.exec.Reaping? && k.exec.calls[|k.exec.calls| - 1].j >= MAX_TASKS
    ensures KInv(ReapTurn(k))
  {
    hide BootInv, FrameInv, DirInv, TableInv, EntryInv, LowInv, FreeAll, Keeps, ParentsInv, HeldInv, FreePrivate;
    var r, c := ReapTurn(k), k.exec.calls;
    var i := c[|c| - 1].slot;
    LoopDoneChildless(k);
    ReclaimPages(k, i);
    assert Reclaimed(k, r, i);
    ReclaimTasks(k, r, i);
    ReclaimHeld(k, r, i);
    if |c| > 1 { ReclaimCalls(k, r, i); }
  }

  lemma ReapTurnKeeps(k: Kernel)
    requires KInv(k) && Enabled(k, ReapStep)
    ensures KInv(ReapTurn(k))
  {
    hide Inv, SlotsInv, ParentsInv, HeldInv;
    var top := k.exec.calls[|k.exec.calls| - 1];
    if top.j >= MAX_TASKS {
      ReclaimKeeps(k);
    } else if !IsChild(k.tasks, top.id, top.j) {
      StepLoopKeeps(k);
    } else if k.tasks[top.j].state == Zombie {
      DescendKeeps(k);
    }
  }
}
