/** task.c and the loader's loops as they run: the static task table, `current_task`,
    `next_task_id` and the loaded directory, updated in place. Each method takes the step of the
    same name in Tasks. */
module TaskTable {
  import opened Common
  import opened Paging
  import opened PagingSteps
  import opened Tasks
  import opened Pager
  import Argv

  class TaskTable {
    const pager: Pager
    var tasks: seq<Task>
    var current: nat
    var nextId: nat
    var cr3: DirRef
    var esp0: nat
    var exec: Exec

    ghost function Abs(): Kernel
      reads this, pager, pager.bitmap.words
    {
      Kernel(pager.Abs(), tasks, current, nextId, cr3, esp0, exec)
    }

    ghost predicate Valid()
      reads this, pager, pager.bitmap.words
    {
      KWf(Abs())
    }

    /** `task_init` on the pages that boot left. */
    constructor (pg: Pager)
      requires pg.Valid()
      modifies pg, pg.bitmap.words
      ensures Valid() && pager == pg
      ensures Abs() == Kernel(MapPrivate(old(pg.Abs()), KernelDir, TASK_PRIVATE_VADDR).0,
                              [Task(Running, 0, KernelDir, false, 0, -1)] +
                              seq(MAX_TASKS - 1, _ => Task(Unused, -1, NoDir, false, 0, 0)),
                              0, 1, KernelDir, 0, Idle)
    {
      pager := pg;
      tasks := [Task(Running, 0, KernelDir, false, 0, -1)] +
               seq(MAX_TASKS - 1, _ => Task(Unused, -1, NoDir, false, 0, 0));
      current, nextId, cr3, esp0, exec := 0, 1, KernelDir, 0, Idle;
      new;
      var _ := pg.MapPrivatePage(KernelDir, TASK_PRIVATE_VADDR);
    }

    /** The slot scan at the head of every task_create variant. */
    method FindFree() returns (r: Option<nat>)
      requires Valid()
      ensures r == FreeTask(tasks) && (r.Some? ==> r.value < MAX_TASKS)
    {
      for i := 0 to MAX_TASKS
        invariant forall j | 0 <= j < i :: tasks[j].state != Unused
      {
        if tasks[i].state == Unused {
          assert First(States(tasks), Unused) == Some(i);
          return Some(i);
        }
      }
      return None;
    }

    /** Fills a task slot in. */
    method Fill(i: nat, d: nat, ring3: bool, parent: int) returns (id: int)
      requires Valid() && i < MAX_TASKS && d < MAX_DIRS
      modifies this`tasks, this`nextId
      ensures Valid() && id == old(nextId)
      ensures Abs() == Install(old(Abs()), old(Abs()).pages, i, d, ring3, parent)
    {
      id := nextId;
      var t := tasks[i].(cr3 := Pool(d), state := Ready, id := nextId, parent := parent);
      if ring3 {
        t := t.(ring3 := true, stackTop := StackTop(i));
      }
      nextId := nextId + 1;
      tasks := tasks[i := t];
    }

    /** `task_create` and `task_create_ring3`; -1 means no task was made. */
    method Create(ring3: bool) returns (id: int)
      requires Valid()
      modifies this`tasks, this`nextId, pager, pager.bitmap.words
      ensures Valid() && Abs() == Tasks.Create(old(Abs()), ring3)
      ensures id == if nextId == old(nextId) then -1 else old(nextId)
    {
      hide Wf, MapPrivate;
      var i := FindFree();
      if i.None? {
        return -1;
      }
      var d := pager.CloneDirectory();
      if d.None? {
        return -1;
      }
      var f := pager.MapPrivatePage(Pool(d.value), TASK_PRIVATE_VADDR);
      if f.None? {
        return -1;
      }
      id := Fill(i.value, d.value, ring3, -1);
    }

    /** The stack loop of `task_create_ring3_child`. */
    method MapStack(d: nat, vaddr: nat, n: nat) returns (ok: bool)
      requires pager.Valid() && d < MAX_DIRS && Slot(vaddr + n * PAGE_SIZE) < PAGE_ENTRIES
      modifies pager, pager.bitmap.words
      ensures pager.Valid()
      ensures pager.Abs() == MapPages(old(pager.Abs()), Pool(d), vaddr, n).0
      ensures ok == MapPages(old(pager.Abs()), Pool(d), vaddr, n).1
    {
      hide Wf, MapPrivate;
      for p := 0 to n
        invariant pager.Valid() && MapPages(old(pager.Abs()), Pool(d), vaddr, p) == (pager.Abs(), true)
      {
        SlotsGrow(vaddr, p, n);
        var f := pager.MapPrivatePage(Pool(d), vaddr + p * PAGE_SIZE);
        if f.None? {
          StaysFailed(old(pager.Abs()), Pool(d), vaddr, p + 1, n);
          return false;
        }
      }
      return true;
    }

    /** `task_create_ring3_child`. */
    method Spawn() returns (id: int)
      requires Valid()
      modifies this`tasks, this`nextId, pager, pager.bitmap.words
      ensures Valid() && Abs() == Tasks.Spawn(old(Abs()))
      ensures id == if nextId == old(nextId) then -1 else old(nextId)
    {
      hide Wf, MapPrivate, MapPages;
      var i := FindFree();
      if i.None? {
        return -1;
      }
      var me := tasks[current];
      if !me.ring3 || me.cr3 == NoDir {
        return -1;
      }
      var d := pager.CloneDirectory();
      if d.None? {
        return -1;
      }
      pager.Share(Pool(d.value), me.cr3, APP_LOAD_ADDR);
      var ok := MapStack(d.value, SPAWN_STACK_VADDR, SPAWN_STACK_PAGES);
      if !ok {
        return -1;
      }
      var f := pager.MapPrivatePage(Pool(d.value), TASK_PRIVATE_VADDR);
      if f.None? {
        return -1;
      }
      id := Fill(i.value, d.value, true, me.id);
    }

    /** `pick_next`. */
    method PickNext(from: nat) returns (r: nat)
      requires Valid() && from < MAX_TASKS
      ensures r == Tasks.PickNext(tasks, from)
    {
      for step := 1 to MAX_TASKS + 1
        invariant Tasks.PickNext(tasks, from) == PickFrom(tasks, from, step)
      {
        AtIsModulo(from, step);
        if tasks[(from + step) % MAX_TASKS].state == Ready {
          return (from + step) % MAX_TASKS;
        }
      }
      return from;
    }

    /** `schedule`; the switch of stacks itself is the processor's. */
    method Schedule()
      requires Valid()
      modifies this`tasks, this`current, this`cr3, this`esp0
      ensures Valid() && Abs() == Tasks.Schedule(old(Abs()))
    {
      hide Tasks.PickNext, Paging.Wf;
      var before := current;
      var next := PickNext(before);
      if next == before {
        return;
      }
      if tasks[before].state == Running {
        tasks := SetState(tasks, before, Ready);
      }
      tasks := SetState(tasks, next, Running);
      current := next;
      if tasks[next].cr3 != cr3 {
        cr3 := tasks[next].cr3;
      }
      if tasks[next].ring3 {
        esp0 := tasks[next].stackTop;
      }
    }

    /** `task_exit`. */
    method Exit()
      requires Valid()
      modifies this`tasks, this`current, this`cr3, this`esp0
      ensures Valid() && Abs() == Tasks.Exit(old(Abs()))
    {
      tasks := SetState(tasks, current, Zombie);
      Schedule();
    }

    // ---- the loader ----

    method Release(d: DirRef)
      requires Valid() && ValidDir(d)
      modifies pager, pager.bitmap.words
      ensures pager.Valid() && pager.Abs() == FreeDir(FreePrivate(old(pager.Abs()), d, PAGE_ENTRIES), d)
    {
      pager.FreePrivatePages(d);
      pager.FreeDirectory(d);
    }

    /** `load_pexe_blob`: reads the program into the staging buffer. */
    method StageBlob(blob: seq<byte>)
      requires pager.Valid() && |blob| <= EXEC_BUF_SIZE
      modifies pager`low
      ensures pager.Valid() && pager.low == Stage(old(pager.low), blob)
    {
      StageNone(pager.low);
      for i := 0 to |blob|
        invariant pager.Valid() && pager.low == Stage(old(pager.low), blob[..i])
      {
        StageNext(old(pager.low), blob, i);
        var n := EXEC_BUF_PAGE + i / PAGE_SIZE;
        pager.low := pager.low[n := SetByte(pager.low[n], i % PAGE_SIZE, blob[i])];
      }
      assert blob[..|blob|] == blob;
    }

    /** `try_exec` up to the cloned directory. */
    method ExecStart(blob: seq<byte>, args: Argv.Args)
      requires Valid() && |blob| <= EXEC_BUF_SIZE
      modifies this`exec, pager
      ensures Valid() && Abs() == Tasks.ExecStart(old(Abs()), blob, args)
    {
      hide Stage, Wf;
      StageBlob(blob);
      var d := pager.CloneDirectory();
      if d.Some? {
        exec := Loading(d.value, |blob|, [], args, 0, 0, 0, false);
      }
    }

    /** One turn of the code loop: map a page, then copy its share of the program byte by byte. */
    method ExecCodePage()
      requires Valid() && exec.Loading? && exec.code < CodePages(exec.size) && exec.size <= EXEC_BUF_SIZE
      modifies this`exec, pager, pager.bitmap.words
      ensures Valid() && Abs() == Tasks.ExecCodePage(old(Abs()))
    {
      hide MapPrivate, FreePrivate, Chunk;
      var n := exec.code;
      var f := pager.MapPrivatePage(Pool(exec.dir), APP_LOAD_ADDR + n * PAGE_SIZE);
      if f.None? {
        Release(Pool(exec.dir));
        exec := Idle;
        return;
      }
      FreshFrame(old(pager.Abs()), Pool(exec.dir), APP_LOAD_ADDR + n * PAGE_SIZE);
      var bytes := CopyChunk(f.value, exec.size, n);
      exec := exec.(code := n + 1, copied := exec.copied + bytes);
    }

    /** Copies page `n` of the staging buffer into blank frame `f`. */
    method CopyChunk(f: nat, size: nat, n: nat) returns (bytes: seq<byte>)
      requires pager.Valid() && f < POOL_FRAMES && pager.ram[f] == ZeroFrame()
      requires n * PAGE_SIZE < size <= EXEC_BUF_SIZE
      modifies pager`ram
      ensures pager.Valid() && bytes == Share(pager.low, size, n)
      ensures pager.Abs() == old(pager.Abs()).(ram := old(pager.ram)[f := Chunk(bytes, 0)])
    {
      var remaining := size - n * PAGE_SIZE;
      var chunk := if remaining < PAGE_SIZE then remaining else PAGE_SIZE;
      var page := pager.low[EXEC_BUF_PAGE + n];
      for i := 0 to chunk
        invariant |pager.ram| == POOL_FRAMES && |pager.ram[f]| == PAGE_SIZE
        invariant forall g | 0 <= g < POOL_FRAMES && g != f :: pager.ram[g] == old(pager.ram)[g]
        invariant forall j | 0 <= j < PAGE_SIZE :: pager.ram[f][j] == if j < i then page[j] else 0
      {
        pager.ram := pager.ram[f := SetByte(pager.ram[f], i, page[i])];
      }
      bytes := page[..chunk];
      assert pager.ram[f] == Chunk(bytes, 0);
      assert pager.ram == old(pager.ram)[f := Chunk(bytes, 0)];
    }

    /** One turn of the stack loop. */
    method ExecStackPage()
      requires Valid() && exec.Loading? && exec.stack < APP_STACK_PAGES
      modifies this`exec, pager, pager.bitmap.words
      ensures Valid() && Abs() == Tasks.ExecStackPage(old(Abs()))
    {
      hide Wf, MapPrivate, FreePrivate;
      var n := exec.stack;
      var f := pager.MapPrivatePage(Pool(exec.dir), APP_STACK_VADDR + n * PAGE_SIZE);
      if f.None? {
        Release(Pool(exec.dir));
        exec := Idle;
        return;
      }
      FreshFrame(old(pager.Abs()), Pool(exec.dir), APP_STACK_VADDR + n * PAGE_SIZE);
      exec := exec.(stack := n + 1, frame0 := if n == 0 then f.value else exec.frame0);
    }

    /** The argument loop: each string with its terminator, then its pointer. */
    method ExecArgs()
      requires Valid() && exec.Loading? && Argv.StagesInBounds(exec.args)
      modifies this`exec, pager`ram
      ensures Valid() && Abs() == Tasks.ExecArgs(old(Abs()))
    {
      hide Argv.PlaceOne, Argv.StagesInBounds, Argv.Count;
      var f, args := exec.frame0, exec.args;
      for i := 0 to Argv.Count(args)
        invariant pager.Valid() && exec == old(exec)
        invariant pager.ram == old(pager.ram)[f := Argv.Place(old(pager.ram)[f], args, i)]
      {
        PlaceArg(f, args, i);
      }
      exec := exec.(placed := true);
    }

    /** Argument `m`: its bytes and terminator one by one, then the four bytes of its pointer. */
    method PlaceArg(f: nat, args: Argv.Args, m: nat)
      requires pager.Valid() && f < POOL_FRAMES && Argv.StagesInBounds(args) && m < Argv.Count(args)
      modifies pager`ram
      ensures pager.Valid()
      ensures pager.ram == old(pager.ram)[f := Argv.PlaceOne(old(pager.ram)[f], args, m)]
    {
      var off, len := Argv.Off(args, m), Argv.Len(args, m);
      assert off + len < Argv.AREA;
      StoreBytes(f, off, args[m][..len] + [0]);
      StoreBytes(f, Argv.AREA + 4 * m, Word(APP_STACK_VADDR + off));
    }

    method StoreBytes(f: nat, at: nat, bytes: seq<byte>)
      requires pager.Valid() && f < POOL_FRAMES && at + |bytes| <= PAGE_SIZE
      modifies pager`ram
      ensures pager.Valid() && pager.ram == old(pager.ram)[f := Overlay(old(pager.ram)[f], at, bytes)]
    {
      ghost var before := pager.ram[f];
      for j := 0 to |bytes|
        invariant |pager.ram| == POOL_FRAMES && |pager.ram[f]| == PAGE_SIZE
        invariant forall g | 0 <= g < POOL_FRAMES && g != f :: pager.ram[g] == old(pager.ram)[g]
        invariant forall x | 0 <= x < PAGE_SIZE ::
                    pager.ram[f][x] == if at <= x < at + j then bytes[x - at] else before[x]
      {
        pager.ram := pager.ram[f := SetByte(pager.ram[f], at + j, bytes[j])];
      }
      forall x | 0 <= x < PAGE_SIZE ensures pager.ram[f][x] == Overlay(before, at, bytes)[x] {
        if at <= x < at + |bytes| {
          assert Overlay(before, at, bytes)[at..at + |bytes|][x - at] == bytes[x - at];
        }
      }
      assert pager.ram[f] == Overlay(before, at, bytes);
      assert pager.ram == old(pager.ram)[f := Overlay(before, at, bytes)];
    }

    /** `task_create_app_ring3` and what `try_exec` does about its result. */
    method ExecCreate()
      requires Valid() && exec.Loading?
      modifies this`exec, this`tasks, this`nextId, pager, pager.bitmap.words
      ensures Valid() && Abs() == Tasks.ExecCreate(old(Abs()))
    {
      hide Wf, MapPrivate, FreePrivate;
      var i := FindFree();
      if i.Some? {
        var f := pager.MapPrivatePage(Pool(exec.dir), TASK_PRIVATE_VADDR);
        if f.Some? {
          var id := Fill(i.value, exec.dir, true, -1);
          exec := Waiting(id);
          return;
        }
      }
      Release(Pool(exec.dir));
      exec := Idle;
    }

    // ---- reaping ----

    /** `task_is_zombie`. */
    method IsZombie(id: int) returns (b: bool)
      requires Valid()
      ensures b == Tasks.IsZombie(tasks, id)
    {
      for i := 0 to MAX_TASKS
        invariant forall j | 0 <= j < i :: tasks[j].id != id
      {
        if tasks[i].id == id {
          assert First(Ids(tasks), id) == Some(i);
          return tasks[i].state == Zombie;
        }
      }
      return false;
    }

    /** The outer loop of `task_reap`: find the zombie, if any, and start its child loop. */
    method Enter(id: int, calls: seq<Reap>) returns (r: seq<Reap>)
      requires Valid()
      ensures r == Tasks.Enter(tasks, id, calls)
    {
      for i := 0 to MAX_TASKS
        invariant ZombieFrom(tasks, id, 0) == ZombieFrom(tasks, id, i)
      {
        if tasks[i].id == id && tasks[i].state == Zombie {
          return calls + [Reap(id, i, 0)];
        }
      }
      return Return(calls);
    }

    /** The loader's wait loop: once its app is a zombie, `task_reap` starts. */
    method ExecObserve()
      requires Valid() && exec.Waiting?
      modifies this`exec
      ensures Valid() && Abs() == Tasks.ExecObserve(old(Abs()))
    {
      var done := IsZombie(exec.id);
      if done {
        var calls := Enter(exec.id, []);
        exec := WithStack(calls);
      }
    }

    /** The end of `task_reap`. */
    method Reclaim(i: nat)
      requires Valid() && i < MAX_TASKS
      modifies this`tasks, pager, pager.bitmap.words
      ensures Valid() && Abs() == Tasks.Reclaim(old(Abs()), i)
    {
      if tasks[i].cr3 != NoDir {
        Release(tasks[i].cr3);
      }
      tasks := tasks[i := FREE_TASK];
    }

    /** `task_reap` between two yields. */
    method ReapTurn()
      requires Valid() && exec.Reaping? && exec.calls != []
      modifies this`exec, this`tasks, pager, pager.bitmap.words
      ensures Valid() && Abs() == Tasks.ReapTurn(old(Abs()))
    {
      hide Wf, Tasks.Reclaim;
      var calls := exec.calls;
      var top := calls[|calls| - 1];
      assert top in calls;
      if top.j >= MAX_TASKS {
        Reclaim(top.slot);
        exec := WithStack(Return(calls[..|calls| - 1]));
      } else if !IsChild(tasks, top.id, top.j) {
        exec := Reaping(Return(calls));
      } else if tasks[top.j].state == Zombie {
        var next := Enter(tasks[top.j].id, calls);
        exec := Reaping(next);
      }
    }
  }

  lemma StageNone(low: seq<seq<byte>>)
    requires |low| == PAGE_ENTRIES && forall n | 0 <= n < PAGE_ENTRIES :: |low[n]| == PAGE_SIZE
    ensures Stage(low, []) == low
  {
    assert forall n | 0 <= n < PAGE_ENTRIES :: StagedPage(low[n], [], n) == low[n];
  }

  /** Staging one byte more sets that byte. */
  lemma StageNext(low: seq<seq<byte>>, blob: seq<byte>, i: nat)
    requires |low| == PAGE_ENTRIES && forall n | 0 <= n < PAGE_ENTRIES :: |low[n]| == PAGE_SIZE
    requires i < |blob| <= EXEC_BUF_SIZE
    ensures
      var was, n := Stage(low, blob[..i]), EXEC_BUF_PAGE + i / PAGE_SIZE;
      n < PAGE_ENTRIES && Stage(low, blob[..i + 1]) == was[n := SetByte(was[n], i % PAGE_SIZE, blob[i])]
  {
    var was, now, n := Stage(low, blob[..i]), Stage(low, blob[..i + 1]), EXEC_BUF_PAGE + i / PAGE_SIZE;
    forall m: nat, j: nat | m < PAGE_ENTRIES && j < PAGE_SIZE
      ensures now[m][j] == was[n := SetByte(was[n], i % PAGE_SIZE, blob[i])][m][j]
    {
      assert (m - EXEC_BUF_PAGE) * PAGE_SIZE + j == i <==> m == n && j == i % PAGE_SIZE;
    }
    forall m | 0 <= m < PAGE_ENTRIES ensures now[m] == was[n := SetByte(was[n], i % PAGE_SIZE, blob[i])][m] {}
  }

  /** The frame `paging_map_private_page` returns is blank. */
  lemma FreshFrame(p: Pages, d: DirRef, vaddr: nat)
    requires Wf(p) && ValidDir(d) && Slot(vaddr) < PAGE_ENTRIES
    ensures
      var (q, f) := MapPrivate(p, d, vaddr);
      f.Some? ==> f.value < POOL_FRAMES && q.ram[f.value] == ZeroFrame()
  {}

  lemma SlotsGrow(vaddr: nat, p: nat, n: nat)
    requires p < n && Slot(vaddr + n * PAGE_SIZE) < PAGE_ENTRIES
    ensures Slot(vaddr + p * PAGE_SIZE) < PAGE_ENTRIES && Slot(vaddr + (p + 1) * PAGE_SIZE) < PAGE_ENTRIES
  {
    assert vaddr + (p + 1) * PAGE_SIZE <= vaddr + n * PAGE_SIZE;
  }

  /** Once a page cannot be mapped the loop's result does not change. */
  lemma {:induction false} StaysFailed(p: Pages, d: DirRef, vaddr: nat, m: nat, n: nat)
    requires Wf(p) && ValidDir(d) && m <= n && Slot(vaddr + n * PAGE_SIZE) < PAGE_ENTRIES
    requires Slot(vaddr + m * PAGE_SIZE) < PAGE_ENTRIES && !MapPages(p, d, vaddr, m).1
    ensures MapPages(p, d, vaddr, n) == MapPages(p, d, vaddr, m)
    decreases n
  {
    hide Wf, MapPrivate;
    if m < n {
      SlotsGrow(vaddr, n - 1, n);
      StaysFailed(p, d, vaddr, m, n - 1);
    }
  }
}
