/** The task table, the scheduler, the app loader's progress and task_reap's cascade
    (kernel/proc/task.c, kernel/proc/loader.c) as a state machine over the paging state. */
module Tasks {
  import opened Common
  import opened Paging
  import opened PagingSteps
  import Argv

  const MAX_TASKS := 8
  const STACK_SLOT := PAGE_SIZE + 16 * 1024
  const SPAWN_STACK_PAGES := 4
  const APP_STACK_PAGES := 4
  const EXEC_BUF_SIZE := 64 * 1024

  /** The page of low memory where the staging buffer starts: the one at APP_LOAD_ADDR. */
  const EXEC_BUF_PAGE := 512

  datatype TaskState = Unused | Ready | Running | Blocked | Zombie

  /** A task slot; saved stack pointers and names are not modelled. */
  datatype Task = Task(state: TaskState, id: int, cr3: DirRef, ring3: bool, stackTop: nat, parent: int)

  /** One activation of task_reap: reaping `slot`, whose id is `id`, with its child loop at `j`. */
  datatype Reap = Reap(id: int, slot: nat, j: nat)

  /** Where the loader's `try_exec` is. `Loading` holds the directory under construction, the size of
      the program in the staging buffer, the bytes of it copied so far, the staged arguments, and how
      many pages of each kind are mapped. */
  datatype Exec =
    | Idle
    | Loading(dir: nat, size: nat, copied: seq<byte>, args: Argv.Args, code: nat, stack: nat, frame0: nat, placed: bool)
    | Waiting(id: int)
    | Reaping(calls: seq<Reap>)

  datatype Kernel = Kernel(
    pages: Pages,
    tasks: seq<Task>,
    current: nat,
    nextId: nat,
    cr3: DirRef,
    esp0: nat,
    exec: Exec)

  /** Top of slot `i`'s kernel stack, counted from the start of the stack array. */
  function StackTop(i: nat): nat { (i + 1) * STACK_SLOT }

  function CodePages(size: nat): nat { (size + PAGE_SIZE - 1) / PAGE_SIZE }

  predicate Sized(k: Kernel)
  {
    && |k.tasks| == MAX_TASKS && k.current < MAX_TASKS
    && (forall i | 0 <= i < MAX_TASKS :: k.tasks[i].cr3 == NoDir || ValidDir(k.tasks[i].cr3))
    && (k.exec.Loading? ==> k.exec.dir < MAX_DIRS && k.exec.frame0 < POOL_FRAMES)
    && (k.exec.Reaping? ==> forall r | r in k.exec.calls :: r.slot < MAX_TASKS)
  }

  ghost predicate KWf(k: Kernel) { Sized(k) && Wf(k.pages) }

  function States(tasks: seq<Task>): (s: seq<TaskState>)
    ensures |s| == |tasks| && forall i | 0 <= i < |s| :: s[i] == tasks[i].state
  {
    seq(|tasks|, i requires 0 <= i < |tasks| => tasks[i].state)
  }

  function FreeTask(tasks: seq<Task>): (r: Option<nat>)
    ensures r.Some? ==> r.value < |tasks| && tasks[r.value].state == Unused
    ensures r.None? ==> forall i | 0 <= i < |tasks| :: tasks[i].state != Unused
  {
    First(States(tasks), Unused)
  }

  // ---- creating tasks ----

  function Install(k: Kernel, q: Pages, i: nat, d: nat, ring3: bool, parent: int): (r: Kernel)
    requires KWf(k) && Wf(q) && i < MAX_TASKS && d < MAX_DIRS
    ensures KWf(r)
  {
    var top := if ring3 then StackTop(i) else k.tasks[i].stackTop;
    k.(pages := q, nextId := k.nextId + 1,
       tasks := k.tasks[i := Task(Ready, k.nextId, Pool(d), ring3 || k.tasks[i].ring3, top, parent)])
  }

  /** `task_create` (`ring3` false) and `task_create_ring3` (`ring3` true). */
  function Create(k: Kernel, ring3: bool): (r: Kernel)
    requires KWf(k)
    ensures KWf(r)
  {
    match FreeTask(k.tasks)
    case None => k
    case Some(i) =>
      match CloneDir(k.pages)
      case (_, None) => k
      case (p, Some(d)) =>
        var (q, f) := MapPrivate(p, Pool(d), TASK_PRIVATE_VADDR);
        if f.None? then k.(pages := q) else Install(k, q, i, d, ring3, -1)
  }

  /** `task_create_ring3_child`, called by the running task. */
  function Spawn(k: Kernel): (r: Kernel)
    requires KWf(k)
    ensures KWf(r)
  {
    var me := k.tasks[k.current];
    match FreeTask(k.tasks)
    case None => k
    case Some(i) =>
      if !me.ring3 || !ValidDir(me.cr3) then k else
      match CloneDir(k.pages)
      case (_, None) => k
      case (p, Some(d)) =>
        var p1 := SharePde(p, Pool(d), me.cr3, APP_LOAD_ADDR);
        var (p2, ok) := MapPages(p1, Pool(d), SPAWN_STACK_VADDR, SPAWN_STACK_PAGES);
        if !ok then k.(pages := p2) else
        var (q, f) := MapPrivate(p2, Pool(d), TASK_PRIVATE_VADDR);
        if f.None? then k.(pages := q) else Install(k, q, i, d, true, me.id)
  }

  // ---- scheduling ----

  /** The slot `step` places after `from`, that is `(from + step) % TASK_MAX_TASKS`. */
  function At(from: nat, step: nat): (r: nat)
    requires from < MAX_TASKS && step <= MAX_TASKS
    ensures r < MAX_TASKS
  { if from + step < MAX_TASKS then from + step else from + step - MAX_TASKS }

  lemma AtIsModulo(from: nat, step: nat)
    requires from < MAX_TASKS && step <= MAX_TASKS
    ensures At(from, step) == (from + step) % MAX_TASKS
  {}

  /** `pick_next`: the first READY slot after `from`, wrapping round; `from` if there is none. */
  function PickFrom(tasks: seq<Task>, from: nat, step: nat): (r: nat)
    requires |tasks| == MAX_TASKS && from < MAX_TASKS && 1 <= step <= MAX_TASKS + 1
    ensures r < MAX_TASKS
    decreases MAX_TASKS + 1 - step
  {
    if step > MAX_TASKS then from
    else if tasks[At(from, step)].state == Ready then At(from, step)
    else PickFrom(tasks, from, step + 1)
  }

  function PickNext(tasks: seq<Task>, from: nat): (r: nat)
    requires |tasks| == MAX_TASKS && from < MAX_TASKS
    ensures r < MAX_TASKS
  {
    PickFrom(tasks, from, 1)
  }

  function SetState(tasks: seq<Task>, i: nat, s: TaskState): (r: seq<Task>)
    requires i < |tasks|
    ensures |r| == |tasks|
  {
    tasks[i := tasks[i].(state := s)]
  }

  /** `schedule`, reached from task_yield and the timer tick. */
  function Schedule(k: Kernel): (r: Kernel)
    requires KWf(k)
    ensures KWf(r)
  {
    var next := PickNext(k.tasks, k.current);
    if next == k.current then k
    else
      var t1 := if k.tasks[k.current].state == Running then SetState(k.tasks, k.current, Ready) else k.tasks;
      var t2 := SetState(t1, next, Running);
      k.(tasks := t2, current := next, cr3 := t2[next].cr3,
         esp0 := if t2[next].ring3 then t2[next].stackTop else k.esp0)
  }

  /** `task_exit` by the running task. */
  function Exit(k: Kernel): (r: Kernel)
    requires KWf(k)
    ensures KWf(r)
  {
    Schedule(k.(tasks := SetState(k.tasks, k.current, Zombie)))
  }

  // ---- the loader ----

  /** Byte `at` of the staging buffer. */
  function StagedByte(low: seq<seq<byte>>, at: nat): byte
    requires |low| == PAGE_ENTRIES && at < EXEC_BUF_SIZE
    requires forall n | 0 <= n < PAGE_ENTRIES :: |low[n]| == PAGE_SIZE
  {
    low[EXEC_BUF_PAGE + at / PAGE_SIZE][at % PAGE_SIZE]
  }

  /** `load_pexe_blob`: the program is read into the staging buffer; the rest of memory stays. */
  function Stage(low: seq<seq<byte>>, blob: seq<byte>): (r: seq<seq<byte>>)
    requires |low| == PAGE_ENTRIES && forall n | 0 <= n < PAGE_ENTRIES :: |low[n]| == PAGE_SIZE
    ensures |r| == PAGE_ENTRIES && forall n | 0 <= n < PAGE_ENTRIES :: |r[n]| == PAGE_SIZE
  {
    seq(PAGE_ENTRIES, n requires 0 <= n < PAGE_ENTRIES => StagedPage(low[n], blob, n))
  }

  function StagedPage(page: seq<byte>, blob: seq<byte>, n: nat): (r: seq<byte>)
    requires |page| == PAGE_SIZE
    ensures |r| == PAGE_SIZE
  {
    seq(PAGE_SIZE, i requires 0 <= i < PAGE_SIZE =>
      var at := (n - EXEC_BUF_PAGE) * PAGE_SIZE + i;
      if n >= EXEC_BUF_PAGE && at < |blob| then blob[at] else page[i])
  }

  /** `try_exec` up to the cloned directory: the program and the arguments are staged. */
  function ExecStart(k: Kernel, blob: seq<byte>, args: Argv.Args): (r: Kernel)
    requires KWf(k)
    ensures KWf(r)
  {
    var staged := k.pages.(low := Stage(k.pages.low, blob));
    match CloneDir(staged)
    case (_, None) => k.(pages := staged)
    case (p, Some(d)) => k.(pages := p, exec := Loading(d, |blob|, [], args, 0, 0, 0, false))
  }

  /** Every failure of the loader gives the directory back. */
  function ExecAbort(k: Kernel, p: Pages): (r: Kernel)
    requires KWf(k) && Wf(p) && k.exec.Loading?
    ensures KWf(r)
  {
    k.(pages := FreeAll(p, k.exec.dir), exec := Idle)
  }

  /** Page `page` of a program: its bytes, and zeros after its end. */
  function Chunk(code: seq<byte>, page: nat): (c: seq<byte>)
    requires page * PAGE_SIZE <= |code|
    ensures |c| == PAGE_SIZE
  {
    seq(PAGE_SIZE, i requires 0 <= i < PAGE_SIZE =>
      if page * PAGE_SIZE + i < |code| then code[page * PAGE_SIZE + i] else 0)
  }

  /** The bytes that the copy of page `n` takes from the staging buffer. */
  function Share(low: seq<seq<byte>>, size: nat, n: nat): (r: seq<byte>)
    requires |low| == PAGE_ENTRIES && (forall n | 0 <= n < PAGE_ENTRIES :: |low[n]| == PAGE_SIZE)
    requires n * PAGE_SIZE < size <= EXEC_BUF_SIZE
    ensures |r| <= PAGE_SIZE
  {
    var rest := size - n * PAGE_SIZE;
    low[EXEC_BUF_PAGE + n][..if rest < PAGE_SIZE then rest else PAGE_SIZE]
  }

  /** One turn of the loop that copies the staging buffer into fresh frames at APP_LOAD_ADDR. */
  function ExecCodePage(k: Kernel): (r: Kernel)
    requires KWf(k) && k.exec.Loading? && k.exec.code < CodePages(k.exec.size) && k.exec.size <= EXEC_BUF_SIZE
    ensures KWf(r)
  {
    var n := k.exec.code;
    var (p, f) := MapPrivate(k.pages, Pool(k.exec.dir), APP_LOAD_ADDR + n * PAGE_SIZE);
    if f.None? then ExecAbort(k, p)
    else
      var bytes := Share(p.low, k.exec.size, n);
      k.(pages := p.(ram := p.ram[f.value := Chunk(bytes, 0)]),
         exec := k.exec.(code := n + 1, copied := k.exec.copied + bytes))
  }

  /** One turn of the loop that maps the app's stack. */
  function ExecStackPage(k: Kernel): (r: Kernel)
    requires KWf(k) && k.exec.Loading? && k.exec.stack < APP_STACK_PAGES
    ensures KWf(r)
  {
    var n := k.exec.stack;
    var (p, f) := MapPrivate(k.pages, Pool(k.exec.dir), APP_STACK_VADDR + n * PAGE_SIZE);
    if f.None? then ExecAbort(k, p)
    else k.(pages := p, exec := k.exec.(stack := n + 1, frame0 := if n == 0 then f.value else k.exec.frame0))
  }

  /** The staged strings and the argv array go to the bottom stack page. */
  function ExecArgs(k: Kernel): (r: Kernel)
    requires KWf(k) && k.exec.Loading? && Argv.StagesInBounds(k.exec.args)
    ensures KWf(r)
  {
    var page := Argv.Place(k.pages.ram[k.exec.frame0], k.exec.args, Argv.Count(k.exec.args));
    k.(pages := k.pages.(ram := k.pages.ram[k.exec.frame0 := page]), exec := k.exec.(placed := true))
  }

  /** `task_create_app_ring3` on the loaded directory; on failure the loader cleans up. */
  function ExecCreate(k: Kernel): (r: Kernel)
    requires KWf(k) && k.exec.Loading?
    ensures KWf(r)
  {
    match FreeTask(k.tasks)
    case None => ExecAbort(k, k.pages)
    case Some(i) =>
      var (p, f) := MapPrivate(k.pages, Pool(k.exec.dir), TASK_PRIVATE_VADDR);
      if f.None? then ExecAbort(k, p)
      else Install(k, p, i, k.exec.dir, true, -1).(exec := Waiting(k.nextId))
  }

  // ---- reaping ----

  function Ids(tasks: seq<Task>): (s: seq<int>)
    ensures |s| == |tasks| && forall i | 0 <= i < |s| :: s[i] == tasks[i].id
  {
    seq(|tasks|, i requires 0 <= i < |tasks| => tasks[i].id)
  }

  /** `task_is_zombie`. */
  predicate IsZombie(tasks: seq<Task>, id: int)
  {
    var i := First(Ids(tasks), id);
    i.Some? && tasks[i.value].state == Zombie
  }

  function ZombieFrom(tasks: seq<Task>, id: int, from: nat): (r: Option<nat>)
    requires from <= |tasks|
    ensures r.Some? ==> r.value < |tasks| && tasks[r.value].id == id && tasks[r.value].state == Zombie
    ensures r.None? ==> forall i | from <= i < |tasks| :: !(tasks[i].id == id && tasks[i].state == Zombie)
    decreases |tasks| - from
  {
    if from == |tasks| then None
    else if tasks[from].id == id && tasks[from].state == Zombie then Some(from)
    else ZombieFrom(tasks, id, from + 1)
  }

  /** Entering task_reap(id): a new activation, or nothing when no zombie has that id. */
  function Enter(tasks: seq<Task>, id: int, stack: seq<Reap>): (r: seq<Reap>)
    requires |tasks| == MAX_TASKS
    ensures (forall x | x in stack :: x.slot < MAX_TASKS) ==> forall x | x in r :: x.slot < MAX_TASKS
  {
    match ZombieFrom(tasks, id, 0)
    case None => Return(stack)
    case Some(i) => stack + [Reap(id, i, 0)]
  }

  /** Returning to the caller's child loop, which moves on to the next slot. */
  function Return(stack: seq<Reap>): (r: seq<Reap>)
    ensures |r| == |stack|
    ensures (forall x | x in stack :: x.slot < MAX_TASKS) ==> forall x | x in r :: x.slot < MAX_TASKS
  {
    if stack == [] then []
    else
      var top := stack[|stack| - 1];
      stack[..|stack| - 1] + [top.(j := top.j + 1)]
  }

  function WithStack(stack: seq<Reap>): Exec { if stack == [] then Idle else Reaping(stack) }

  /** The loader sees its app finish and calls task_reap on it. */
  function ExecObserve(k: Kernel): (r: Kernel)
    requires KWf(k) && k.exec.Waiting?
    ensures KWf(r)
  {
    if !IsZombie(k.tasks, k.exec.id) then k
    else k.(exec := WithStack(Enter(k.tasks, k.exec.id, [])))
  }

  /** `tasks[j]` is a child of `id` that has not been reaped. */
  predicate IsChild(tasks: seq<Task>, id: int, j: nat)
  {
    j < |tasks| && tasks[j].parent == id && tasks[j].state != Unused
  }

  const FREE_TASK := Task(Unused, -1, NoDir, false, 0, -1)

  /** One turn of the innermost task_reap: step its child loop, wait, descend, or reclaim. */
  function ReapTurn(k: Kernel): (r: Kernel)
    requires KWf(k) && k.exec.Reaping? && k.exec.calls != []
    ensures KWf(r)
  {
    var stack := k.exec.calls;
    var rest, top := stack[..|stack| - 1], stack[|stack| - 1];
    if top.j < MAX_TASKS then
      if !IsChild(k.tasks, top.id, top.j) then k.(exec := Reaping(Return(stack)))
      else if k.tasks[top.j].state != Zombie then k // task_yield: other steps run here
      else k.(exec := Reaping(Enter(k.tasks, k.tasks[top.j].id, stack)))
    else Reclaim(k, top.slot).(exec := WithStack(Return(rest)))
  }

  /** The end of task_reap: free the private pages, the directory and the slot. */
  function Reclaim(k: Kernel, i: nat): (r: Kernel)
    requires KWf(k) && i < MAX_TASKS
    ensures KWf(r)
  {
    var d := k.tasks[i].cr3;
    var p := if d == NoDir then k.pages else FreeDir(FreePrivate(k.pages, d, PAGE_ENTRIES), d);
    k.(pages := p, tasks := k.tasks[i := FREE_TASK])
  }

  // ---- user code ----

  /** The running ring-3 task stores one byte; the store takes effect if its page tables allow it. */
  function Store(k: Kernel, vaddr: nat, b: byte): (r: Kernel)
    requires KWf(k) && Slot(vaddr) < PAGE_ENTRIES
    ensures KWf(r)
  {
    var me := k.tasks[k.current];
    if !me.ring3 || !ValidDir(me.cr3) then k
    else
      match Translate(k.pages, me.cr3, vaddr)
      case None => k
      case Some(a) =>
        if !a.user || !a.rw || !Modelled(a.frame) then k
        else k.(pages := Poke(k.pages, a.frame, vaddr % PAGE_SIZE, b))
  }

  // ---- runs ----

  datatype Step =
    | CreateStep(ring3: bool)
    | SpawnStep
    | ScheduleStep
    | ExitStep
    | ExecStartStep(blob: seq<byte>, args: Argv.Args)
    | ExecCodeStep
    | ExecStackStep
    | ExecArgsStep
    | ExecCreateStep
    | ExecObserveStep
    | ReapStep
    | StoreStep(vaddr: nat, b: byte)

  /** When the kernel takes a step: the loader runs one app at a time, in order, and the boot
      task never exits. */
  ghost predicate Enabled(k: Kernel, s: Step)
    requires Sized(k)
  {
    match s
    case CreateStep(_) => true
    case SpawnStep => true
    case ScheduleStep => true
    case ExitStep => k.current != 0
    case ExecStartStep(blob, args) =>
      k.exec.Idle? && 0 < |blob| <= EXEC_BUF_SIZE && Argv.StagesInBounds(args)
    case ExecCodeStep => k.exec.Loading? && k.exec.size <= EXEC_BUF_SIZE && k.exec.code < CodePages(k.exec.size)
    case ExecStackStep => k.exec.Loading? && k.exec.code == CodePages(k.exec.size) && k.exec.stack < APP_STACK_PAGES
    case ExecArgsStep => k.exec.Loading? && k.exec.stack == APP_STACK_PAGES && !k.exec.placed
      && Argv.StagesInBounds(k.exec.args)
    case ExecCreateStep => k.exec.Loading? && k.exec.placed
    case ExecObserveStep => k.exec.Waiting?
    case ReapStep => k.exec.Reaping? && k.exec.calls != []
    case StoreStep(vaddr, _) => Slot(vaddr) < PAGE_ENTRIES
  }

  function Next(k: Kernel, s: Step): (r: Kernel)
    requires KWf(k) && Enabled(k, s)
    ensures KWf(r)
  {
    match s
    case CreateStep(ring3) => Create(k, ring3)
    case SpawnStep => Spawn(k)
    case ScheduleStep => Schedule(k)
    case ExitStep => Exit(k)
    case ExecStartStep(blob, args) => ExecStart(k, blob, args)
    case ExecCodeStep => ExecCodePage(k)
    case ExecStackStep => ExecStackPage(k)
    case ExecArgsStep => ExecArgs(k)
    case ExecCreateStep => ExecCreate(k)
    case ExecObserveStep => ExecObserve(k)
    case ReapStep => ReapTurn(k)
    case StoreStep(vaddr, b) => Store(k, vaddr, b)
  }
}
