/** Page directories, private page tables and pool frames (kernel/arch/x86/paging.c,
    kernel/mem/pmm.c) as one value, with the functions that the C routines compute. */
module Paging {
  import opened Common

  const PAGE_SIZE := 4096
  const PAGE_ENTRIES := 1024
  const SLOT_SPAN := 0x400000
  const POOL_START := 0x02000000
  const POOL_END := 0x04000000
  const POOL_FRAMES := 8192
  const BOOT_TABLES := 32
  const MAX_DIRS := 8
  const MAX_TABLES := 20

  const APP_LOAD_ADDR := 0x200000
  const APP_STACK_VADDR := 0x210000
  const TASK_PRIVATE_VADDR := 0x40000000
  const SPAWN_STACK_VADDR := 0x50000000

  /** The directory slots those addresses fall in: 0, 256 and 320. */
  const APP_SLOT := 0
  const PRIVATE_SLOT := 256
  const SPAWN_SLOT := 320

  /** Which static page table an entry's address denotes. */
  datatype TableRef = Boot(b: nat) | Private(t: nat)

  /** Which static page directory an address denotes; `NoDir` is address 0. */
  datatype DirRef = NoDir | KernelDir | Pool(d: nat)

  datatype Pde = Pde(table: TableRef, present: bool, rw: bool, user: bool)
  datatype Pte = Pte(frame: nat, present: bool, rw: bool, user: bool)

  const ZERO_PDE := Pde(Boot(0), false, false, false)
  const ZERO_PTE := Pte(0, false, false, false)

  /** The paging state. `ram` is the frame pool, `low` the first 4 MB of memory: the kernel image and,
      from APP_LOAD_ADDR on, the loader's staging buffer. */
  datatype Pages = Pages(
    kdir: seq<Pde>,
    dirs: seq<seq<Pde>>,
    dirUsed: seq<bool>,
    boot: seq<seq<Pte>>,
    tables: seq<seq<Pte>>,
    owner: seq<DirRef>,
    bits: seq<bool>,
    ram: seq<seq<byte>>,
    low: seq<seq<byte>>)

  function Slot(vaddr: nat): nat { vaddr / SLOT_SPAN }

  function Index(vaddr: nat): (i: nat)
    ensures i < PAGE_ENTRIES
  { (vaddr / PAGE_SIZE) % PAGE_ENTRIES }

  predicate InPool(addr: nat) { POOL_START <= addr < POOL_END }

  function FrameAddr(f: nat): nat { POOL_START + f * PAGE_SIZE }

  predicate ValidDir(d: DirRef) { d.KernelDir? || (d.Pool? && d.d < MAX_DIRS) }

  predicate ValidPde(e: Pde)
  {
    match e.table
    case Boot(b) => b < BOOT_TABLES
    case Private(t) => t < MAX_TABLES
  }

  /** Sizes of the static arrays, and every stored reference denotes one of them. */
  ghost predicate Wf(p: Pages)
  {
    && |p.kdir| == PAGE_ENTRIES && |p.dirs| == MAX_DIRS && |p.dirUsed| == MAX_DIRS
    && |p.boot| == BOOT_TABLES && |p.tables| == MAX_TABLES && |p.owner| == MAX_TABLES
    && |p.bits| == POOL_FRAMES && |p.ram| == POOL_FRAMES && |p.low| == PAGE_ENTRIES
    && (forall d | 0 <= d < MAX_DIRS :: |p.dirs[d]| == PAGE_ENTRIES)
    && (forall b | 0 <= b < BOOT_TABLES :: |p.boot[b]| == PAGE_ENTRIES)
    && (forall t | 0 <= t < MAX_TABLES :: |p.tables[t]| == PAGE_ENTRIES)
    && (forall f | 0 <= f < POOL_FRAMES :: |p.ram[f]| == PAGE_SIZE)
    && (forall n | 0 <= n < PAGE_ENTRIES :: |p.low[n]| == PAGE_SIZE)
    && (forall s | 0 <= s < PAGE_ENTRIES :: ValidPde(p.kdir[s]))
    && (forall d, s | 0 <= d < MAX_DIRS && 0 <= s < PAGE_ENTRIES :: ValidPde(p.dirs[d][s]))
  }

  function Dir(p: Pages, d: DirRef): (r: seq<Pde>)
    requires Wf(p) && ValidDir(d)
    ensures |r| == PAGE_ENTRIES
  {
    if d.KernelDir? then p.kdir else p.dirs[d.d]
  }

  function SetPde(p: Pages, d: DirRef, s: nat, e: Pde): (r: Pages)
    requires Wf(p) && ValidDir(d) && s < PAGE_ENTRIES && ValidPde(e)
    ensures Wf(r)
  {
    if d.KernelDir? then p.(kdir := p.kdir[s := e])
    else p.(dirs := p.dirs[d.d := p.dirs[d.d][s := e]])
  }

  function Table(p: Pages, r: TableRef): (t: seq<Pte>)
    requires Wf(p) && ValidPde(Pde(r, true, true, true))
    ensures |t| == PAGE_ENTRIES
  {
    match r
    case Boot(b) => p.boot[b]
    case Private(t) => p.tables[t]
  }

  // ---- the frame pool ----

  function ZeroFrame(): (z: seq<byte>)
    ensures |z| == PAGE_SIZE && forall i | 0 <= i < PAGE_SIZE :: z[i] == 0
  {
    seq(PAGE_SIZE, _ => 0)
  }

  /** `pmm_alloc_frame`: the first clear bit is set and its frame zeroed. */
  function AllocFrame(p: Pages): (r: (Pages, Option<nat>))
    requires Wf(p)
    ensures Wf(r.0)
  {
    match First(p.bits, false)
    case None => (p, None)
    case Some(f) => (p.(bits := p.bits[f := true], ram := p.ram[f := ZeroFrame()]), Some(f))
  }

  /** `pmm_free_frame`: addresses outside the pool are ignored. */
  function FreeFrame(bits: seq<bool>, addr: nat): (r: seq<bool>)
    requires |bits| == POOL_FRAMES
    ensures |r| == POOL_FRAMES
  {
    if InPool(addr) then bits[(addr - POOL_START) / PAGE_SIZE := false] else bits
  }

  // ---- directories ----

  /** `paging_clone_kernel_directory`. */
  function CloneDir(p: Pages): (r: (Pages, Option<nat>))
    requires Wf(p)
    ensures Wf(r.0)
    ensures r.1.Some? ==> r.1.value < MAX_DIRS
  {
    match First(p.dirUsed, false)
    case None => (p, None)
    case Some(d) => (p.(dirUsed := p.dirUsed[d := true], dirs := p.dirs[d := p.kdir]), Some(d))
  }

  /** `paging_free_directory`: only a pool directory has a slot to give back. */
  function FreeDir(p: Pages, d: DirRef): (r: Pages)
    requires Wf(p) && ValidDir(d)
    ensures Wf(r)
  {
    if d.Pool? then p.(dirUsed := p.dirUsed[d.d := false]) else p
  }

  /** `paging_share_pde`. */
  function SharePde(p: Pages, dst: DirRef, src: DirRef, vaddr: nat): (r: Pages)
    requires Wf(p) && ValidDir(dst) && ValidDir(src) && Slot(vaddr) < PAGE_ENTRIES
    ensures Wf(r)
  {
    SetPde(p, dst, Slot(vaddr), Dir(p, src)[Slot(vaddr)])
  }

  // ---- private pages ----

  /** `dir`'s entry at `s` denotes a private table that `dir` owns. */
  predicate OwnsSlot(p: Pages, d: DirRef, s: nat)
    requires Wf(p) && ValidDir(d) && s < PAGE_ENTRIES
  {
    var e := Dir(p, d)[s];
    e.present && e.table.Private? && p.owner[e.table.t] == d
  }

  function ZeroTable(): (z: seq<Pte>)
    ensures |z| == PAGE_ENTRIES
  {
    seq(PAGE_ENTRIES, _ => ZERO_PTE)
  }

  /** `alloc_task_private_table`, then the entry that points at the new table. */
  function NewTable(p: Pages, d: DirRef, s: nat, t: nat): (r: Pages)
    requires Wf(p) && ValidDir(d) && s < PAGE_ENTRIES && t < MAX_TABLES
    ensures Wf(r)
  {
    var e := Dir(p, d)[s];
    var content := if e.present then Table(p, e.table) else ZeroTable();
    SetPde(p.(owner := p.owner[t := d], tables := p.tables[t := content]),
           d, s, Pde(Private(t), true, true, true))
  }

  function MapFrame(p: Pages, t: nat, i: nat): (r: (Pages, Option<nat>))
    requires Wf(p) && t < MAX_TABLES && i < PAGE_ENTRIES
    ensures Wf(r.0)
  {
    var (q, f) := AllocFrame(p);
    if f.None? then (q, None)
    else (q.(tables := q.tables[t := q.tables[t][i := Pte(FrameAddr(f.value), true, true, true)]]), f)
  }

  /** `paging_map_private_page`; `Some(f)` is the frame's number, `None` the return value 0. */
  function MapPrivate(p: Pages, d: DirRef, vaddr: nat): (r: (Pages, Option<nat>))
    requires Wf(p) && ValidDir(d) && Slot(vaddr) < PAGE_ENTRIES
    ensures Wf(r.0)
  {
    var s := Slot(vaddr);
    if OwnsSlot(p, d, s) then MapFrame(p, Dir(p, d)[s].table.t, Index(vaddr))
    else
      match First(p.owner, NoDir)
      case None => (p, None)
      case Some(t) => MapFrame(NewTable(p, d, s, t), t, Index(vaddr))
  }

  /** Maps `n` private pages from `vaddr` upward; stops at the first failure. */
  function MapPages(p: Pages, d: DirRef, vaddr: nat, n: nat): (r: (Pages, bool))
    requires Wf(p) && ValidDir(d) && Slot(vaddr + n * PAGE_SIZE) < PAGE_ENTRIES
    ensures Wf(r.0)
  {
    if n == 0 then (p, true)
    else
      var (q, ok) := MapPages(p, d, vaddr, n - 1);
      if !ok then (q, false)
      else
        var (q', f) := MapPrivate(q, d, vaddr + (n - 1) * PAGE_SIZE);
        (q', f.Some?)
  }

  /** The inner loop of `paging_free_private_pages`: give back every frame table `t` maps. */
  function FreeEntries(p: Pages, t: nat, i: nat): (bits: seq<bool>)
    requires Wf(p) && t < MAX_TABLES && i <= PAGE_ENTRIES
    ensures |bits| == POOL_FRAMES
  {
    if i == 0 then p.bits
    else
      var b := FreeEntries(p, t, i - 1);
      if p.tables[t][i - 1].present then FreeFrame(b, p.tables[t][i - 1].frame) else b
  }

  function FreeSlot(p: Pages, d: DirRef, s: nat): (r: Pages)
    requires Wf(p) && ValidDir(d) && s < PAGE_ENTRIES
    ensures Wf(r)
  {
    if !OwnsSlot(p, d, s) then p
    else
      var t := Dir(p, d)[s].table.t;
      SetPde(p.(bits := FreeEntries(p, t, PAGE_ENTRIES), owner := p.owner[t := NoDir]), d, s, ZERO_PDE)
  }

  /** `paging_free_private_pages` up to slot `n`; the whole routine is `n == PAGE_ENTRIES`. */
  function FreePrivate(p: Pages, d: DirRef, n: nat): (r: Pages)
    requires Wf(p) && ValidDir(d) && n <= PAGE_ENTRIES
    ensures Wf(r)
  {
    if n == 0 then p else FreeSlot(FreePrivate(p, d, n - 1), d, n - 1)
  }

  // ---- address translation (32-bit paging, section 4.3 of volume 3A of the Intel SDM) ----

  /** What an access reaches: a physical page address and the rights both levels grant. */
  datatype Access = Access(frame: nat, rw: bool, user: bool)

  function Translate(p: Pages, d: DirRef, vaddr: nat): Option<Access>
    requires Wf(p) && ValidDir(d) && Slot(vaddr) < PAGE_ENTRIES
  {
    var e := Dir(p, d)[Slot(vaddr)];
    if !e.present then None
    else
      var x := Table(p, e.table)[Index(vaddr)];
      if !x.present then None
      else Some(Access(x.frame, e.rw && x.rw, e.user && x.user))
  }

  // ---- memory ----

  function SetByte(s: seq<byte>, i: nat, b: byte): (r: seq<byte>)
    requires i < |s|
    ensures |r| == |s|
  { s[i := b] }

  /** The page at physical address `frame` has its bytes in the model. */
  predicate Modelled(frame: nat) { InPool(frame) || frame < SLOT_SPAN }

  function Page(p: Pages, frame: nat): (r: seq<byte>)
    requires Wf(p) && Modelled(frame)
    ensures |r| == PAGE_SIZE
  {
    if InPool(frame) then p.ram[(frame - POOL_START) / PAGE_SIZE] else p.low[frame / PAGE_SIZE]
  }

  function Poke(p: Pages, frame: nat, i: nat, b: byte): (r: Pages)
    requires Wf(p) && Modelled(frame) && i < PAGE_SIZE
    ensures Wf(r)
  {
    var page := SetByte(Page(p, frame), i, b);
    if InPool(frame) then p.(ram := p.ram[(frame - POOL_START) / PAGE_SIZE := page])
    else p.(low := p.low[frame / PAGE_SIZE := page])
  }
}
