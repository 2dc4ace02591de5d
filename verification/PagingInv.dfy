/** What every paging step keeps: who owns each private table, and that a frame's bit is set
    exactly when one entry of one owned table refers to it. */
module PagingInv {
  import opened Common
  import opened Paging

  /** The slots in which the kernel ever maps private pages. */
  predicate Tracked(s: nat) { s == APP_SLOT || s == PRIVATE_SLOT || s == SPAWN_SLOT }

  /** The page-table indices those pages use: app code and stack pages, the four pages of a
      spawned child's stack, and the scratch page (index 0). */
  predicate PrivateIndex(i: nat) { i < 4 || 512 <= i < 532 }

  ghost predicate Owned(p: Pages, t: nat)
    requires Wf(p)
  {
    t < MAX_TABLES && p.owner[t] != NoDir
  }

  /** Entry `i` of owned table `t` maps pool frame `f`. */
  ghost predicate Ref(p: Pages, t: nat, i: nat, f: nat)
    requires Wf(p)
  {
    && Owned(p, t) && i < PAGE_ENTRIES && f < POOL_FRAMES
    && p.tables[t][i].present && p.tables[t][i].frame == FrameAddr(f)
  }

  ghost predicate Points(p: Pages, d: nat, s: nat, t: nat)
    requires Wf(p)
  {
    && d < MAX_DIRS && s < PAGE_ENTRIES && t < MAX_TABLES
    && p.dirs[d][s] == Pde(Private(t), true, true, true)
  }

  ghost predicate OwnTable(p: Pages, d: nat, s: nat)
    requires Wf(p) && d < MAX_DIRS && s < PAGE_ENTRIES
  {
    var e := p.dirs[d][s];
    e.table.Private? && Points(p, d, s, e.table.t) && p.owner[e.table.t] == Pool(d)
  }

  /** The app slot holds a private table that its owner also has in its app slot. */
  ghost predicate AppTable(p: Pages, d: nat)
    requires Wf(p) && d < MAX_DIRS
  {
    var e := p.dirs[d][APP_SLOT];
    && e.table.Private? && Points(p, d, APP_SLOT, e.table.t)
    && p.owner[e.table.t].Pool? && Points(p, p.owner[e.table.t].d, APP_SLOT, e.table.t)
  }

  /** What page number `n` translates to through a directory of boot tables. */
  function View(kdir: seq<Pde>, boot: seq<seq<Pte>>, n: nat): Option<Access>
  {
    var s, i := n / PAGE_ENTRIES, n % PAGE_ENTRIES;
    if s >= |kdir| || !kdir[s].present || !kdir[s].table.Boot? || kdir[s].table.b >= |boot| then None
    else if i >= |boot[kdir[s].table.b]| then None
    else
      var x := boot[kdir[s].table.b][i];
      if !x.present then None else Some(Access(x.frame, kdir[s].rw && x.rw, kdir[s].user && x.user))
  }

  /** The frame pool is mapped to itself, for the kernel only. */
  ghost predicate PoolMapped(kdir: seq<Pde>, boot: seq<seq<Pte>>)
  {
    forall n: nat | POOL_START / PAGE_SIZE <= n < POOL_END / PAGE_SIZE ::
      View(kdir, boot, n) == Some(Access(n * PAGE_SIZE, true, false))
  }

  /** The boot directory after `task_init`: identity tables everywhere but the scratch slot,
      whose table 0 belongs to the boot directory and maps only its own scratch page. */
  ghost predicate BootInv(p: Pages)
    requires Wf(p)
  {
    && p.kdir[PRIVATE_SLOT] == Pde(Private(0), true, true, true)
    && p.kdir[APP_SLOT] == Pde(Boot(0), true, true, true)
    && p.kdir[SPAWN_SLOT] == ZERO_PDE
    && (forall s | 0 <= s < PAGE_ENTRIES && s != PRIVATE_SLOT :: p.kdir[s].table.Boot?)
    && (forall s | 0 <= s < PAGE_ENTRIES && !Tracked(s) :: !p.kdir[s].user)
    && (forall i | 0 <= i < PAGE_ENTRIES :: p.boot[0][i].present ==> p.boot[0][i].frame == i * PAGE_SIZE)
    && PoolMapped(p.kdir, p.boot)
    && (forall t | 0 <= t < MAX_TABLES :: p.owner[t] == KernelDir <==> t == 0)
    && p.tables[0][0] == Pte(FrameAddr(0), true, true, true)
    && (forall i | 0 < i < PAGE_ENTRIES :: !p.tables[0][i].present)
  }

  ghost predicate ScratchMapped(p: Pages, t: nat)
    requires Wf(p) && t < MAX_TABLES
  {
    var e := p.tables[t][0];
    e.present && e.rw && e.user && InPool(e.frame)
  }

  /** A directory in use copies the boot directory except in the tracked slots, each of which
      is still the boot entry or a private table. The scratch and spawn tables are its own; the
      app table may be shared from the directory that owns it. */
  ghost predicate DirInv(p: Pages, d: nat)
    requires Wf(p) && d < MAX_DIRS
  {
    && (forall s | 0 <= s < PAGE_ENTRIES && !Tracked(s) :: p.dirs[d][s] == p.kdir[s])
    && (forall s | s == PRIVATE_SLOT || s == SPAWN_SLOT ::
          p.dirs[d][s] == p.kdir[s] || OwnTable(p, d, s))
    && (p.dirs[d][APP_SLOT] == p.kdir[APP_SLOT] || AppTable(p, d))
    && !(OwnTable(p, d, APP_SLOT) && OwnTable(p, d, SPAWN_SLOT))
    && (OwnTable(p, d, PRIVATE_SLOT) ==> ScratchMapped(p, p.dirs[d][PRIVATE_SLOT].table.t))
  }

  /** A pool-owned table belongs to a directory in use, which points at it from one slot. */
  ghost predicate TableInv(p: Pages, t: nat)
    requires Wf(p) && t < MAX_TABLES
  {
    && (p.owner[t].Pool? ==>
          var d := p.owner[t].d;
          && d < MAX_DIRS && p.dirUsed[d]
          && exists s: nat :: Tracked(s) && Points(p, d, s, t))
    && (forall s: nat, s': nat | Tracked(s) && Tracked(s') && p.owner[t].Pool?
          && Points(p, p.owner[t].d, s, t) && Points(p, p.owner[t].d, s', t) :: s == s')
  }

  /** Only the private indices of a table refer to pool frames. */
  ghost predicate EntryInv(p: Pages, t: nat)
    requires Wf(p) && t < MAX_TABLES
  {
    forall i | 0 <= i < PAGE_ENTRIES && p.tables[t][i].present ::
      p.tables[t][i].frame < POOL_START ||
      (PrivateIndex(i) && exists f: nat :: Ref(p, t, i, f))
  }

  /** Table `t` is the app table of the directory that owns it. */
  ghost predicate IsAppTable(p: Pages, t: nat)
    requires Wf(p) && t < MAX_TABLES
  {
    p.owner[t].Pool? && Points(p, p.owner[t].d, APP_SLOT, t)
  }

  /** Only app tables map anything outside the pool: the boot entries they were copied from, all of
      them but those of the app's code and stack pages. */
  ghost predicate LowInv(p: Pages, t: nat)
    requires Wf(p) && t < MAX_TABLES
  {
    && (forall i | 0 <= i < PAGE_ENTRIES && p.tables[t][i].present && p.tables[t][i].frame < POOL_START ::
          IsAppTable(p, t) && p.tables[t][i] == p.boot[0][i])
    && (IsAppTable(p, t) ==> forall i | 0 <= i < PAGE_ENTRIES && !AppIndex(i) :: p.tables[t][i] == p.boot[0][i])
  }

  /** The indices of the app's code and stack pages. */
  predicate AppIndex(i: nat) { 512 <= i < 532 }

  ghost predicate FrameInv(p: Pages)
    requires Wf(p)
  {
    && (forall f | 0 <= f < POOL_FRAMES && p.bits[f] :: exists t: nat, i: nat :: Ref(p, t, i, f))
    && (forall t: nat, i: nat, f: nat | Ref(p, t, i, f) :: p.bits[f])
    && (forall t: nat, i: nat, t': nat, i': nat, f: nat | Ref(p, t, i, f) && Ref(p, t', i', f) :: t == t' && i == i')
  }

  ghost predicate Inv(p: Pages)
  {
    && Wf(p) && BootInv(p) && FrameInv(p)
    && (forall d | 0 <= d < MAX_DIRS && p.dirUsed[d] :: DirInv(p, d))
    && (forall t | 0 <= t < MAX_TABLES :: TableInv(p, t))
    && (forall t | 0 <= t < MAX_TABLES && p.owner[t] != NoDir :: EntryInv(p, t))
    && (forall t | 0 <= t < MAX_TABLES && p.owner[t] != NoDir :: LowInv(p, t))
  }

  // ---- the pools never run out ----

  /** The 24 private indices in order. */
  function Nth(k: nat): (i: nat)
    requires k < 24
    ensures i < PAGE_ENTRIES
  { if k < 4 then k else k + 508 }

  /** The frame that private entry `k % 24` of table `k / 24` maps. */
  ghost function FrameAt(p: Pages, k: nat): nat
    requires Wf(p)
  {
    if k >= 480 then 0
    else
      var a := p.tables[k / 24][Nth(k % 24)].frame;
      if InPool(a) then (a - POOL_START) / PAGE_SIZE else 0
  }

  lemma FrameIsPrivateEntry(p: Pages, f: nat) returns (k: nat)
    requires Inv(p) && f < POOL_FRAMES && p.bits[f]
    ensures k < 480 && FrameAt(p, k) == f
  {
    var t: nat, i: nat :| Ref(p, t, i, f);
    assert EntryInv(p, t);
    k := t * 24 + (if i < 4 then i else i - 508);
    assert k / 24 == t && Nth(k % 24) == i;
  }

  /** No more than 480 frames are ever in use: 20 tables of 24 private indices. */
  lemma FramesAvailable(p: Pages)
    requires Inv(p)
    ensures First(p.bits, false).Some?
  {
    var at := k => FrameAt(p, k);
    if First(p.bits, false).None? {
      forall f: nat | f < POOL_FRAMES
        ensures Hits(at, 480, f)
      {
        var k := FrameIsPrivateEntry(p, f);
        assert at(k) == f;
      }
      CoverSize(at, 480, POOL_FRAMES);
    }
  }

  /** The table that directory `c / 2` (8 is the boot directory) points at from its scratch
      slot (`c` even) or from its app or spawn slot, whichever it owns. */
  ghost function TableOf(p: Pages, c: nat): nat
    requires Wf(p)
  {
    if c >= 16 then 0
    else
      var e := p.dirs[c / 2][if c % 2 == 0 then PRIVATE_SLOT
                             else if OwnTable(p, c / 2, APP_SLOT) then APP_SLOT else SPAWN_SLOT];
      if e.table.Private? then e.table.t else 0
  }

  lemma TableIsSlot(p: Pages, t: nat) returns (c: nat)
    requires Inv(p) && t < MAX_TABLES && p.owner[t] != NoDir
    ensures c < 17 && TableOf(p, c) == t
  {
    if p.owner[t] == KernelDir {
      c := 16;
    } else {
      assert TableInv(p, t);
      var d := p.owner[t].d;
      var s: nat :| Tracked(s) && Points(p, d, s, t);
      assert DirInv(p, d) && OwnTable(p, d, s);
      c := if s == PRIVATE_SLOT then 2 * d else 2 * d + 1;
    }
  }

  /** No more than 17 of the 20 private tables are ever in use. */
  lemma TablesAvailable(p: Pages)
    requires Inv(p)
    ensures First(p.owner, NoDir).Some?
  {
    var at := c => TableOf(p, c);
    if First(p.owner, NoDir).None? {
      forall t: nat | t < MAX_TABLES
        ensures Hits(at, 17, t)
      {
        var c := TableIsSlot(p, t);
        assert at(c) == t;
      }
      CoverSize(at, 17, MAX_TABLES);
    }
  }
}
