/** Each paging routine keeps the invariant, and what it changes. */
module PagingSteps {
  import opened Common
  import opened Paging
  import opened PagingInv

  // ---- cloning and sharing ----

  lemma CloneKeeps(p: Pages)
    requires Inv(p) && CloneDir(p).1.Some?
    ensures
      var (q, d) := CloneDir(p);
      && Inv(q) && !p.dirUsed[d.value] && q.dirs[d.value] == p.kdir
      && q == p.(dirUsed := p.dirUsed[d.value := true], dirs := p.dirs[d.value := p.kdir])
  {
    var (q, r) := CloneDir(p);
    var d := r.value;
    forall t: nat, i: nat, f: nat
      ensures Ref(q, t, i, f) == Ref(p, t, i, f)
    {}
    forall t | 0 <= t < MAX_TABLES
      ensures TableInv(q, t)
    {
      assert TableInv(p, t);
      if p.owner[t].Pool? {
        var s: nat :| Tracked(s) && Points(p, p.owner[t].d, s, t);
        assert Points(q, p.owner[t].d, s, t);
      }
    }
    forall t | 0 <= t < MAX_TABLES && q.owner[t] != NoDir
      ensures EntryInv(q, t) && LowInv(q, t)
    {
      assert EntryInv(p, t) && LowInv(p, t) && TableInv(p, t);
    }
    forall c | 0 <= c < MAX_DIRS && q.dirUsed[c]
      ensures DirInv(q, c)
    {
      if c != d {
        assert DirInv(p, c);
        if AppTable(p, c) {
          assert TableInv(p, p.dirs[c][APP_SLOT].table.t);
        }
      }
    }
  }

  /** Sharing a directory's app slot into a fresh clone. */
  lemma ShareKeeps(p: Pages, d: nat, src: DirRef)
    requires Inv(p) && d < MAX_DIRS && p.dirUsed[d] && p.dirs[d][APP_SLOT] == p.kdir[APP_SLOT]
    requires ValidDir(src) && src != Pool(d) && (src.Pool? ==> p.dirUsed[src.d])
    ensures
      var q := SharePde(p, Pool(d), src, APP_LOAD_ADDR);
      && Inv(q) && q == p.(dirs := p.dirs[d := p.dirs[d][APP_SLOT := Dir(p, src)[APP_SLOT]]])
  {
    var q := SharePde(p, Pool(d), src, APP_LOAD_ADDR);
    hide BootInv, FrameInv, EntryInv, LowInv, TableInv, DirInv;
    SharedTables(p, q, d, src);
    forall c | 0 <= c < MAX_DIRS && q.dirUsed[c] ensures DirInv(q, c) { SharedDir(p, q, d, src, c); }
  }

  lemma SharedDir(p: Pages, q: Pages, d: nat, src: DirRef, c: nat)
    requires Inv(p) && d < MAX_DIRS && p.dirUsed[d] && p.dirs[d][APP_SLOT] == p.kdir[APP_SLOT] && Wf(q)
    requires ValidDir(src) && src != Pool(d) && (src.Pool? ==> p.dirUsed[src.d])
    requires q == p.(dirs := p.dirs[d := p.dirs[d][APP_SLOT := Dir(p, src)[APP_SLOT]]])
    requires c < MAX_DIRS && q.dirUsed[c]
    ensures DirInv(q, c)
  {
    hide FrameInv, EntryInv, LowInv, TableInv, PoolMapped;
    assert DirInv(p, c) && DirInv(p, d) && (src.Pool? ==> DirInv(p, src.d));
  }

  lemma SharedTables(p: Pages, q: Pages, d: nat, src: DirRef)
    requires Inv(p) && d < MAX_DIRS && p.dirUsed[d] && p.dirs[d][APP_SLOT] == p.kdir[APP_SLOT] && Wf(q)
    requires ValidDir(src) && src != Pool(d) && (src.Pool? ==> p.dirUsed[src.d])
    requires q == p.(dirs := p.dirs[d := p.dirs[d][APP_SLOT := Dir(p, src)[APP_SLOT]]])
    ensures BootInv(q) && FrameInv(q) && forall t | 0 <= t < MAX_TABLES :: TableInv(q, t)
    ensures forall t | 0 <= t < MAX_TABLES && q.owner[t] != NoDir :: EntryInv(q, t) && LowInv(q, t)
  {
    hide PoolMapped;
    forall t: nat, i: nat, f: nat
      ensures Ref(q, t, i, f) == Ref(p, t, i, f)
    {}
    forall t | 0 <= t < MAX_TABLES
      ensures TableInv(q, t) && (q.owner[t] != NoDir ==> EntryInv(q, t) && LowInv(q, t))
    {
      assert TableInv(p, t) && (q.owner[t] != NoDir ==> EntryInv(p, t) && LowInv(p, t));
      assert src.Pool? ==> DirInv(p, src.d);
      if p.owner[t].Pool? {
        var s: nat :| Tracked(s) && Points(p, p.owner[t].d, s, t);
        assert Points(q, p.owner[t].d, s, t);
      }
    }
  }

  // ---- mapping one private page ----

  /** What the kernel asks of the pages it maps: the scratch page once; an app page in a
      directory whose app slot is not shared in; a spawn-stack page; each page only once. */
  ghost predicate Mappable(p: Pages, d: nat, vaddr: nat)
    requires Wf(p)
  {
    var s, i := Slot(vaddr), Index(vaddr);
    && d < MAX_DIRS && p.dirUsed[d]
    && match s
       case 256 => i == 0 && p.dirs[d][s] == p.kdir[s]
       case 0 => 512 <= i < 532 && Unmapped(p, d, s, i) && !OwnTable(p, d, SPAWN_SLOT)
       case 320 => i < 4 && Unmapped(p, d, s, i) && !OwnTable(p, d, APP_SLOT)
       case _ => false
  }

  ghost predicate Unmapped(p: Pages, d: nat, s: nat, i: nat)
    requires Wf(p) && d < MAX_DIRS && s < PAGE_ENTRIES && i < PAGE_ENTRIES
  {
    || p.dirs[d][s] == p.kdir[s]
    || (OwnTable(p, d, s) &&
        var e := p.tables[p.dirs[d][s].table.t][i]; e.present ==> e.frame < POOL_START)
  }

  /** `q` is `p` with frame `f` mapped at entry `i` of table `t`, in slot `s` of directory `d`. */
  ghost predicate Mapped(p: Pages, q: Pages, d: nat, s: nat, i: nat, t: nat, f: nat)
    requires Wf(p)
  {
    && d < MAX_DIRS && Tracked(s) && i < PAGE_ENTRIES && t < MAX_TABLES && f < POOL_FRAMES
    && !p.bits[f]
    && (if OwnTable(p, d, s) then p.dirs[d][s].table.t == t
        else p.owner[t] == NoDir && p.dirs[d][s] == p.kdir[s])
    && q == p.(
      dirs := p.dirs[d := p.dirs[d][s := Pde(Private(t), true, true, true)]],
      owner := p.owner[t := Pool(d)],
      tables := p.tables[t := Base(p, d, s)[i := Pte(FrameAddr(f), true, true, true)]],
      bits := p.bits[f := true],
      ram := p.ram[f := ZeroFrame()])
  }

  /** The entries table `t` starts from: its own, or those of the boot entry it replaces. */
  ghost function Base(p: Pages, d: nat, s: nat): (r: seq<Pte>)
    requires Wf(p) && d < MAX_DIRS && s < PAGE_ENTRIES
    ensures |r| == PAGE_ENTRIES
  {
    var e := p.dirs[d][s];
    if e.present then Table(p, e.table) else ZeroTable()
  }

  lemma MapSucceeds(p: Pages, d: nat, vaddr: nat) returns (t: nat)
    requires Inv(p) && Mappable(p, d, vaddr)
    ensures
      var (q, f) := MapPrivate(p, Pool(d), vaddr);
      && Wf(q) && f.Some? && Mapped(p, q, d, Slot(vaddr), Index(vaddr), t, f.value)
  {
    hide FrameInv, TableInv, EntryInv, LowInv;
    var s, i := Slot(vaddr), Index(vaddr);
    FramesAvailable(p);
    TablesAvailable(p);
    assert DirInv(p, d);
    assert OwnsSlot(p, Pool(d), s) == OwnTable(p, d, s);
    var (q, f) := MapPrivate(p, Pool(d), vaddr);
    if OwnTable(p, d, s) {
      t := p.dirs[d][s].table.t;
      assert p.dirs[d][s := Pde(Private(t), true, true, true)] == p.dirs[d];
      assert q.dirs == p.dirs[d := p.dirs[d][s := Pde(Private(t), true, true, true)]];
      assert q.owner == p.owner[t := Pool(d)];
    } else {
      t := First(p.owner, NoDir).value;
    }
  }

  /** A new table starts with no pool frame outside the page about to be mapped. */
  lemma NewBase(p: Pages, d: nat, vaddr: nat, j: nat)
    requires Inv(p) && Mappable(p, d, vaddr) && !OwnTable(p, d, Slot(vaddr))
    requires j < PAGE_ENTRIES && j != Index(vaddr)
    ensures var e := Base(p, d, Slot(vaddr))[j]; e.present ==> e.frame < POOL_START
  {
    assert DirInv(p, d);
  }

  lemma RefAfterMap(p: Pages, q: Pages, d: nat, vaddr: nat, t: nat, f: nat, t': nat, i': nat, f': nat)
    requires Inv(p) && Wf(q) && Mappable(p, d, vaddr)
    requires Mapped(p, q, d, Slot(vaddr), Index(vaddr), t, f)
    ensures Ref(q, t', i', f') <==>
            (t' == t && i' == Index(vaddr) && f' == f) || Ref(p, t', i', f')
  {
    var s, i := Slot(vaddr), Index(vaddr);
    if t' == t && i' < PAGE_ENTRIES && i' != i && !OwnTable(p, d, s) {
      NewBase(p, d, vaddr, i');
    }
  }

  lemma FrameInvAfterMap(p: Pages, q: Pages, d: nat, vaddr: nat, t: nat, f: nat)
    requires Inv(p) && Wf(q) && Mappable(p, d, vaddr)
    requires Mapped(p, q, d, Slot(vaddr), Index(vaddr), t, f)
    ensures FrameInv(q)
  {
    forall t': nat, i': nat, f': nat
      ensures Ref(q, t', i', f') <==>
              (t' == t && i' == Index(vaddr) && f' == f) || Ref(p, t', i', f')
    {
      RefAfterMap(p, q, d, vaddr, t, f, t', i', f');
    }
    forall g | 0 <= g < POOL_FRAMES && q.bits[g]
      ensures exists t': nat, i': nat :: Ref(q, t', i', g)
    {
      if g == f {
        assert Ref(q, t, Index(vaddr), f);
      } else {
        var t': nat, i': nat :| Ref(p, t', i', g);
        assert Ref(q, t', i', g);
      }
    }
  }

  lemma EntryInvAfterMap(p: Pages, q: Pages, d: nat, vaddr: nat, t: nat, f: nat, u: nat)
    requires Inv(p) && Wf(q) && Mappable(p, d, vaddr)
    requires Mapped(p, q, d, Slot(vaddr), Index(vaddr), t, f)
    requires u < MAX_TABLES && q.owner[u] != NoDir
    ensures EntryInv(q, u)
  {
    forall i | 0 <= i < PAGE_ENTRIES && q.tables[u][i].present
      ensures q.tables[u][i].frame < POOL_START || (PrivateIndex(i) && exists g: nat :: Ref(q, u, i, g))
    {
      if u == t && i == Index(vaddr) {
        assert Ref(q, t, i, f);
      } else if u == t && !OwnTable(p, d, Slot(vaddr)) {
        NewBase(p, d, vaddr, i);
      } else {
        assert EntryInv(p, u);
        if q.tables[u][i].frame >= POOL_START {
          var g: nat :| Ref(p, u, i, g);
          RefAfterMap(p, q, d, vaddr, t, f, u, i, g);
        }
      }
    }
  }

  /** A private table starts as a copy of boot entries, and only app pages are mapped over them. */
  lemma LowInvAfterMap(p: Pages, q: Pages, d: nat, vaddr: nat, t: nat, f: nat, u: nat)
    requires Inv(p) && Wf(q) && Mappable(p, d, vaddr)
    requires Mapped(p, q, d, Slot(vaddr), Index(vaddr), t, f)
    requires u < MAX_TABLES && q.owner[u] != NoDir
    ensures LowInv(q, u)
  {
    hide FrameInv, EntryInv;
    assert DirInv(p, d);
    if u == t {
      if OwnTable(p, d, Slot(vaddr)) {
        assert LowInv(p, t) && TableInv(p, t);
      }
    } else {
      assert LowInv(p, u);
    }
  }

  lemma TableInvAfterMap(p: Pages, q: Pages, d: nat, vaddr: nat, t: nat, f: nat, u: nat)
    requires Inv(p) && Wf(q) && Mappable(p, d, vaddr)
    requires Mapped(p, q, d, Slot(vaddr), Index(vaddr), t, f)
    requires u < MAX_TABLES
    ensures TableInv(q, u)
  {
    hide FrameInv, EntryInv, LowInv, PoolMapped, ScratchMapped, Base;
    assert TableInv(p, u) && DirInv(p, d);
    if u == t {
      assert Points(q, d, Slot(vaddr), t);
    } else if p.owner[u].Pool? {
      var s: nat :| Tracked(s) && Points(p, p.owner[u].d, s, u);
      assert Points(q, p.owner[u].d, s, u);
    }
  }

  lemma DirInvAfterMap(p: Pages, q: Pages, d: nat, vaddr: nat, t: nat, f: nat, c: nat)
    requires Inv(p) && Wf(q) && Mappable(p, d, vaddr)
    requires Mapped(p, q, d, Slot(vaddr), Index(vaddr), t, f)
    requires c < MAX_DIRS && q.dirUsed[c]
    ensures DirInv(q, c)
  {
    hide FrameInv, EntryInv, LowInv, PoolMapped, ScratchMapped, Base;
    assert DirInv(p, c);
    if OwnTable(q, c, PRIVATE_SLOT) { ScratchAfterMap(p, q, d, vaddr, t, f, c); }
    AppAfterMap(p, q, d, vaddr, t, f, c);
    assert DirInv(p, d);
  }

  /** The app slot of every directory stays good. */
  lemma AppAfterMap(p: Pages, q: Pages, d: nat, vaddr: nat, t: nat, f: nat, c: nat)
    requires Inv(p) && Wf(q) && Mappable(p, d, vaddr)
    requires Mapped(p, q, d, Slot(vaddr), Index(vaddr), t, f)
    requires c < MAX_DIRS && q.dirUsed[c]
    ensures q.dirs[c][APP_SLOT] == q.kdir[APP_SLOT] || AppTable(q, c)
  {
    hide FrameInv, EntryInv, LowInv, PoolMapped, ScratchMapped, Base;
    assert DirInv(p, c) && DirInv(p, d);
    if AppTable(p, c) {
      assert TableInv(p, p.dirs[c][APP_SLOT].table.t);
    }
  }

  lemma ScratchAfterMap(p: Pages, q: Pages, d: nat, vaddr: nat, t: nat, f: nat, c: nat)
    requires Inv(p) && Wf(q) && Mappable(p, d, vaddr)
    requires Mapped(p, q, d, Slot(vaddr), Index(vaddr), t, f)
    requires c < MAX_DIRS && q.dirUsed[c] && OwnTable(q, c, PRIVATE_SLOT)
    ensures ScratchMapped(q, q.dirs[c][PRIVATE_SLOT].table.t)
  {
    hide FrameInv, EntryInv, LowInv;
    assert DirInv(p, c) && DirInv(p, d);
    var u := q.dirs[c][PRIVATE_SLOT].table.t;
    assert TableInv(p, u);
  }

  /** Mapping a private page always finds a table and a frame, and keeps the invariant. */
  lemma MapKeeps(p: Pages, d: nat, vaddr: nat) returns (t: nat)
    requires Inv(p) && Mappable(p, d, vaddr)
    ensures
      var (q, f) := MapPrivate(p, Pool(d), vaddr);
      && Inv(q) && f.Some? && Mapped(p, q, d, Slot(vaddr), Index(vaddr), t, f.value)
  {
    t := MapSucceeds(p, d, vaddr);
    var (q, r) := MapPrivate(p, Pool(d), vaddr);
    var f := r.value;
    FrameInvAfterMap(p, q, d, vaddr, t, f);
    forall u | 0 <= u < MAX_TABLES ensures TableInv(q, u) { TableInvAfterMap(p, q, d, vaddr, t, f, u); }
    forall u | 0 <= u < MAX_TABLES && q.owner[u] != NoDir ensures EntryInv(q, u) && LowInv(q, u) {
      EntryInvAfterMap(p, q, d, vaddr, t, f, u);
      LowInvAfterMap(p, q, d, vaddr, t, f, u);
    }
    forall c | 0 <= c < MAX_DIRS && q.dirUsed[c] ensures DirInv(q, c) {
      DirInvAfterMap(p, q, d, vaddr, t, f, c);
    }
    BootInvAfterMap(p, q, d, vaddr, t, f);
  }

  lemma BootInvAfterMap(p: Pages, q: Pages, d: nat, vaddr: nat, t: nat, f: nat)
    requires Inv(p) && Wf(q) && Mappable(p, d, vaddr)
    requires Mapped(p, q, d, Slot(vaddr), Index(vaddr), t, f)
    ensures BootInv(q)
  {
    assert DirInv(p, d);
  }

  // ---- giving everything back ----

  lemma {:induction false} FreeEntriesBit(p: Pages, t: nat, n: nat, f: nat)
    requires Wf(p) && t < MAX_TABLES && n <= PAGE_ENTRIES && f < POOL_FRAMES
    ensures FreeEntries(p, t, n)[f] <==>
            && p.bits[f]
            && (forall i | 0 <= i < n && p.tables[t][i].present && InPool(p.tables[t][i].frame) ::
                  (p.tables[t][i].frame - POOL_START) / PAGE_SIZE != f)
  {
    if n > 0 {
      FreeEntriesBit(p, t, n - 1, f);
    }
  }

  /** Freeing the entries of an owned table clears exactly the frames it maps. */
  lemma FreeEntriesClears(p: Pages, t: nat, f: nat)
    requires Wf(p) && Owned(p, t) && EntryInv(p, t) && f < POOL_FRAMES
    ensures FreeEntries(p, t, PAGE_ENTRIES)[f] <==> p.bits[f] && !exists i: nat :: Ref(p, t, i, f)
  {
    FreeEntriesBit(p, t, PAGE_ENTRIES, f);
    forall i: nat | i < PAGE_ENTRIES && p.tables[t][i].present && InPool(p.tables[t][i].frame)
      ensures (p.tables[t][i].frame - POOL_START) / PAGE_SIZE == f <==> Ref(p, t, i, f)
    {
      var g: nat :| Ref(p, t, i, g);
    }
  }

  /** Directory `d` owns `t` and points at it from a slot below `n`. */
  ghost predicate Released(p: Pages, d: nat, n: nat, t: nat)
    requires Wf(p)
  {
    t < MAX_TABLES && p.owner[t] == Pool(d) && exists s: nat :: s < n && Points(p, d, s, t)
  }

  /** `q` is `p` with the private tables in `d`'s slots below `n` given back. */
  ghost predicate FreedBelow(p: Pages, q: Pages, d: nat, n: nat)
    requires Wf(p) && d < MAX_DIRS
  {
    && Wf(q)
    && q == p.(dirs := q.dirs, owner := q.owner, bits := q.bits)
    && q.dirs == p.dirs[d := q.dirs[d]]
    && (forall s | 0 <= s < PAGE_ENTRIES ::
          q.dirs[d][s] == if s < n && OwnTable(p, d, s) then ZERO_PDE else p.dirs[d][s])
    && (forall t | 0 <= t < MAX_TABLES ::
          q.owner[t] == if Released(p, d, n, t) then NoDir else p.owner[t])
    && (forall f | 0 <= f < POOL_FRAMES ::
          q.bits[f] <==> p.bits[f] && !exists t: nat, i: nat :: Ref(p, t, i, f) && Released(p, d, n, t))
  }

  lemma {:induction false} FreePrivateBelow(p: Pages, d: nat, n: nat)
    requires Inv(p) && d < MAX_DIRS && p.dirUsed[d] && n <= PAGE_ENTRIES
    ensures FreedBelow(p, FreePrivate(p, Pool(d), n), d, n)
  {
    if n > 0 {
      FreePrivateBelow(p, d, n - 1);
      var q := FreePrivate(p, Pool(d), n - 1);
      FreeSlotBelow(p, q, d, n - 1);
    }
  }

  lemma FreeSlotBelow(p: Pages, q: Pages, d: nat, s: nat)
    requires Inv(p) && d < MAX_DIRS && p.dirUsed[d] && s < PAGE_ENTRIES
    requires FreedBelow(p, q, d, s)
    ensures FreedBelow(p, FreeSlot(q, Pool(d), s), d, s + 1)
  {
    assert DirInv(p, d);
    var e := p.dirs[d][s];
    var r := FreeSlot(q, Pool(d), s);
    if OwnTable(p, d, s) {
      var t := e.table.t;
      assert TableInv(p, t);
      assert !Released(p, d, s, t);
      assert OwnsSlot(q, Pool(d), s);
      assert EntryInv(p, t);
      forall i: nat, f: nat ensures Ref(q, t, i, f) == Ref(p, t, i, f) {}
      assert EntryInv(q, t);
      forall u: nat ensures Released(p, d, s + 1, u) <==> Released(p, d, s, u) || u == t {
        assert Points(p, d, s, t);
      }
      forall f: nat | f < POOL_FRAMES
        ensures r.bits[f] <==>
                p.bits[f] && !exists u: nat, i: nat :: Ref(p, u, i, f) && Released(p, d, s + 1, u)
      {
        FreeEntriesClears(q, t, f);
      }
    } else {
      assert !OwnsSlot(q, Pool(d), s);
      forall u: nat ensures Released(p, d, s + 1, u) <==> Released(p, d, s, u) {}
    }
  }

  /** No directory but `d` itself points at a table `d` owns. */
  ghost predicate NoSharers(p: Pages, d: nat)
    requires Wf(p) && d < MAX_DIRS
  {
    forall c | 0 <= c < MAX_DIRS && p.dirUsed[c] && c != d ::
      p.dirs[c][APP_SLOT].table.Private? ==> p.owner[p.dirs[c][APP_SLOT].table.t] != Pool(d)
  }

  /** `paging_free_private_pages` then `paging_free_directory`. */
  function FreeAll(p: Pages, d: nat): (q: Pages)
    requires Wf(p) && d < MAX_DIRS
    ensures Wf(q)
  {
    FreeDir(FreePrivate(p, Pool(d), PAGE_ENTRIES), Pool(d))
  }

  /** `q` is `p` with directory `d`, its tables and the frames they map given back. */
  ghost predicate Freed(p: Pages, q: Pages, d: nat)
    requires Wf(p) && d < MAX_DIRS
  {
    && Wf(q)
    && q == p.(dirs := q.dirs, owner := q.owner, bits := q.bits, dirUsed := p.dirUsed[d := false])
    && q.dirs == p.dirs[d := q.dirs[d]]
    && (forall t | 0 <= t < MAX_TABLES :: q.owner[t] == if p.owner[t] == Pool(d) then NoDir else p.owner[t])
    && (forall f | 0 <= f < POOL_FRAMES ::
          q.bits[f] <==> p.bits[f] && !exists t: nat, i: nat :: Ref(p, t, i, f) && p.owner[t] == Pool(d))
  }

  lemma FreeAllFrees(p: Pages, d: nat)
    requires Inv(p) && d < MAX_DIRS && p.dirUsed[d]
    ensures Freed(p, FreeAll(p, d), d)
  {
    FreePrivateBelow(p, d, PAGE_ENTRIES);
    hide BootInv, FrameInv, DirInv, EntryInv, LowInv, FreePrivate;
    forall t: nat | t < MAX_TABLES
      ensures Released(p, d, PAGE_ENTRIES, t) <==> p.owner[t] == Pool(d)
    {
      assert TableInv(p, t);
    }
  }

  /** Freeing a directory nobody shares from returns exactly its own tables and frames. */
  lemma FreeKeeps(p: Pages, d: nat)
    requires Inv(p) && d < MAX_DIRS && p.dirUsed[d] && NoSharers(p, d)
    ensures Freed(p, FreeAll(p, d), d) && Inv(FreeAll(p, d))
  {
    hide FreeAll, FrameInv, EntryInv, LowInv;
    FreeAllFrees(p, d);
    var q := FreeAll(p, d);
    FreeFrameInv(p, q, d);
    forall t | 0 <= t < MAX_TABLES
      ensures TableInv(q, t)
    {
      assert TableInv(p, t);
      if q.owner[t].Pool? {
        var s: nat :| Tracked(s) && Points(p, p.owner[t].d, s, t);
        assert Points(q, p.owner[t].d, s, t);
      }
    }
    forall c | 0 <= c < MAX_DIRS && q.dirUsed[c]
      ensures DirInv(q, c)
    {
      assert DirInv(p, c);
    }
  }

  lemma FreeFrameInv(p: Pages, q: Pages, d: nat)
    requires Inv(p) && d < MAX_DIRS && Freed(p, q, d)
    ensures FrameInv(q)
    ensures forall t | 0 <= t < MAX_TABLES && q.owner[t] != NoDir :: EntryInv(q, t) && LowInv(q, t)
  {
    forall t: nat, i: nat, f: nat
      ensures Ref(q, t, i, f) <==> Ref(p, t, i, f) && p.owner[t] != Pool(d)
    {}
    forall t | 0 <= t < MAX_TABLES && q.owner[t] != NoDir ensures EntryInv(q, t) && LowInv(q, t) {
      assert EntryInv(p, t) && LowInv(p, t);
    }
  }

  // ---- what other directories see ----

  /** From `p` to `q` only directory `d`, tables it owns and frames in no other table changed. */
  ghost predicate Keeps(p: Pages, q: Pages, d: nat)
  {
    && Wf(p) && Wf(q) && q.kdir == p.kdir && q.boot == p.boot && q.low == p.low
    && (forall c | 0 <= c < MAX_DIRS && c != d :: q.dirs[c] == p.dirs[c] && q.dirUsed[c] == p.dirUsed[c])
    && (forall t | 0 <= t < MAX_TABLES && p.owner[t] != NoDir && p.owner[t] != Pool(d) ::
          q.owner[t] == p.owner[t] && q.tables[t] == p.tables[t])
    && (forall t | 0 <= t < MAX_TABLES && q.owner[t] != p.owner[t] ::
          q.owner[t] == NoDir || q.owner[t] == Pool(d))
    && (forall t: nat, i: nat, f: nat | Ref(p, t, i, f) && p.owner[t] != Pool(d) :: q.ram[f] == p.ram[f])
  }

  lemma KeepsTrans(p: Pages, q: Pages, r: Pages, d: nat)
    requires Keeps(p, q, d) && Keeps(q, r, d)
    ensures Keeps(p, r, d)
  {
    forall t: nat, i: nat, f: nat | Ref(p, t, i, f) && p.owner[t] != Pool(d)
      ensures r.ram[f] == p.ram[f]
    {
      assert Ref(q, t, i, f);
    }
  }

  lemma MappedKeepsOthers(p: Pages, q: Pages, d: nat, s: nat, i: nat, t: nat, f: nat)
    requires Inv(p) && Wf(q) && Mapped(p, q, d, s, i, t, f)
    ensures Keeps(p, q, d)
  {}

  /** No table belongs to a directory that is not in use. */
  lemma NoOwner(p: Pages, d: nat)
    requires Inv(p) && d < MAX_DIRS && !p.dirUsed[d]
    ensures forall t | 0 <= t < MAX_TABLES :: p.owner[t] != Pool(d)
  {
    forall t | 0 <= t < MAX_TABLES ensures p.owner[t] != Pool(d) { assert TableInv(p, t); }
  }

  /** `q` is a valid state that differs from `p` only in directory `d`. */
  ghost predicate Builds(p: Pages, q: Pages, d: nat)
  {
    Inv(q) && Keeps(p, q, d) && d < MAX_DIRS && q.dirUsed[d]
  }

  lemma BuildsRefl(p: Pages, d: nat)
    requires Inv(p) && d < MAX_DIRS && p.dirUsed[d]
    ensures Builds(p, p, d)
  {}

  lemma BuildsTrans(p: Pages, q: Pages, r: Pages, d: nat)
    requires Builds(p, q, d) && Builds(q, r, d)
    ensures Builds(p, r, d)
  {
    KeepsTrans(p, q, r, d);
  }

  lemma MapBuilds(p: Pages, d: nat, vaddr: nat)
    requires Inv(p) && Mappable(p, d, vaddr)
    ensures
      var (q, f) := MapPrivate(p, Pool(d), vaddr);
      && f.Some? && Builds(p, q, d) && OwnTable(q, d, Slot(vaddr))
      && (forall s | 0 <= s < PAGE_ENTRIES && s != Slot(vaddr) :: q.dirs[d][s] == p.dirs[d][s])
  {
    var t := MapKeeps(p, d, vaddr);
    var (q, f) := MapPrivate(p, Pool(d), vaddr);
    MappedKeepsOthers(p, q, d, Slot(vaddr), Index(vaddr), t, f.value);
  }

  lemma CloneBuilds(p: Pages)
    requires Inv(p) && CloneDir(p).1.Some?
    ensures
      var (q, d) := CloneDir(p);
      && Builds(p, q, d.value) && !p.dirUsed[d.value] && q.dirs[d.value] == q.kdir
      && (forall t | 0 <= t < MAX_TABLES :: q.owner[t] != Pool(d.value))
  {
    CloneKeeps(p);
    NoOwner(p, CloneDir(p).1.value);
  }

  /** The directory `task_create` builds for a new task. */
  lemma NewTaskDir(p: Pages) returns (d: nat, q: Pages)
    requires Inv(p) && CloneDir(p).1.Some?
    ensures CloneDir(p).1 == Some(d) && d < MAX_DIRS && !p.dirUsed[d]
    ensures
      var (r, f) := MapPrivate(CloneDir(p).0, Pool(d), TASK_PRIVATE_VADDR);
      && r == q && f.Some?
    ensures Builds(p, q, d)
    ensures OwnTable(q, d, PRIVATE_SLOT) && q.dirs[d][APP_SLOT] == q.kdir[APP_SLOT]
  {
    CloneBuilds(p);
    d := CloneDir(p).1.value;
    var p1 := CloneDir(p).0;
    ScratchBuilds(p1, d);
    q := MapPrivate(p1, Pool(d), TASK_PRIVATE_VADDR).0;
    BuildsTrans(p, p1, q, d);
  }

  lemma SpawnAddress(n: nat)
    requires n < 4
    ensures Slot(SPAWN_STACK_VADDR + n * PAGE_SIZE) == SPAWN_SLOT && Index(SPAWN_STACK_VADDR + n * PAGE_SIZE) == n
  {}

  /** Nothing of the spawn stack from page `n` on is mapped, and the app slot is not `d`'s own. */
  ghost predicate SpawnRest(p: Pages, d: nat, n: nat)
    requires Wf(p) && d < MAX_DIRS
  {
    !OwnTable(p, d, APP_SLOT) && forall i | n <= i < 4 :: Unmapped(p, d, SPAWN_SLOT, i)
  }

  lemma SpawnPage(p: Pages, d: nat, n: nat)
    requires Inv(p) && d < MAX_DIRS && p.dirUsed[d] && n < 4 && SpawnRest(p, d, n)
    ensures
      var (q, f) := MapPrivate(p, Pool(d), SPAWN_STACK_VADDR + n * PAGE_SIZE);
      && f.Some? && Builds(p, q, d) && SpawnRest(q, d, n + 1)
      && (forall s | 0 <= s < PAGE_ENTRIES && s != SPAWN_SLOT :: q.dirs[d][s] == p.dirs[d][s])
  {
    var v := SPAWN_STACK_VADDR + n * PAGE_SIZE;
    SpawnAddress(n);
    assert Unmapped(p, d, SPAWN_SLOT, n);
    assert Mappable(p, d, v);
    MapBuilds(p, d, v);
    var t := MapSucceeds(p, d, v);
    assert DirInv(p, d);
    var q := MapPrivate(p, Pool(d), v).0;
    forall i | n + 1 <= i < 4 ensures Unmapped(q, d, SPAWN_SLOT, i) {
      assert Unmapped(p, d, SPAWN_SLOT, i);
    }
  }

  /** The first `n` pages of a spawned child's stack. */
  lemma {:induction false} SpawnStack(p: Pages, d: nat, n: nat)
    requires Inv(p) && d < MAX_DIRS && p.dirUsed[d] && n <= 4 && SpawnRest(p, d, 0)
    ensures
      var (q, ok) := MapPages(p, Pool(d), SPAWN_STACK_VADDR, n);
      && ok && Builds(p, q, d) && SpawnRest(q, d, n)
      && (forall s | 0 <= s < PAGE_ENTRIES && s != SPAWN_SLOT :: q.dirs[d][s] == p.dirs[d][s])
  {
    hide BootInv, FrameInv, DirInv, TableInv, EntryInv, LowInv, Keeps, MapPrivate, SpawnRest;
    if n == 0 {
      BuildsRefl(p, d);
    } else {
      SpawnStack(p, d, n - 1);
      var q := MapPages(p, Pool(d), SPAWN_STACK_VADDR, n - 1).0;
      SpawnPage(q, d, n - 1);
      BuildsTrans(p, q, MapPrivate(q, Pool(d), SPAWN_STACK_VADDR + (n - 1) * PAGE_SIZE).0, d);
    }
  }

  lemma ShareBuilds(p: Pages, d: nat, src: nat)
    requires Inv(p) && d < MAX_DIRS && p.dirUsed[d] && p.dirs[d] == p.kdir
    requires src < MAX_DIRS && src != d && p.dirUsed[src]
    requires forall t | 0 <= t < MAX_TABLES :: p.owner[t] != Pool(d)
    ensures
      var q := SharePde(p, Pool(d), Pool(src), APP_LOAD_ADDR);
      && Builds(p, q, d) && SpawnRest(q, d, 0) && q.dirs[d][APP_SLOT] == q.dirs[src][APP_SLOT]
      && q.dirs[d][PRIVATE_SLOT] == q.kdir[PRIVATE_SLOT]
  {
    ShareKeeps(p, d, Pool(src));
  }

  /** Sharing `src`'s app slot into a clone, then mapping the child's stack. */
  lemma ChildStack(p: Pages, d: nat, src: nat)
    requires Inv(p) && d < MAX_DIRS && p.dirUsed[d] && p.dirs[d] == p.kdir
    requires src < MAX_DIRS && src != d && p.dirUsed[src]
    requires forall t | 0 <= t < MAX_TABLES :: p.owner[t] != Pool(d)
    ensures
      var p1 := SharePde(p, Pool(d), Pool(src), APP_LOAD_ADDR);
      var (q, ok) := MapPages(p1, Pool(d), SPAWN_STACK_VADDR, 4);
      && ok && Builds(p, q, d) && q.dirs[d][APP_SLOT] == q.dirs[src][APP_SLOT]
      && q.dirs[d][PRIVATE_SLOT] == q.kdir[PRIVATE_SLOT]
  {
    ShareBuilds(p, d, src);
    var p1 := SharePde(p, Pool(d), Pool(src), APP_LOAD_ADDR);
    SpawnStack(p1, d, 4);
    BuildsTrans(p, p1, MapPages(p1, Pool(d), SPAWN_STACK_VADDR, 4).0, d);
  }

  lemma ScratchBuilds(p: Pages, d: nat)
    requires Inv(p) && d < MAX_DIRS && p.dirUsed[d] && p.dirs[d][PRIVATE_SLOT] == p.kdir[PRIVATE_SLOT]
    ensures
      var (q, f) := MapPrivate(p, Pool(d), TASK_PRIVATE_VADDR);
      && f.Some? && Builds(p, q, d) && OwnTable(q, d, PRIVATE_SLOT)
      && (forall s | 0 <= s < PAGE_ENTRIES && s != PRIVATE_SLOT :: q.dirs[d][s] == p.dirs[d][s])
  {
    assert Mappable(p, d, TASK_PRIVATE_VADDR);
    MapBuilds(p, d, TASK_PRIVATE_VADDR);
  }

  /** The directory `task_create_ring3_child` builds from `src`: it shares `src`'s app slot. */
  lemma NewChildDir(p: Pages, src: nat) returns (d: nat, q: Pages)
    requires Inv(p) && CloneDir(p).1.Some? && src < MAX_DIRS && p.dirUsed[src]
    ensures CloneDir(p).1 == Some(d) && d < MAX_DIRS && !p.dirUsed[d]
    ensures
      var p1 := SharePde(CloneDir(p).0, Pool(d), Pool(src), APP_LOAD_ADDR);
      var (p2, ok) := MapPages(p1, Pool(d), SPAWN_STACK_VADDR, 4);
      var (r, f) := MapPrivate(p2, Pool(d), TASK_PRIVATE_VADDR);
      && ok && r == q && f.Some?
    ensures Builds(p, q, d)
    ensures OwnTable(q, d, PRIVATE_SLOT) && q.dirs[d][APP_SLOT] == q.dirs[src][APP_SLOT]
  {
    CloneBuilds(p);
    d := CloneDir(p).1.value;
    var p0 := CloneDir(p).0;
    ChildStack(p0, d, src);
    var p2 := MapPages(SharePde(p0, Pool(d), Pool(src), APP_LOAD_ADDR), Pool(d), SPAWN_STACK_VADDR, 4).0;
    ScratchBuilds(p2, d);
    q := MapPrivate(p2, Pool(d), TASK_PRIVATE_VADDR).0;
    BuildsTrans(p, p0, p2, d);
    BuildsTrans(p, p2, q, d);
  }
}
