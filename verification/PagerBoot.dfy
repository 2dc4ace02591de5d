/** Boot: paging_init's identity map and paging_mark_kernel_region_user (paging.c), in the order
    kernel_main runs them. They leave the pages in the state runs of the kernel start from. */
module PagerBoot {
  import opened Common
  import opened Paging
  import opened PagingInv
  import opened Pager
  import opened KernelRuns
  import Tasks

  const LOW_BYTES := 64 * 1024 * 1024
  const LOW_PAGES := LOW_BYTES / PAGE_SIZE
  const ALL_PAGES := PAGE_ENTRIES * PAGE_ENTRIES

  // ---- the boot tables ----

  /** Every present slot has a boot table of its own among the first `next`, which maps pages to
      themselves, and opens none to user code unless the slot is open. */
  ghost predicate Identity(kdir: seq<Pde>, boot: seq<seq<Pte>>, next: nat)
  {
    && |kdir| == PAGE_ENTRIES && |boot| == BOOT_TABLES && next <= BOOT_TABLES
    && (forall b | 0 <= b < BOOT_TABLES :: |boot[b]| == PAGE_ENTRIES)
    && (forall s | 0 <= s < PAGE_ENTRIES ::
          if kdir[s].present then IdentitySlot(kdir, boot, next, s) else kdir[s] == ZERO_PDE)
    && (forall s, s' | 0 <= s < s' < PAGE_ENTRIES && kdir[s].present && kdir[s'].present ::
          kdir[s].table != kdir[s'].table)
  }

  ghost predicate IdentitySlot(kdir: seq<Pde>, boot: seq<seq<Pte>>, next: nat, s: nat)
    requires |kdir| == PAGE_ENTRIES && |boot| == BOOT_TABLES && next <= BOOT_TABLES && s < PAGE_ENTRIES
  {
    && kdir[s].table.Boot? && kdir[s].table.b < next && kdir[s].rw
    && forall i | 0 <= i < |boot[kdir[s].table.b]| && boot[kdir[s].table.b][i].present ::
         && boot[kdir[s].table.b][i].frame == (s * PAGE_ENTRIES + i) * PAGE_SIZE
         && (boot[kdir[s].table.b][i].user ==> kdir[s].user)
  }

  lemma PageNumber(n: nat)
    ensures Slot(n * PAGE_SIZE) == n / PAGE_ENTRIES && Index(n * PAGE_SIZE) == n % PAGE_ENTRIES
  {}

  lemma PageParts(n: nat, s: nat, i: nat)
    requires i < PAGE_ENTRIES
    ensures n / PAGE_ENTRIES == s && n % PAGE_ENTRIES == i <==> n == s * PAGE_ENTRIES + i
  {}

  /** A fresh table for a slot that had none shows nothing. */
  lemma TableAdded(kdir: seq<Pde>, boot: seq<seq<Pte>>, next: nat, s: nat)
    requires Identity(kdir, boot, next) && next < BOOT_TABLES && s < PAGE_ENTRIES && !kdir[s].present
    ensures
      var kdir', boot' := kdir[s := Pde(Boot(next), true, true, false)], boot[next := ZeroTable()];
      && Identity(kdir', boot', next + 1)
      && forall n: nat :: View(kdir', boot', n) == View(kdir, boot, n)
  {
    var kdir', boot' := kdir[s := Pde(Boot(next), true, true, false)], boot[next := ZeroTable()];
    forall x | 0 <= x < PAGE_ENTRIES && kdir'[x].present ensures IdentitySlot(kdir', boot', next + 1, x) {
      if x != s { assert IdentitySlot(kdir, boot, next, x); }
    }
    forall n: nat ensures View(kdir', boot', n) == View(kdir, boot, n) {
      var x := n / PAGE_ENTRIES;
      if x != s && x < PAGE_ENTRIES && kdir[x].present { assert IdentitySlot(kdir, boot, next, x); }
    }
  }

  function Shown(d: Pde, e: Pte): Option<Access>
  {
    if e.present then Some(Access(e.frame, d.rw && e.rw, d.user && e.user)) else None
  }

  /** Setting one entry changes what its own page shows and nothing else. */
  lemma EntrySet(kdir: seq<Pde>, boot: seq<seq<Pte>>, next: nat, s: nat, i: nat, e: Pte)
    requires Identity(kdir, boot, next) && s < PAGE_ENTRIES && i < PAGE_ENTRIES && kdir[s].present
    requires e.present ==> e.frame == (s * PAGE_ENTRIES + i) * PAGE_SIZE && (e.user ==> kdir[s].user)
    ensures kdir[s].table.Boot? && kdir[s].table.b < BOOT_TABLES && kdir[s].rw
    ensures
      var b := kdir[s].table.b;
      var boot' := boot[b := boot[b][i := e]];
      && Identity(kdir, boot', next)
      && forall n: nat ::
           View(kdir, boot', n) == if n == s * PAGE_ENTRIES + i then Shown(kdir[s], e) else View(kdir, boot, n)
  {
    assert IdentitySlot(kdir, boot, next, s);
    var b := kdir[s].table.b;
    var boot' := boot[b := boot[b][i := e]];
    forall x | 0 <= x < PAGE_ENTRIES && kdir[x].present ensures IdentitySlot(kdir, boot', next, x) {
      assert IdentitySlot(kdir, boot, next, x);
      if x != s { assert kdir[x].table != kdir[s].table; }
    }
    forall n: nat
      ensures View(kdir, boot', n) == if n == s * PAGE_ENTRIES + i then Shown(kdir[s], e) else View(kdir, boot, n)
    {
      PageParts(n, s, i);
      var x := n / PAGE_ENTRIES;
      if x < PAGE_ENTRIES && kdir[x].present && x != s {
        assert IdentitySlot(kdir, boot, next, x);
        assert kdir[x].table != kdir[s].table;
      }
    }
  }

  /** Opening a slot to user code shows nothing new: no entry of a closed slot is open. */
  lemma SlotOpened(kdir: seq<Pde>, boot: seq<seq<Pte>>, next: nat, s: nat)
    requires Identity(kdir, boot, next) && s < PAGE_ENTRIES && kdir[s].present
    ensures
      var kdir' := kdir[s := kdir[s].(user := true)];
      Identity(kdir', boot, next) && forall n: nat :: View(kdir', boot, n) == View(kdir, boot, n)
  {
    var kdir' := kdir[s := kdir[s].(user := true)];
    assert IdentitySlot(kdir, boot, next, s);
    forall x | 0 <= x < PAGE_ENTRIES && kdir'[x].present ensures IdentitySlot(kdir', boot, next, x) {
      assert IdentitySlot(kdir, boot, next, x);
    }
    forall x, y | 0 <= x < y < PAGE_ENTRIES && kdir'[x].present && kdir'[y].present
      ensures kdir'[x].table != kdir'[y].table
    {
      assert kdir[x].table != kdir[y].table;
    }
  }

  // ---- the identity map ----

  /** `alloc_page_table`: the next static table, zeroed. */
  method AllocBootTable(pg: Pager) returns (b: nat)
    requires pg.Valid() && pg.nextBoot < BOOT_TABLES
    modifies pg`boot, pg`nextBoot
    ensures pg.Valid() && b == old(pg.nextBoot) && pg.nextBoot == b + 1
    ensures pg.boot == old(pg.boot)[b := ZeroTable()]
  {
    b := pg.nextBoot;
    pg.nextBoot := b + 1;
    for i := 0 to PAGE_ENTRIES
      invariant pg.nextBoot == b + 1
      invariant |pg.boot| == BOOT_TABLES && |pg.boot[b]| == PAGE_ENTRIES
      invariant forall c | 0 <= c < BOOT_TABLES && c != b :: pg.boot[c] == old(pg.boot)[c]
      invariant forall j | 0 <= j < i :: pg.boot[b][j] == ZERO_PTE
    {
      pg.boot := pg.boot[b := pg.boot[b][i := ZERO_PTE]];
    }
    assert pg.boot[b] == ZeroTable();
    assert pg.boot == old(pg.boot)[b := ZeroTable()];
  }

  /** What the tables show, with the pages from `lo` to `hi` mapped to themselves for the kernel. */
  ghost predicate MappedOver(was: (seq<Pde>, seq<seq<Pte>>), now: (seq<Pde>, seq<seq<Pte>>), lo: nat, hi: nat)
  {
    forall n: nat :: View(now.0, now.1, n) ==
      if lo <= n < hi then Some(Access(n * PAGE_SIZE, true, false)) else View(was.0, was.1, n)
  }

  /** The body of the identity-map loop, for page `n`. */
  method IdentityPage(pg: Pager, addr: nat, ghost n: nat)
    requires pg.Valid() && Identity(pg.kdir, pg.boot, pg.nextBoot) && addr == n * PAGE_SIZE && n < ALL_PAGES
    requires pg.kdir[n / PAGE_ENTRIES].present || pg.nextBoot < BOOT_TABLES
    modifies pg`kdir, pg`boot, pg`nextBoot
    ensures pg.Valid() && Identity(pg.kdir, pg.boot, pg.nextBoot)
    ensures SlotMapped(old(pg.kdir), old(pg.nextBoot), pg.kdir, pg.nextBoot, n / PAGE_ENTRIES)
    ensures MappedOver((old(pg.kdir), old(pg.boot)), (pg.kdir, pg.boot), n, n + 1)
  {
    hide View, Identity;
    var s, i := Slot(addr), Index(addr);
    PageNumber(n);
    PageParts(n, s, i);
    if !pg.kdir[s].present {
      TableAdded(pg.kdir, pg.boot, pg.nextBoot, s);
      var b := AllocBootTable(pg);
      pg.kdir := pg.kdir[s := Pde(Boot(b), true, true, false)];
    }
    EntrySet(pg.kdir, pg.boot, pg.nextBoot, s, i, Pte(addr, true, true, false));
    var b := pg.kdir[s].table.b;
    pg.boot := pg.boot[b := pg.boot[b][i := Pte(addr, true, true, false)]];
  }

  /** One page: its slot gets the next table unless it has one. */
  ghost predicate SlotMapped(kdir: seq<Pde>, next: nat, kdir': seq<Pde>, next': nat, s: nat)
  {
    && s < |kdir|
    && if kdir[s].present then kdir' == kdir && next' == next
       else kdir' == kdir[s := Pde(Boot(next), true, true, false)] && next' == next + 1
  }

  /** The directory once the slots from `first` to `s` have their tables. */
  ghost predicate Mapping(was: seq<Pde>, next0: nat, kdir: seq<Pde>, next: nat, first: nat, s: nat)
  {
    && |kdir| == |was| == PAGE_ENTRIES && first <= s < PAGE_ENTRIES && kdir[s].present
    && next <= next0 + s - first + 1
    && kdir[first] == (if was[first].present then was[first] else Pde(Boot(next0), true, true, false))
    && (forall x | 0 <= x < PAGE_ENTRIES && (x < first || s < x || was[x].present) :: kdir[x] == was[x])
    && (forall x | 0 <= x < PAGE_ENTRIES && !was[x].present :: !kdir[x].user)
  }

  lemma MappingFirst(was: seq<Pde>, next0: nat, kdir: seq<Pde>, next: nat, first: nat)
    requires |was| == PAGE_ENTRIES && first < PAGE_ENTRIES && SlotMapped(was, next0, kdir, next, first)
    requires forall x | 0 <= x < PAGE_ENTRIES && !was[x].present :: !was[x].user
    ensures Mapping(was, next0, kdir, next, first, first)
  {}

  lemma MappingBound(was: seq<Pde>, next0: nat, kdir: seq<Pde>, next: nat, first: nat, s: nat)
    requires Mapping(was, next0, kdir, next, first, s)
    ensures |kdir| == PAGE_ENTRIES && first <= s < PAGE_ENTRIES && kdir[s].present && next <= next0 + s - first + 1
  {}

  lemma MappingStep(was: seq<Pde>, next0: nat, kdir: seq<Pde>, next: nat, first: nat, s: nat,
                    kdir': seq<Pde>, next': nat, s': nat)
    requires Mapping(was, next0, kdir, next, first, s) && (s' == s || s' == s + 1) && s' < PAGE_ENTRIES
    requires SlotMapped(kdir, next, kdir', next', s')
    ensures Mapping(was, next0, kdir', next', first, s')
  {}

  lemma MappedMore(was: (seq<Pde>, seq<seq<Pte>>), mid: (seq<Pde>, seq<seq<Pte>>), now: (seq<Pde>, seq<seq<Pte>>),
                   lo: nat, n: nat)
    requires MappedOver(was, mid, lo, n) && MappedOver(mid, now, n, n + 1) && lo <= n
    ensures MappedOver(was, now, lo, n + 1)
  {
    hide View;
    forall x: nat
      ensures View(now.0, now.1, x) ==
                if lo <= x < n + 1 then Some(Access(x * PAGE_SIZE, true, false)) else View(was.0, was.1, x)
    {
      assert View(mid.0, mid.1, x) ==
                if lo <= x < n then Some(Access(x * PAGE_SIZE, true, false)) else View(was.0, was.1, x);
    }
  }

  /** The first page of a range, and the first after it. */
  function FirstPage(start: nat): nat { start / PAGE_SIZE }

  function EndPage(start: nat, length: nat): nat { (start + length + PAGE_SIZE - 1) / PAGE_SIZE }

  lemma NextSlot(n: nat)
    requires n > 0
    ensures n / PAGE_ENTRIES == (n - 1) / PAGE_ENTRIES || n / PAGE_ENTRIES == (n - 1) / PAGE_ENTRIES + 1
  {}

  lemma SlotsOrdered(m: nat, n: nat)
    requires m <= n
    ensures m / PAGE_ENTRIES <= n / PAGE_ENTRIES
  {}

  /** The identity map of the pages from `lo`, up to page `n`. */
  ghost predicate Upto(was: (seq<Pde>, seq<seq<Pte>>), next0: nat, now: (seq<Pde>, seq<seq<Pte>>), next: nat, lo: nat,
                       n: nat)
  {
    && lo <= n && Identity(now.0, now.1, next) && MappedOver(was, now, lo, n)
    && if n == lo then now == was && next == next0
       else Mapping(was.0, next0, now.0, next, lo / PAGE_ENTRIES, (n - 1) / PAGE_ENTRIES)
  }

  lemma UptoRoom(was: (seq<Pde>, seq<seq<Pte>>), next0: nat, now: (seq<Pde>, seq<seq<Pte>>), next: nat,
                 lo: nat, n: nat, hi: nat)
    requires Upto(was, next0, now, next, lo, n) && n < hi <= ALL_PAGES
    requires next0 + (hi - 1) / PAGE_ENTRIES - lo / PAGE_ENTRIES < BOOT_TABLES
    ensures Identity(now.0, now.1, next) && n / PAGE_ENTRIES < |now.0|
    ensures now.0[n / PAGE_ENTRIES].present || next < BOOT_TABLES
  {
    assert |now.0| == PAGE_ENTRIES;
    hide Identity, Mapping, MappedOver;
    SlotsOrdered(n, hi - 1);
    SlotsOrdered(n, ALL_PAGES - 1);
    if n > lo {
      NextSlot(n);
      MappingBound(was.0, next0, now.0, next, lo / PAGE_ENTRIES, (n - 1) / PAGE_ENTRIES);
    }
  }

  lemma UptoNext(was: (seq<Pde>, seq<seq<Pte>>), next0: nat, mid: (seq<Pde>, seq<seq<Pte>>), next: nat,
                 now: (seq<Pde>, seq<seq<Pte>>), next': nat, lo: nat, n: nat)
    requires Identity(was.0, was.1, next0) && n < ALL_PAGES
    requires Upto(was, next0, mid, next, lo, n) && Identity(now.0, now.1, next')
    requires SlotMapped(mid.0, next, now.0, next', n / PAGE_ENTRIES) && MappedOver(mid, now, n, n + 1)
    ensures Upto(was, next0, now, next', lo, n + 1)
  {
    assert |was.0| == PAGE_ENTRIES && forall s | 0 <= s < PAGE_ENTRIES && !was.0[s].present :: !was.0[s].user;
    hide Identity, Mapping, MappedOver, SlotMapped;
    MappedMore(was, mid, now, lo, n);
    SlotsOrdered(n, ALL_PAGES - 1);
    if n == lo {
      MappingFirst(was.0, next0, now.0, next', lo / PAGE_ENTRIES);
    } else {
      NextSlot(n);
      MappingStep(was.0, next0, mid.0, next, lo / PAGE_ENTRIES, (n - 1) / PAGE_ENTRIES, now.0, next', n / PAGE_ENTRIES);
    }
  }

  /** `identity_map_range` over a range that fits the address space and the static tables: every page of
      it is mapped to itself for the kernel, and every other address translates as before. */
  method IdentityMap(pg: Pager, start: nat, length: nat)
    requires pg.Valid() && Identity(pg.kdir, pg.boot, pg.nextBoot) && EndPage(start, length) < ALL_PAGES
    requires pg.nextBoot + (EndPage(start, length) - 1) / PAGE_ENTRIES - FirstPage(start) / PAGE_ENTRIES < BOOT_TABLES
    modifies pg`kdir, pg`boot, pg`nextBoot
    ensures pg.Valid() && Identity(pg.kdir, pg.boot, pg.nextBoot)
    ensures Upto((old(pg.kdir), old(pg.boot)), old(pg.nextBoot), (pg.kdir, pg.boot), pg.nextBoot,
                 FirstPage(start), EndPage(start, length))
  {
    hide Identity, Upto, MappedOver, FirstPage, EndPage, SlotMapped, Paging.Wf;
    ghost var lo, hi, n := FirstPage(start), EndPage(start, length), FirstPage(start);
    ghost var was, next0 := (pg.kdir, pg.boot), pg.nextBoot;
    UptoStart(was, next0, lo);
    var addr, end := start - start % PAGE_SIZE, start + length + PAGE_SIZE - 1;
    end := end - end % PAGE_SIZE;
    WholePages(start, length);
    while addr < end
      invariant lo <= n <= hi && addr == n * PAGE_SIZE && pg.Valid() && Identity(pg.kdir, pg.boot, pg.nextBoot)
      invariant Upto(was, next0, (pg.kdir, pg.boot), pg.nextBoot, lo, n)
      decreases hi - n
    {
      ghost var mid, next := (pg.kdir, pg.boot), pg.nextBoot;
      UptoRoom(was, next0, mid, next, lo, n, hi);
      IdentityPage(pg, addr, n);
      UptoNext(was, next0, mid, next, (pg.kdir, pg.boot), pg.nextBoot, lo, n);
      addr := addr + PAGE_SIZE;
      n := n + 1;
    }
  }

  lemma UptoStart(t: (seq<Pde>, seq<seq<Pte>>), next: nat, lo: nat)
    requires Identity(t.0, t.1, next)
    ensures Upto(t, next, t, next, lo, lo)
  {}

  lemma WholePages(start: nat, length: nat)
    ensures start - start % PAGE_SIZE == FirstPage(start) * PAGE_SIZE && FirstPage(start) <= EndPage(start, length)
    ensures var e := start + length + PAGE_SIZE - 1; e - e % PAGE_SIZE == EndPage(start, length) * PAGE_SIZE
  {}

  // ---- opening regions to user code ----

  function Open(a: Option<Access>): Option<Access> { if a.Some? then Some(a.value.(user := true)) else None }

  /** What the tables show, with the mapped pages from `lo` to `hi` open to user code. */
  ghost predicate OpenedOver(was: (seq<Pde>, seq<seq<Pte>>), now: (seq<Pde>, seq<seq<Pte>>), lo: nat, hi: nat)
  {
    forall n: nat ::
        View(now.0, now.1, n) == if lo <= n < hi then Open(View(was.0, was.1, n)) else View(was.0, was.1, n)
  }

  /** The directory with the present slots from `first` to `last` open to user code. */
  ghost predicate SlotsOpened(was: seq<Pde>, kdir: seq<Pde>, first: nat, last: int)
  {
    && |kdir| == |was|
    && forall s | 0 <= s < |was| ::
        kdir[s] == if first <= s <= last && was[s].present then was[s].(user := true) else was[s]
  }

  /** The directory after the pages from `lo` to `hi` were opened: exactly their present slots are open. */
  ghost predicate RegionOpened(was: seq<Pde>, kdir: seq<Pde>, lo: nat, hi: nat)
  {
    if lo < hi then SlotsOpened(was, kdir, lo / PAGE_ENTRIES, (hi - 1) / PAGE_ENTRIES) else kdir == was
  }

  /** `paging_mark_kernel_region_user` for one page: opens the slot and, if mapped, the page. */
  method MarkUserPage(pg: Pager, addr: nat, ghost n: nat)
    requires pg.Valid() && Identity(pg.kdir, pg.boot, pg.nextBoot) && addr == n * PAGE_SIZE && n < ALL_PAGES
    modifies pg`kdir, pg`boot
    ensures pg.Valid() && Identity(pg.kdir, pg.boot, pg.nextBoot)
    ensures SlotsOpened(old(pg.kdir), pg.kdir, n / PAGE_ENTRIES, n / PAGE_ENTRIES)
    ensures OpenedOver((old(pg.kdir), old(pg.boot)), (pg.kdir, pg.boot), n, n + 1)
  {
    var s, i := Slot(addr), Index(addr);
    PageNumber(n);
    PageParts(n, s, i);
    if !pg.kdir[s].present {
      return;
    }
    assert IdentitySlot(pg.kdir, pg.boot, pg.nextBoot, s);
    SlotOpened(pg.kdir, pg.boot, pg.nextBoot, s);
    pg.kdir := pg.kdir[s := pg.kdir[s].(user := true)];
    var b := pg.kdir[s].table.b;
    if pg.boot[b][i].present {
      assert IdentitySlot(pg.kdir, pg.boot, pg.nextBoot, s);
      EntrySet(pg.kdir, pg.boot, pg.nextBoot, s, i, pg.boot[b][i].(user := true));
      pg.boot := pg.boot[b := pg.boot[b][i := pg.boot[b][i].(user := true)]];
    }
  }

  lemma OpenedMore(was: (seq<Pde>, seq<seq<Pte>>), mid: (seq<Pde>, seq<seq<Pte>>), now: (seq<Pde>, seq<seq<Pte>>),
                   lo: nat, n: nat)
    requires OpenedOver(was, mid, lo, n) && OpenedOver(mid, now, n, n + 1) && lo <= n
    ensures OpenedOver(was, now, lo, n + 1)
  {
    hide View;
    forall x: nat
      ensures View(now.0, now.1, x) == if lo <= x < n + 1 then Open(View(was.0, was.1, x)) else View(was.0, was.1, x)
    {
      assert View(mid.0, mid.1, x) == if lo <= x < n then Open(View(was.0, was.1, x)) else View(was.0, was.1, x);
    }
  }

  lemma OpenedNone(t: (seq<Pde>, seq<seq<Pte>>), lo: nat)
    ensures OpenedOver(t, t, lo, lo) && RegionOpened(t.0, t.0, lo, lo)
  {}

  lemma RegionMore(was: seq<Pde>, mid: seq<Pde>, now: seq<Pde>, lo: nat, n: nat)
    requires RegionOpened(was, mid, lo, n) && SlotsOpened(mid, now, n / PAGE_ENTRIES, n / PAGE_ENTRIES) && lo <= n
    ensures RegionOpened(was, now, lo, n + 1)
  {
    SlotsOrdered(lo, n);
    var first, s := lo / PAGE_ENTRIES, n / PAGE_ENTRIES;
    if n > lo { NextSlot(n); }
    forall x | 0 <= x < |was|
      ensures now[x] == if first <= x <= s && was[x].present then was[x].(user := true) else was[x]
    {
      if n > lo {
        var last := (n - 1) / PAGE_ENTRIES;
        assert mid[x] == if first <= x <= last && was[x].present then was[x].(user := true) else was[x];
      }
    }
  }

  /** `paging_mark_kernel_region_user`: every mapped page of the region becomes user-accessible, and no
      other address translates differently. */
  method MarkUser(pg: Pager, start: nat, length: nat)
    requires pg.Valid() && Identity(pg.kdir, pg.boot, pg.nextBoot) && EndPage(start, length) < ALL_PAGES
    modifies pg`kdir, pg`boot
    ensures pg.Valid() && Identity(pg.kdir, pg.boot, pg.nextBoot)
    ensures OpenedOver((old(pg.kdir), old(pg.boot)), (pg.kdir, pg.boot), FirstPage(start), EndPage(start, length))
    ensures RegionOpened(old(pg.kdir), pg.kdir, FirstPage(start), EndPage(start, length))
  {
    hide Identity, OpenedOver, RegionOpened, SlotsOpened, FirstPage, EndPage, Paging.Wf;
    ghost var lo, hi, n := FirstPage(start), EndPage(start, length), FirstPage(start);
    ghost var was := (pg.kdir, pg.boot);
    OpenedNone(was, lo);
    var addr, end := start - start % PAGE_SIZE, start + length + PAGE_SIZE - 1;
    end := end - end % PAGE_SIZE;
    WholePages(start, length);
    while addr < end
      invariant lo <= n <= hi && addr == n * PAGE_SIZE && pg.Valid() && Identity(pg.kdir, pg.boot, pg.nextBoot)
      invariant OpenedOver(was, (pg.kdir, pg.boot), lo, n) && RegionOpened(was.0, pg.kdir, lo, n)
      decreases hi - n
    {
      ghost var mid := (pg.kdir, pg.boot);
      MarkUserPage(pg, addr, n);
      OpenedMore(was, mid, (pg.kdir, pg.boot), lo, n);
      RegionMore(was.0, mid.0, pg.kdir, lo, n);
      addr := addr + PAGE_SIZE;
      n := n + 1;
    }
  }

  // ---- guard pages ----

  /** What the tables show, with page `n` unmapped. */
  ghost predicate Unmapped(was: (seq<Pde>, seq<seq<Pte>>), now: (seq<Pde>, seq<seq<Pte>>), n: nat)
  {
    forall x: nat :: View(now.0, now.1, x) == if x == n then None else View(was.0, was.1, x)
  }

  /** `paging_unmap_page`: the page no longer translates, every other one does as before. */
  method UnmapPage(pg: Pager, v: nat)
    requires pg.Valid() && Identity(pg.kdir, pg.boot, pg.nextBoot) && FirstPage(v) < ALL_PAGES
    modifies pg`boot
    ensures pg.Valid() && Identity(pg.kdir, pg.boot, pg.nextBoot)
    ensures Unmapped((old(pg.kdir), old(pg.boot)), (pg.kdir, pg.boot), FirstPage(v))
  {
    ghost var n := FirstPage(v);
    var addr := v - v % PAGE_SIZE;
    var s, i := Slot(addr), Index(addr);
    PageNumber(n);
    PageParts(n, s, i);
    if !pg.kdir[s].present {
      return;
    }
    assert IdentitySlot(pg.kdir, pg.boot, pg.nextBoot, s);
    var b := pg.kdir[s].table.b;
    EntrySet(pg.kdir, pg.boot, pg.nextBoot, s, i, pg.boot[b][i].(present := false));
    pg.boot := pg.boot[b := pg.boot[b][i := pg.boot[b][i].(present := false)]];
  }

  /** Page `n` is the lowest of one of the first `k` stack slots. */
  ghost predicate Guard(stacks: nat, k: nat, n: nat)
  {
    exists i: nat :: i < k && n == FirstPage(stacks + i * Tasks.STACK_SLOT)
  }

  ghost predicate Guarded(was: (seq<Pde>, seq<seq<Pte>>), now: (seq<Pde>, seq<seq<Pte>>), stacks: nat, k: nat)
  {
    forall n: nat :: View(now.0, now.1, n) == if Guard(stacks, k, n) then None else View(was.0, was.1, n)
  }

  lemma GuardNext(was: (seq<Pde>, seq<seq<Pte>>), mid: (seq<Pde>, seq<seq<Pte>>), now: (seq<Pde>, seq<seq<Pte>>),
                  stacks: nat, k: nat)
    requires Guarded(was, mid, stacks, k) && Unmapped(mid, now, FirstPage(stacks + k * Tasks.STACK_SLOT))
    ensures Guarded(was, now, stacks, k + 1)
  {
    hide View;
    forall n: nat ensures View(now.0, now.1, n) == if Guard(stacks, k + 1, n) then None else View(was.0, was.1, n) {
      assert View(mid.0, mid.1, n) == if Guard(stacks, k, n) then None else View(was.0, was.1, n);
      assert Guard(stacks, k + 1, n) <==> Guard(stacks, k, n) || n == FirstPage(stacks + k * Tasks.STACK_SLOT);
    }
  }

  /** `task_stacks_init_guards`: the lowest page of each task's stack slot is unmapped, and no other. */
  method GuardStacks(pg: Pager, stacks: nat)
    requires pg.Valid() && Identity(pg.kdir, pg.boot, pg.nextBoot)
    requires stacks + Tasks.MAX_TASKS * Tasks.STACK_SLOT < LOW_BYTES
    modifies pg`boot
    ensures pg.Valid() && Identity(pg.kdir, pg.boot, pg.nextBoot)
    ensures Guarded((pg.kdir, old(pg.boot)), (pg.kdir, pg.boot), stacks, Tasks.MAX_TASKS)
  {
    hide Identity, View, FirstPage, Unmapped, Paging.Wf;
    for i := 0 to Tasks.MAX_TASKS
      invariant pg.Valid() && Identity(pg.kdir, pg.boot, pg.nextBoot)
      invariant Guarded((pg.kdir, old(pg.boot)), (pg.kdir, pg.boot), stacks, i)
    {
      ghost var mid := (pg.kdir, pg.boot);
      LowPage(stacks + i * Tasks.STACK_SLOT);
      UnmapPage(pg, stacks + i * Tasks.STACK_SLOT);
      GuardNext((pg.kdir, old(pg.boot)), mid, (pg.kdir, pg.boot), stacks, i);
    }
  }

  lemma LowPage(v: nat)
    requires v < LOW_BYTES
    ensures FirstPage(v) < LOW_PAGES
  {}

  // ---- boot ----

  /** The static state `paging_init` leaves: an identity map, and empty pools. */
  ghost predicate Mapped(pg: Pager)
    reads pg, pg.bitmap.words
  {
    && pg.Valid() && Identity(pg.kdir, pg.boot, pg.nextBoot)
    && pg.kdir[APP_SLOT].(user := false) == Pde(Boot(0), true, true, false)
    && pg.kdir[PRIVATE_SLOT] == ZERO_PDE && pg.kdir[SPAWN_SLOT] == ZERO_PDE
    && (forall s | 0 <= s < PAGE_ENTRIES && !Tracked(s) :: !pg.kdir[s].user)
    && pg.dirUsed == seq(MAX_DIRS, _ => false) && pg.owner == seq(MAX_TABLES, _ => NoDir)
    && pg.bitmap.Bits() == seq(POOL_FRAMES, _ => false)
  }

  /** The framebuffer, if there is one, fits the address space and the static tables and lies off the two
      slots for private pages. */
  ghost predicate Framebuffer(base: nat, bytes: nat)
  {
    && EndPage(base, bytes) < ALL_PAGES
    && (FirstPage(base) < EndPage(base, bytes) ==>
          var first, last := FirstPage(base) / PAGE_ENTRIES, (EndPage(base, bytes) - 1) / PAGE_ENTRIES;
          last - first < 16 && !(first <= PRIVATE_SLOT <= last) && !(first <= SPAWN_SLOT <= last))
  }

  /** Exactly low memory and the framebuffer are mapped, each page to itself; page `n` of low memory is
      open to user code when it lies in one of the regions. */
  ghost predicate Shows(kdir: seq<Pde>, boot: seq<seq<Pte>>, base: nat, bytes: nat, regions: seq<(nat, nat)>)
  {
    forall n: nat :: View(kdir, boot, n) ==
      if n < LOW_PAGES || FirstPage(base) <= n < EndPage(base, bytes)
      then Some(Access(n * PAGE_SIZE, true, InRegions(regions, n))) else None
  }

  ghost predicate InRegions(regions: seq<(nat, nat)>, n: nat)
  {
    exists i :: 0 <= i < |regions| && FirstPage(regions[i].0) <= n < EndPage(regions[i].0, regions[i].1)
  }

  lemma BlankIdentity(kdir: seq<Pde>, boot: seq<seq<Pte>>)
    requires kdir == seq(PAGE_ENTRIES, _ => ZERO_PDE) && |boot| == BOOT_TABLES
    requires forall b | 0 <= b < BOOT_TABLES :: |boot[b]| == PAGE_ENTRIES
    ensures Identity(kdir, boot, 0)
  {}

  lemma MapsShow(blank: (seq<Pde>, seq<seq<Pte>>), low: (seq<Pde>, seq<seq<Pte>>), now: (seq<Pde>, seq<seq<Pte>>),
                 base: nat, bytes: nat)
    requires forall n: nat :: View(blank.0, blank.1, n) == None
    requires MappedOver(blank, low, 0, LOW_PAGES) && MappedOver(low, now, FirstPage(base), EndPage(base, bytes))
    ensures Shows(now.0, now.1, base, bytes, [])
  {
    hide View;
    forall n: nat
      ensures View(now.0, now.1, n) ==
        if n < LOW_PAGES || FirstPage(base) <= n < EndPage(base, bytes)
        then Some(Access(n * PAGE_SIZE, true, InRegions([], n))) else None
    {
      assert View(low.0, low.1, n) ==
                if n < LOW_PAGES then Some(Access(n * PAGE_SIZE, true, false)) else View(blank.0, blank.1, n);
    }
  }

  lemma DirectoryMapped(was: seq<Pde>, low: seq<Pde>, next: nat, now: seq<Pde>, next': nat, base: nat, bytes: nat)
    requires was == seq(PAGE_ENTRIES, _ => ZERO_PDE) && Framebuffer(base, bytes)
    requires FirstPage(base) < EndPage(base, bytes)
    requires Mapping(was, 0, low, next, 0, LOW_PAGES / PAGE_ENTRIES - 1)
    requires Mapping(low, next, now, next', FirstPage(base) / PAGE_ENTRIES, (EndPage(base, bytes) - 1) / PAGE_ENTRIES)
    ensures now[APP_SLOT] == Pde(Boot(0), true, true, false)
    ensures now[PRIVATE_SLOT] == ZERO_PDE && now[SPAWN_SLOT] == ZERO_PDE
    ensures forall s | 0 <= s < PAGE_ENTRIES && !Tracked(s) :: !now[s].user
  {
    assert Tracked(PRIVATE_SLOT) && Tracked(SPAWN_SLOT) && Tracked(APP_SLOT);
  }

  /** Low memory, then the framebuffer. */
  lemma InitMaps(blank: (seq<Pde>, seq<seq<Pte>>), low: (seq<Pde>, seq<seq<Pte>>), next: nat,
                 now: (seq<Pde>, seq<seq<Pte>>), next': nat, base: nat, bytes: nat)
    requires blank.0 == seq(PAGE_ENTRIES, _ => ZERO_PDE) && Framebuffer(base, bytes)
    requires Upto(blank, 0, low, next, 0, LOW_PAGES)
    requires Upto(low, next, now, next', FirstPage(base), EndPage(base, bytes))
    ensures Shows(now.0, now.1, base, bytes, []) && |now.0| == PAGE_ENTRIES
    ensures now.0[APP_SLOT] == Pde(Boot(0), true, true, false)
    ensures now.0[PRIVATE_SLOT] == ZERO_PDE && now.0[SPAWN_SLOT] == ZERO_PDE
    ensures forall s | 0 <= s < PAGE_ENTRIES && !Tracked(s) :: !now.0[s].user
  {
    assert forall n: nat :: View(blank.0, blank.1, n) == None;
    hide Identity, View, MappedOver, Mapping, Shows, Tracked;
    MapsShow(blank, low, now, base, bytes);
    if FirstPage(base) < EndPage(base, bytes) {
      DirectoryMapped(blank.0, low.0, next, now.0, next', base, bytes);
    } else {
      LowMapped(blank.0, low.0, next);
    }
  }

  lemma LowMapped(was: seq<Pde>, low: seq<Pde>, next: nat)
    requires was == seq(PAGE_ENTRIES, _ => ZERO_PDE) && Mapping(was, 0, low, next, 0, LOW_PAGES / PAGE_ENTRIES - 1)
    ensures |low| == PAGE_ENTRIES && low[APP_SLOT] == Pde(Boot(0), true, true, false)
    ensures low[PRIVATE_SLOT] == ZERO_PDE && low[SPAWN_SLOT] == ZERO_PDE
    ensures forall s | 0 <= s < PAGE_ENTRIES && !Tracked(s) :: !low[s].user
  {}

  lemma LowTables(blank: (seq<Pde>, seq<seq<Pte>>), low: (seq<Pde>, seq<seq<Pte>>), next: nat, base: nat, bytes: nat)
    requires Upto(blank, 0, low, next, 0, LOW_PAGES) && Framebuffer(base, bytes)
    ensures next + (EndPage(base, bytes) - 1) / PAGE_ENTRIES - FirstPage(base) / PAGE_ENTRIES < BOOT_TABLES
    ensures EndPage(base, bytes) < ALL_PAGES
  {
    hide Identity, MappedOver;
  }

  lemma LowFits()
    ensures FirstPage(0) == 0 && EndPage(0, LOW_BYTES) == LOW_PAGES < ALL_PAGES
    ensures (LOW_PAGES - 1) / PAGE_ENTRIES - 0 / PAGE_ENTRIES < BOOT_TABLES
  {}

  /** `paging_init`. */
  method PagingInit(fbBase: nat, fbBytes: nat) returns (pg: Pager)
    requires Framebuffer(fbBase, fbBytes)
    ensures fresh(pg) && fresh(pg.bitmap) && fresh(pg.bitmap.words) && Mapped(pg)
    ensures Shows(pg.kdir, pg.boot, fbBase, fbBytes, [])
  {
    pg := new Pager();
    ghost var blank := (pg.kdir, pg.boot);
    BlankIdentity(pg.kdir, pg.boot);
    hide Identity, View, Upto, Shows, Tracked, Framebuffer, FirstPage, EndPage;
    LowFits();
    IdentityMap(pg, 0, LOW_BYTES);
    ghost var low, next := (pg.kdir, pg.boot), pg.nextBoot;
    LowTables(blank, low, next, fbBase, fbBytes);
    IdentityMap(pg, fbBase, fbBytes);
    InitMaps(blank, low, next, (pg.kdir, pg.boot), pg.nextBoot, fbBase, fbBytes);
    pg.bitmap.Reset();
  }

  lemma RegionShows(was: (seq<Pde>, seq<seq<Pte>>), now: (seq<Pde>, seq<seq<Pte>>), base: nat, bytes: nat,
                    regions: seq<(nat, nat)>, k: nat)
    requires k < |regions| && Shows(was.0, was.1, base, bytes, regions[..k])
    requires OpenedOver(was, now, FirstPage(regions[k].0), EndPage(regions[k].0, regions[k].1))
    ensures Shows(now.0, now.1, base, bytes, regions[..k + 1])
  {
    hide View, FirstPage, EndPage;
    forall n: nat
      ensures View(now.0, now.1, n) ==
        if n < LOW_PAGES || FirstPage(base) <= n < EndPage(base, bytes)
        then Some(Access(n * PAGE_SIZE, true, InRegions(regions[..k + 1], n))) else None
    {
      assert View(was.0, was.1, n) ==
        if n < LOW_PAGES || FirstPage(base) <= n < EndPage(base, bytes)
        then Some(Access(n * PAGE_SIZE, true, InRegions(regions[..k], n))) else None;
      InMore(regions, k, n);
    }
  }

  lemma InMore(regions: seq<(nat, nat)>, k: nat, n: nat)
    requires k < |regions|
    ensures InRegions(regions[..k + 1], n) <==>
            InRegions(regions[..k], n) || FirstPage(regions[k].0) <= n < EndPage(regions[k].0, regions[k].1)
  {
    hide FirstPage, EndPage;
    var a, b := regions[..k + 1], regions[..k];
    assert a == b + [regions[k]];
    if FirstPage(regions[k].0) <= n < EndPage(regions[k].0, regions[k].1) { assert a[k] == regions[k]; }
    if i :| 0 <= i < |b| && FirstPage(b[i].0) <= n < EndPage(b[i].0, b[i].1) { assert a[i] == b[i]; }
  }

  /** A region of the first 4 MB opens its slot alone. */
  lemma RegionLow(was: seq<Pde>, now: seq<Pde>, r: (nat, nat))
    requires |was| == PAGE_ENTRIES && r.0 + r.1 <= SLOT_SPAN && was[APP_SLOT].present
    requires RegionOpened(was, now, FirstPage(r.0), EndPage(r.0, r.1))
    ensures now == was || now == was[APP_SLOT := was[APP_SLOT].(user := true)]
    ensures r.1 > 0 ==> now[APP_SLOT].user
  {
    assert EndPage(r.0, r.1) <= PAGE_ENTRIES;
    if FirstPage(r.0) < EndPage(r.0, r.1) {
      assert FirstPage(r.0) / PAGE_ENTRIES == 0 && (EndPage(r.0, r.1) - 1) / PAGE_ENTRIES == 0;
      assert now == was[APP_SLOT := was[APP_SLOT].(user := true)];
    }
  }

  /** kernel_main's calls of `paging_mark_kernel_region_user`. */
  method MarkRegions(pg: Pager, ghost fbBase: nat, ghost fbBytes: nat, regions: seq<(nat, nat)>)
    requires Mapped(pg) && Shows(pg.kdir, pg.boot, fbBase, fbBytes, [])
    requires forall r | r in regions :: r.0 + r.1 <= SLOT_SPAN
    modifies pg`kdir, pg`boot
    ensures Mapped(pg) && Shows(pg.kdir, pg.boot, fbBase, fbBytes, regions)
    ensures (exists i :: 0 <= i < |regions| && regions[i].1 > 0) ==> pg.kdir[APP_SLOT].user
  {
    for n := 0 to |regions|
      invariant Mapped(pg) && Shows(pg.kdir, pg.boot, fbBase, fbBytes, regions[..n])
      invariant (exists i :: 0 <= i < n && regions[i].1 > 0) ==> pg.kdir[APP_SLOT].user
    {
      hide Identity, View, Shows, OpenedOver, RegionOpened, FirstPage, EndPage;
      assert regions[n] in regions;
      ghost var was := (pg.kdir, pg.boot);
      RegionFits(regions[n]);
      MarkUser(pg, regions[n].0, regions[n].1);
      RegionShows(was, (pg.kdir, pg.boot), fbBase, fbBytes, regions, n);
      RegionLow(was.0, pg.kdir, regions[n]);
    }
    assert regions[..|regions|] == regions;
  }

  /** kernel_main's paging part: `paging_init`, the regions of the first 4 MB that ring-3 code may touch,
      and the guard pages `task_init` starts with. Each low page but a guard page then translates to
      itself, writable, and open to user code exactly in a region. */
  method BootPaging(fbBase: nat, fbBytes: nat, regions: seq<(nat, nat)>, stacks: nat) returns (pg: Pager)
    requires Framebuffer(fbBase, fbBytes) && stacks + Tasks.MAX_TASKS * Tasks.STACK_SLOT < POOL_START
    requires forall r | r in regions :: r.0 + r.1 <= SLOT_SPAN
    requires exists i :: 0 <= i < |regions| && regions[i].1 > 0
    ensures fresh(pg) && fresh(pg.bitmap) && fresh(pg.bitmap.words) && BootPages(pg.Abs())
    ensures forall n: nat | n < LOW_PAGES :: View(pg.kdir, pg.boot, n) ==
              if Guard(stacks, Tasks.MAX_TASKS, n) then None
              else Some(Access(n * PAGE_SIZE, true, InRegions(regions, n)))
  {
    pg := PagingInit(fbBase, fbBytes);
    MarkRegions(pg, fbBase, fbBytes, regions);
    hide Identity, BootPages, View, Shows, Guarded;
    ghost var was := (pg.kdir, pg.boot);
    GuardStacks(pg, stacks);
    BootShows(was, (pg.kdir, pg.boot), fbBase, fbBytes, regions, stacks);
    IdentityBoots(pg.Abs(), pg.nextBoot);
  }

  lemma RegionFits(r: (nat, nat))
    requires r.0 + r.1 <= SLOT_SPAN
    ensures EndPage(r.0, r.1) < ALL_PAGES
  {}

  lemma BootShows(was: (seq<Pde>, seq<seq<Pte>>), now: (seq<Pde>, seq<seq<Pte>>), base: nat, bytes: nat,
                  regions: seq<(nat, nat)>, stacks: nat)
    requires Shows(was.0, was.1, base, bytes, regions) && Guarded(was, now, stacks, Tasks.MAX_TASKS)
    requires stacks + Tasks.MAX_TASKS * Tasks.STACK_SLOT < POOL_START
    requires forall r | r in regions :: r.0 + r.1 <= SLOT_SPAN
    ensures forall n: nat | n < LOW_PAGES :: View(now.0, now.1, n) ==
              if Guard(stacks, Tasks.MAX_TASKS, n) then None
              else Some(Access(n * PAGE_SIZE, true, InRegions(regions, n)))
    ensures PoolMapped(now.0, now.1)
  {
    hide View;
    forall n: nat | POOL_START / PAGE_SIZE <= n < POOL_END / PAGE_SIZE
      ensures View(now.0, now.1, n) == Some(Access(n * PAGE_SIZE, true, false))
    {
      PoolPage(regions, stacks, n);
    }
  }

  lemma PoolPage(regions: seq<(nat, nat)>, stacks: nat, n: nat)
    requires stacks + Tasks.MAX_TASKS * Tasks.STACK_SLOT < POOL_START && POOL_START / PAGE_SIZE <= n
    requires forall r | r in regions :: r.0 + r.1 <= SLOT_SPAN
    ensures !InRegions(regions, n) && !Guard(stacks, Tasks.MAX_TASKS, n)
  {
    forall i | 0 <= i < |regions| ensures EndPage(regions[i].0, regions[i].1) <= n {
      assert regions[i] in regions;
    }
  }

  lemma IdentityBoots(p: Pages, next: nat)
    requires Wf(p) && Identity(p.kdir, p.boot, next) && p.kdir[APP_SLOT] == Pde(Boot(0), true, true, true)
    requires p.kdir[PRIVATE_SLOT] == ZERO_PDE && p.kdir[SPAWN_SLOT] == ZERO_PDE
    requires forall s | 0 <= s < PAGE_ENTRIES && !Tracked(s) :: !p.kdir[s].user
    requires p.dirUsed == seq(MAX_DIRS, _ => false) && p.owner == seq(MAX_TABLES, _ => NoDir)
    requires p.bits == seq(POOL_FRAMES, _ => false) && PoolMapped(p.kdir, p.boot)
    ensures BootPages(p)
  {
    assert IdentitySlot(p.kdir, p.boot, next, APP_SLOT);
    forall s | 0 <= s < PAGE_ENTRIES ensures p.kdir[s].table.Boot? {
      assert p.kdir[s].present ==> IdentitySlot(p.kdir, p.boot, next, s);
    }
  }
}
