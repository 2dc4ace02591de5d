/** paging.c and pmm.c as they run: static arrays updated in place by loops. Each method computes
    the function of the same name in Paging. */
module Pager {
  import opened Common
  import opened Paging
  import opened BitWords

  class Pager {
    var kdir: seq<Pde>
    var dirs: seq<seq<Pde>>
    var dirUsed: seq<bool>
    var boot: seq<seq<Pte>>
    var tables: seq<seq<Pte>>
    var owner: seq<DirRef>
    const bitmap: Bitmap
    var ram: seq<seq<byte>>
    var low: seq<seq<byte>>
    var nextBoot: nat // next_free_table

    ghost function Abs(): Pages
      reads this, bitmap.words
    {
      Pages(kdir, dirs, dirUsed, boot, tables, owner, bitmap.Bits(), ram, low)
    }

    ghost predicate Valid()
      reads this, bitmap.words
    {
      Wf(Abs())
    }

    /** The zeroed statics before boot. */
    constructor ()
      ensures Valid() && fresh(bitmap) && fresh(bitmap.words) && nextBoot == 0
      ensures kdir == seq(PAGE_ENTRIES, _ => ZERO_PDE)
      ensures dirUsed == seq(MAX_DIRS, _ => false) && owner == seq(MAX_TABLES, _ => NoDir)
      ensures bitmap.Bits() == seq(POOL_FRAMES, _ => false)
    {
      kdir := seq(PAGE_ENTRIES, _ => ZERO_PDE);
      dirs := seq(MAX_DIRS, _ => seq(PAGE_ENTRIES, _ => ZERO_PDE));
      dirUsed := seq(MAX_DIRS, _ => false);
      boot := seq(BOOT_TABLES, _ => ZeroTable());
      tables := seq(MAX_TABLES, _ => ZeroTable());
      owner := seq(MAX_TABLES, _ => NoDir);
      bitmap := new Bitmap(POOL_FRAMES / 32);
      ram := seq(POOL_FRAMES, _ => ZeroFrame());
      low := seq(PAGE_ENTRIES, _ => ZeroFrame());
      nextBoot := 0;
    }

    /** `pmm_alloc_frame`: scan for a clear bit, set it, zero the frame byte by byte. */
    method AllocFrame() returns (r: Option<nat>)
      requires Valid()
      modifies this`ram, bitmap.words
      ensures Valid() && Abs() == Paging.AllocFrame(old(Abs())).0 && r == Paging.AllocFrame(old(Abs())).1
    {
      for i := 0 to POOL_FRAMES
        invariant Valid() && Abs() == old(Abs())
        invariant forall j | 0 <= j < i :: bitmap.Bits()[j]
      {
        if !bitmap.Get(i) {
          bitmap.Set(i);
          ZeroBytes(i);
          assert First(old(Abs()).bits, false) == Some(i);
          return Some(i);
        }
      }
      return None;
    }

    method ZeroBytes(f: nat)
      requires f < |ram| && |ram[f]| == PAGE_SIZE
      modifies this`ram
      ensures ram == old(ram)[f := ZeroFrame()]
    {
      for b := 0 to PAGE_SIZE
        invariant |ram| == |old(ram)| && |ram[f]| == PAGE_SIZE
        invariant forall g | 0 <= g < |ram| && g != f :: ram[g] == old(ram)[g]
        invariant forall j | 0 <= j < b :: ram[f][j] == 0
      {
        ram := ram[f := ram[f][..b] + [0] + ram[f][b + 1..]];
      }
      assert ram[f] == ZeroFrame();
    }

    /** `pmm_free_frame`. */
    method FreeFrame(addr: nat)
      requires Valid()
      modifies bitmap.words
      ensures Valid() && Abs() == old(Abs()).(bits := Paging.FreeFrame(old(Abs()).bits, addr))
    {
      if POOL_START <= addr < POOL_END {
        bitmap.Clear((addr - POOL_START) / PAGE_SIZE);
      }
    }

    /** `paging_clone_kernel_directory`. */
    method CloneDirectory() returns (r: Option<nat>)
      requires Valid()
      modifies this`dirs, this`dirUsed
      ensures Valid() && Abs() == CloneDir(old(Abs())).0 && r == CloneDir(old(Abs())).1
    {
      var slot := 0;
      while slot < MAX_DIRS && dirUsed[slot]
        invariant slot <= MAX_DIRS
        invariant forall j | 0 <= j < slot :: dirUsed[j]
      {
        slot := slot + 1;
      }
      if slot == MAX_DIRS {
        return None;
      }
      dirUsed := dirUsed[slot := true];
      for i := 0 to PAGE_ENTRIES
        invariant dirUsed == old(dirUsed)[slot := true]
        invariant |dirs| == MAX_DIRS && |dirs[slot]| == PAGE_ENTRIES
        invariant forall d | 0 <= d < MAX_DIRS && d != slot :: dirs[d] == old(dirs)[d]
        invariant forall s | 0 <= s < i :: dirs[slot][s] == kdir[s]
      {
        dirs := dirs[slot := dirs[slot][i := kdir[i]]];
      }
      assert dirs[slot] == kdir;
      assert dirs == old(dirs)[slot := kdir];
      return Some(slot);
    }

    /** `paging_free_directory`. */
    method FreeDirectory(d: DirRef)
      requires Valid() && ValidDir(d)
      modifies this`dirUsed
      ensures Valid() && Abs() == FreeDir(old(Abs()), d)
    {
      for i := 0 to MAX_DIRS
        invariant dirUsed == old(dirUsed) && (d.Pool? ==> i <= d.d)
      {
        if d == Pool(i) {
          dirUsed := dirUsed[i := false];
          return;
        }
      }
    }

    method StorePde(d: DirRef, s: nat, e: Pde)
      requires Valid() && ValidDir(d) && s < PAGE_ENTRIES && ValidPde(e)
      modifies this`kdir, this`dirs
      ensures Valid() && Abs() == SetPde(old(Abs()), d, s, e)
    {
      if d.KernelDir? {
        kdir := kdir[s := e];
      } else {
        dirs := dirs[d.d := dirs[d.d][s := e]];
      }
    }

    method LoadPde(d: DirRef, s: nat) returns (e: Pde)
      requires Valid() && ValidDir(d) && s < PAGE_ENTRIES
      ensures e == Dir(Abs(), d)[s]
    {
      if d.KernelDir? {
        e := kdir[s];
      } else {
        e := dirs[d.d][s];
      }
    }

    /** `paging_share_pde`. */
    method Share(dst: DirRef, src: DirRef, vaddr: nat)
      requires Valid() && ValidDir(dst) && ValidDir(src) && Slot(vaddr) < PAGE_ENTRIES
      modifies this`kdir, this`dirs
      ensures Valid() && Abs() == SharePde(old(Abs()), dst, src, vaddr)
    {
      var e := LoadPde(src, Slot(vaddr));
      assert ValidPde(e);
      StorePde(dst, Slot(vaddr), e);
    }

    /** `task_private_table_owner_of`, as a test: does the pool hold this table for `d`? */
    method OwnedBy(table: TableRef, d: DirRef) returns (b: bool)
      requires Valid() && ValidDir(d)
      ensures b <==> table.Private? && table.t < MAX_TABLES && owner[table.t] == d
    {
      for i := 0 to MAX_TABLES
        invariant forall j | 0 <= j < i :: !(table == Private(j) && owner[j] == d)
      {
        if table == Private(i) && owner[i] == d {
          return true;
        }
      }
      return false;
    }

    /** `alloc_task_private_table`: claim a free table and copy what the slot showed before. */
    method AllocTable(d: DirRef, existing: Pde) returns (r: Option<nat>)
      requires Valid() && ValidPde(existing)
      modifies this`owner, this`tables
      ensures Valid() && r == First(old(owner), NoDir)
      ensures r.None? ==> owner == old(owner) && tables == old(tables)
      ensures r.Some? ==>
        && owner == old(owner)[r.value := d]
        && tables == old(tables)[r.value := if existing.present then Table(old(Abs()), existing.table) else ZeroTable()]
    {
      var t := 0;
      while t < MAX_TABLES && owner[t] != NoDir
        invariant t <= MAX_TABLES
        invariant forall j | 0 <= j < t :: owner[j] != NoDir
      {
        t := t + 1;
      }
      if t == MAX_TABLES {
        return None;
      }
      owner := owner[t := d];
      ghost var source := if existing.present then Table(old(Abs()), existing.table) else ZeroTable();
      for j := 0 to PAGE_ENTRIES
        invariant owner == old(owner)[t := d]
        invariant |tables| == MAX_TABLES && |tables[t]| == PAGE_ENTRIES
        invariant forall u | 0 <= u < MAX_TABLES && u != t :: tables[u] == old(tables)[u]
        invariant forall i | 0 <= i < j :: tables[t][i] == source[i]
        invariant forall i | j <= i < PAGE_ENTRIES :: tables[t][i] == old(tables)[t][i]
      {
        var x := ZERO_PTE;
        if existing.present {
          x := if existing.table.Boot? then boot[existing.table.b][j] else tables[existing.table.t][j];
        }
        tables := tables[t := tables[t][j := x]];
      }
      assert tables[t] == source;
      assert tables == old(tables)[t := source];
      return Some(t);
    }

    /** The first half of `paging_map_private_page`: the table this directory already owns in the
        slot, or a new one installed there. */
    method PrivateTable(d: DirRef, s: nat) returns (r: Option<nat>)
      requires Valid() && ValidDir(d) && s < PAGE_ENTRIES
      modifies this`owner, this`tables, this`kdir, this`dirs
      ensures Valid() && (r.Some? ==> r.value < MAX_TABLES)
      ensures
        if OwnsSlot(old(Abs()), d, s) then Abs() == old(Abs()) && r == Some(Dir(Abs(), d)[s].table.t)
        else
          && r == First(old(Abs()).owner, NoDir)
          && Abs() == if r.Some? then NewTable(old(Abs()), d, s, r.value) else old(Abs())
    {
      var e := LoadPde(d, s);
      var owned := OwnedBy(e.table, d);
      if e.present && owned {
        return Some(e.table.t);
      }
      r := AllocTable(d, e);
      if r.Some? {
        StorePde(d, s, Pde(Private(r.value), true, true, true));
      }
    }

    /** The second half: a fresh frame at entry `i` of table `t`. */
    method MapFrameAt(t: nat, i: nat) returns (r: Option<nat>)
      requires Valid() && t < MAX_TABLES && i < PAGE_ENTRIES
      modifies this`tables, this`ram, bitmap.words
      ensures Valid() && Abs() == MapFrame(old(Abs()), t, i).0 && r == MapFrame(old(Abs()), t, i).1
    {
      r := AllocFrame();
      if r.Some? {
        tables := tables[t := tables[t][i := Pte(FrameAddr(r.value), true, true, true)]];
      }
    }

    /** `paging_map_private_page`. */
    method MapPrivatePage(d: DirRef, vaddr: nat) returns (r: Option<nat>)
      requires Valid() && ValidDir(d) && Slot(vaddr) < PAGE_ENTRIES
      modifies this`owner, this`tables, this`kdir, this`dirs, this`ram, bitmap.words
      ensures Valid()
      ensures Abs() == MapPrivate(old(Abs()), d, vaddr).0 && r == MapPrivate(old(Abs()), d, vaddr).1
    {
      hide Wf, NewTable, MapFrame;
      var t := PrivateTable(d, Slot(vaddr));
      if t.None? {
        return None;
      }
      r := MapFrameAt(t.value, Index(vaddr));
    }

    /** The inner loop of `paging_free_private_pages`. */
    method FreeTableFrames(t: nat)
      requires Valid() && t < MAX_TABLES
      modifies bitmap.words
      ensures Valid() && Abs() == old(Abs()).(bits := FreeEntries(old(Abs()), t, PAGE_ENTRIES))
    {
      for i := 0 to PAGE_ENTRIES
        invariant Valid() && Abs() == old(Abs()).(bits := FreeEntries(old(Abs()), t, i))
      {
        if tables[t][i].present {
          FreeFrame(tables[t][i].frame);
        }
      }
    }

    /** `free_task_private_table`. */
    method FreeTable(table: TableRef)
      requires Valid() && table.Private? && table.t < MAX_TABLES
      modifies this`owner
      ensures Valid() && owner == old(owner)[table.t := NoDir]
    {
      for i := 0 to MAX_TABLES
        invariant owner == old(owner) && i <= table.t
      {
        if table == Private(i) {
          owner := owner[i := NoDir];
          return;
        }
      }
    }

    method FreeSlotPages(d: DirRef, s: nat)
      requires Valid() && ValidDir(d) && s < PAGE_ENTRIES
      modifies this`kdir, this`dirs, this`owner, bitmap.words
      ensures Valid() && Abs() == FreeSlot(old(Abs()), d, s)
    {
      var e := LoadPde(d, s);
      if e.present {
        var owned := OwnedBy(e.table, d);
        if owned {
          FreeTableFrames(e.table.t);
          FreeTable(e.table);
          StorePde(d, s, ZERO_PDE);
        }
      }
    }

    /** `paging_free_private_pages`. */
    method FreePrivatePages(d: DirRef)
      requires Valid() && ValidDir(d)
      modifies this`kdir, this`dirs, this`owner, bitmap.words
      ensures Valid() && Abs() == FreePrivate(old(Abs()), d, PAGE_ENTRIES)
    {
      hide Wf, FreeSlot;
      for s := 0 to PAGE_ENTRIES
        invariant Valid() && Abs() == FreePrivate(old(Abs()), d, s)
      {
        FreeSlotPages(d, s);
      }
    }
  }
}
