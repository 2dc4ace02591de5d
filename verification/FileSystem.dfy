/** The filesystem as it runs (filesys/fs.c): sectors, bitmap words and descriptors changed in
    place. Each call is proved to do to them what the value model says. */
module FileSystem {
  import opened Common
  import opened BitWords
  import opened Fs
  import opened FsDisk
  import opened FsInv
  import opened FsData
  import opened FsTree

  const BITMAP_WORDS := 243

  // ---- facts the loops use ----

  lemma StoredIsStorable(disk: seq<Sector>, i: nat)
    requires IsDisk(disk) && i < MAX_INODES && ValidPath(StoredInode(disk, i).name)
    ensures Storable(StoredInode(disk, i))
  {}

  lemma SlicesJoin(c: seq<byte>, i: nat, j: nat, k: nat)
    requires i <= j <= k <= |c|
    ensures c[i..j] + c[j..k] == c[i..k]
  {}

  lemma LastSlashGrows(p: Path, i: nat)
    requires i < |p|
    ensures LastSlash(p[..i + 1]) == if p[i] == SLASH then i else LastSlash(p[..i])
  {
    assert p[..i + 1][..i] == p[..i];
  }

  lemma SetRunStep(bits: seq<bool>, start: nat, n: nat, v: bool)
    requires start + n < |bits|
    ensures SetRun(bits, start, n + 1, v) == SetRun(bits, start, n, v)[start + n := v]
  {}

  lemma ContentChunk(fs: FS, x: Inode, pos: nat, n: nat)
    requires Wf(fs) && Fits(x) && pos % SECTOR + n <= SECTOR && pos + n <= x.size && n > 0
    ensures x.start >= DATA_START && x.start - DATA_START + pos / SECTOR < DATA_SECTORS
    ensures Content(fs, x)[pos..pos + n] == fs.data[x.start - DATA_START + pos / SECTOR][pos % SECTOR..pos % SECTOR + n]
  {
    InExtent(x, pos);
    forall k: nat | pos <= k < pos + n
      ensures Content(fs, x)[k] == fs.data[x.start - DATA_START + pos / SECTOR][pos % SECTOR + (k - pos)]
    {
      InExtent(x, k);
      assert k / SECTOR == pos / SECTOR && k % SECTOR == pos % SECTOR + (k - pos);
    }
  }

  /** One turn of the write loop: the next `n` bytes go into one sector. */
  lemma PokeStep(data: seq<seq<byte>>, start: nat, off: nat, buf: seq<byte>, done: nat, n: nat)
    requires |data| == DATA_SECTORS && forall s | 0 <= s < DATA_SECTORS :: |data[s]| == SECTOR
    requires done + n <= |buf| && (off + done) % SECTOR + n <= SECTOR && start + (off + done) / SECTOR < DATA_SECTORS
    ensures var was := Poke(data, start, off, buf[..done]);
      var s := start + (off + done) / SECTOR;
      Poke(data, start, off, buf[..done + n]) == was[s := Overlay(was[s], (off + done) % SECTOR, buf[done..done + n])]
  {
    var was, now := Poke(data, start, off, buf[..done]), Poke(data, start, off, buf[..done + n]);
    var at, so := start + (off + done) / SECTOR, (off + done) % SECTOR;
    var want := was[at := Overlay(was[at], so, buf[done..done + n])];
    forall s: nat | s < DATA_SECTORS ensures now[s] == want[s] {
      forall j: nat | j < SECTOR ensures now[s][j] == want[s][j] {
        PokeStepByte(data, start, off, buf, done, n, s, j);
      }
    }
  }

  lemma PokeStepByte(data: seq<seq<byte>>, start: nat, off: nat, buf: seq<byte>, done: nat, n: nat, s: nat, j: nat)
    requires |data| == DATA_SECTORS && forall s | 0 <= s < DATA_SECTORS :: |data[s]| == SECTOR
    requires done + n <= |buf| && (off + done) % SECTOR + n <= SECTOR && s < DATA_SECTORS && j < SECTOR
    requires start + (off + done) / SECTOR < DATA_SECTORS
    ensures var was := Poke(data, start, off, buf[..done]);
      var so := (off + done) % SECTOR;
      Poke(data, start, off, buf[..done + n])[s][j] ==
      if s == start + (off + done) / SECTOR && so <= j < so + n then buf[done + (j - so)] else was[s][j]
  {
    var k := (s - start) * SECTOR + j;
    var so := (off + done) % SECTOR;
    if start <= s && off + done <= k < off + done + n {
      assert k / SECTOR == s - start && k % SECTOR == j;
      assert (off + done) / SECTOR == s - start;
    }
  }

  lemma CopyRunStep(data: seq<seq<byte>>, src: nat, dst: nat, n: nat)
    requires src + n < |data| && dst + n < |data|
    requires !(dst <= src + n < dst + n)
    ensures CopyRun(data, src, dst, n + 1) == CopyRun(data, src, dst, n)[dst + n := CopyRun(data, src, dst, n)[src + n]]
  {}

  lemma PokeNothing(data: seq<seq<byte>>, start: nat, off: nat)
    requires |data| == DATA_SECTORS && forall s | 0 <= s < DATA_SECTORS :: |data[s]| == SECTOR
    ensures Poke(data, start, off, []) == data
  {
    var r := Poke(data, start, off, []);
    forall s: nat | s < DATA_SECTORS ensures r[s] == data[s] {
      assert forall j: nat | j < SECTOR :: r[s][j] == PokedByte(data, start, off, [], s, j);
    }
  }

  lemma RunsApart(bits: seq<bool>, x: Inode, rel: nat, need: nat)
    requires |bits| == DATA_SECTORS && InArea(x) && x.count > 0 && need > 0 && rel + need <= DATA_SECTORS
    requires RunClear(bits, rel, need) && forall b: nat | b < DATA_SECTORS && Covers(x, b) :: bits[b]
    ensures rel + need <= x.start - DATA_START || x.start - DATA_START + x.count <= rel
  {
    var src := x.start - DATA_START;
    if src <= rel {
      assert Covers(x, rel) <==> rel < src + x.count;
    } else {
      assert Covers(x, src);
    }
  }

  predicate IsSuper(s: Sector)
  {
    |s| == SECTOR && Magic(s) == MAGIC && DataSectors(s) == DATA_SECTORS
  }

  lemma SuperSize(s: Sector)
    requires IsSuper(s)
    ensures |s| == SECTOR && DataSectors(s) == DATA_SECTORS
  {}

  lemma ZeroTable(disk: seq<Sector>)
    requires IsDisk(disk) && forall s | INODE_START <= s < INODE_START + INODE_SECTORS :: disk[s] == Zeros(SECTOR)
    ensures Table(disk) == seq(MAX_INODES, _ => FREE_INODE)
  {
    ZeroInode();
    forall i: nat | i < MAX_INODES ensures StoredInode(disk, i) == FREE_INODE {
      assert SlotBytes(disk[INODE_START + i / PER_SECTOR], i % PER_SECTOR) == Zeros(INODE_SIZE);
    }
  }

  /** The inode table depends only on the sectors before the data. */
  lemma SameTableSectors(d: seq<Sector>, e: seq<Sector>)
    requires IsDisk(d) && IsDisk(e) && d[..DATA_START] == e[..DATA_START]
    ensures Table(d) == Table(e)
  {
    forall i: nat | i < MAX_INODES ensures StoredInode(d, i) == StoredInode(e, i) {
      var s := INODE_START + i / PER_SECTOR;
      assert d[s] == d[..DATA_START][s] == e[..DATA_START][s] == e[s];
    }
  }

  lemma ChildLonger(fs: FS, p: Path, i: nat)
    requires Wf(fs) && IsChild(fs, p, i) && p != ROOT
    ensures |p| < |fs.inodes[i].name| < NAME_MAX
  {}

  lemma WfBits(fs: FS, bits: seq<bool>)
    requires Wf(fs) && |bits| == DATA_SECTORS
    ensures Wf(fs.(bits := bits))
  {}

  lemma CopyNone(data: seq<seq<byte>>, src: nat, dst: nat)
    requires src <= |data| && dst <= |data|
    ensures CopyRun(data, src, dst, 0) == data
  {}

  class FileSystem {
    /** Every sector of the disk. */
    var disk: seq<Sector>
    const bitmap: Bitmap
    var fds: seq<Fd>
    var dataSectors: nat

    ghost predicate Shaped()
      reads this
    {
      IsDisk(disk) && |fds| == MAX_OPEN && bitmap.words.Length == BITMAP_WORDS
    }

    ghost function Bits(): (b: seq<bool>)
      requires bitmap.words.Length == BITMAP_WORDS
      reads bitmap.words
      ensures |b| == DATA_SECTORS
    {
      bitmap.Bits()[..DATA_SECTORS]
    }

    /** The state as a value. */
    ghost function Abs(): (fs: FS)
      requires Shaped()
      reads this, bitmap.words
    {
      FS(Table(disk), Bits(), disk[DATA_START..], fds)
    }

    /** The disk is formatted and mounted. */
    ghost predicate Valid()
      reads this, bitmap.words
    {
      Shaped() && Wf(Abs()) && dataSectors == DATA_SECTORS && IsSuper(disk[SUPER_SECTOR])
    }

    /** Every extent lies in the data area. */
    ghost predicate Area()
      requires Shaped()
      reads this, bitmap.words
    {
      forall i | 0 <= i < MAX_INODES :: InArea(Table(disk)[i])
    }

    constructor (d: seq<Sector>)
      requires IsDisk(d)
      ensures Shaped() && disk == d && fresh(bitmap.words)
    {
      disk := d;
      fds := seq(MAX_OPEN, _ => NoFd);
      dataSectors := 0;
      bitmap := new Bitmap(BITMAP_WORDS);
    }

    // ---- inode I/O ----

    method ReadInode(idx: int) returns (r: Option<Inode>)
      requires Shaped()
      ensures r == if 0 <= idx < MAX_INODES then Some(Abs().inodes[idx]) else None
    {
      if idx < 0 || idx >= MAX_INODES {
        return None;
      }
      var sb := disk[INODE_START + idx / PER_SECTOR];
      r := Some(DecodeInode(SlotBytes(sb, idx % PER_SECTOR)));
    }

    method WriteInode(i: nat, x: Inode)
      requires Valid() && i < MAX_INODES && Storable(x)
      modifies this`disk
      ensures Valid() && Abs() == old(Abs()).(inodes := old(Abs()).inodes[i := x])
    {
      StoreChangesOne(disk, i, x);
      var s := INODE_START + i / PER_SECTOR;
      disk := disk[s := Overlay(disk[s], (i % PER_SECTOR) * INODE_SIZE, EncodeInode(x))];
    }

    // ---- bitmap ----

    method SetBits(start: nat, n: nat)
      requires bitmap.words.Length == BITMAP_WORDS && start + n <= DATA_SECTORS
      modifies bitmap.words
      ensures Bits() == SetRun(old(Bits()), start, n, true)
    {
      for j := 0 to n
        invariant Bits() == SetRun(old(Bits()), start, j, true)
      {
        SetRunStep(old(Bits()), start, j, true);
        bitmap.Set(start + j);
      }
    }

    method ClearBits(start: nat, n: nat)
      requires bitmap.words.Length == BITMAP_WORDS && start + n <= DATA_SECTORS
      modifies bitmap.words
      ensures Bits() == SetRun(old(Bits()), start, n, false)
    {
      for j := 0 to n
        invariant Bits() == SetRun(old(Bits()), start, j, false)
      {
        SetRunStep(old(Bits()), start, j, false);
        bitmap.Clear(start + j);
      }
    }

    /** `bm_alloc`: take the first clear run of `n` sectors. */
    method AllocRun(n: nat) returns (r: int)
      requires bitmap.words.Length == BITMAP_WORDS && dataSectors == DATA_SECTORS
      modifies bitmap.words
      ensures r == (match FitFrom(old(Bits()), n, 0) case None => -1 case Some(s) => s)
      ensures r < 0 ==> Bits() == old(Bits())
      ensures r >= 0 ==> r + n <= DATA_SECTORS && Bits() == SetRun(old(Bits()), r, n, true)
    {
      var i := 0;
      while i + n <= dataSectors
        invariant Bits() == old(Bits())
        invariant FitFrom(old(Bits()), n, 0) == FitFrom(old(Bits()), n, i)
        decreases DATA_SECTORS - i
      {
        var j := 0;
        while j < n && !bitmap.Get(i + j)
          invariant j <= n && RunClear(Bits(), i, j)
        {
          assert !Bits()[i + j];
          j := j + 1;
        }
        if j == n {
          SetBits(i, n);
          return i;
        }
        assert Bits()[i + j];
        i := i + 1;
      }
      return -1;
    }

    // ---- paths ----

    /** `fs_get_parent`. */
    method GetParent(p: Path) returns (q: Path)
      ensures q == ParentOf(p)
    {
      var last := 0;
      for i := 0 to |p|
        invariant last == LastSlash(p[..i])
      {
        LastSlashGrows(p, i);
        if p[i] == SLASH {
          last := i;
        }
      }
      assert p[..|p|] == p;
      q := if last == 0 then [SLASH] else p[..last];
    }

    /** `fs_find`. */
    method FindPath(p: Path) returns (r: int)
      requires Valid()
      ensures r == (match Find(Abs(), p) case None => -1 case Some(i) => i)
    {
      for i := 0 to MAX_INODES
        invariant Find(Abs(), p) == FindFrom(Abs().inodes, p, i)
      {
        var x := ReadInode(i);
        if x.value.kind != Free && x.value.name == p {
          return i;
        }
      }
      return -1;
    }

    /** `fs_isdir`. */
    method IsDirectory(p: Path) returns (b: bool)
      requires Valid()
      ensures b == IsDir(Abs(), p)
    {
      if p == ROOT {
        return true;
      }
      var i := FindPath(p);
      if i < 0 {
        return false;
      }
      var x := ReadInode(i);
      b := x.value.kind == Dir;
    }

    method FindFreeInode() returns (r: int)
      requires Valid()
      ensures r == (match FreeFrom(Abs().inodes, 0) case None => -1 case Some(i) => i)
    {
      for i := 0 to MAX_INODES
        invariant FreeFrom(Abs().inodes, 0) == FreeFrom(Abs().inodes, i)
      {
        var x := ReadInode(i);
        if x.value.kind == Free {
          return i;
        }
      }
      return -1;
    }

    /** The creating part of `fs_mkdir` and `fs_open`. */
    method MakeInode(p: Path, kind: Kind) returns (r: int)
      requires Valid() && ValidPath(p)
      modifies this`disk
      ensures Valid() && (Abs(), if r < 0 then None else Some(r)) == Make(old(Abs()), p, kind)
      ensures -1 <= r < MAX_INODES
    {
      var i := FindPath(p);
      if i >= 0 {
        return -1;
      }
      var parent := GetParent(p);
      var dir := IsDirectory(parent);
      if !dir {
        return -1;
      }
      r := FindFreeInode();
      if r >= 0 {
        WriteInode(r, Inode(p, 0, 0, 0, kind));
      }
    }

    method MkdirAt(p: Path) returns (r: int)
      requires Valid() && ValidPath(p)
      modifies this`disk
      ensures Valid() && r in {0, -1} && (Abs(), r == 0) == Mkdir(old(Abs()), p)
    {
      r := MakeInode(p, Dir);
      if r >= 0 {
        r := 0;
      }
    }

    /** The test both removal loops make of each inode. */
    method ChildAt(p: Path, i: nat) returns (b: bool, x: Inode)
      requires Valid() && i < MAX_INODES
      ensures x == Abs().inodes[i] && b == IsChild(Abs(), p, i)
    {
      var child := ReadInode(i);
      x := child.value;
      if x.kind == Free {
        return false, x;
      }
      var parent := GetParent(x.name);
      b := parent == p;
    }

    method HasChildren(p: Path, idx: nat) returns (b: bool)
      requires Valid()
      ensures b == exists j: nat | j < MAX_INODES :: j != idx && IsChild(Abs(), p, j)
    {
      hide Table, IsChild, Wf;
      for i := 0 to MAX_INODES
        invariant forall j: nat | j < i && j != idx :: !IsChild(Abs(), p, j)
      {
        if i != idx {
          var child, _ := ChildAt(p, i);
          if child {
            return true;
          }
        }
      }
      return false;
    }

    method RmdirAt(p: Path) returns (r: int)
      requires Valid()
      modifies this`disk
      ensures Valid() && r in {0, -1} && (Abs(), r == 0) == Rmdir(old(Abs()), p)
    {
      hide Table, StoredInode, IsChild, IsSuper;
      if p == ROOT {
        return -1;
      }
      var idx := FindPath(p);
      if idx < 0 {
        return -1;
      }
      var x := ReadInode(idx);
      if x.value.kind != Dir {
        return -1;
      }
      var busy := HasChildren(p, idx);
      if busy {
        return -1;
      }
      WriteInode(idx, FREE_INODE);
      return 0;
    }

    method DeleteAt(p: Path) returns (r: int)
      requires Valid() && Area()
      modifies this`disk, bitmap.words
      ensures Valid() && r in {0, -1} && (Abs(), r == 0) == Delete(old(Abs()), p)
    {
      var i := FindPath(p);
      if i < 0 {
        return -1;
      }
      var x := ReadInode(i);
      if x.value.kind == Dir {
        return -1;
      }
      if x.value.count > 0 {
        ClearBits(x.value.start - DATA_START, x.value.count);
      }
      WriteInode(i, FREE_INODE);
      return 0;
    }

    method RemoveTree(p: Path) returns (r: int)
      requires Valid() && Area()
      modifies this`disk, bitmap.words
      ensures Valid() && r in {0, -1} && (Abs(), r == 0) == Rrmdr(old(Abs()), p)
      decreases if |p| < NAME_MAX then NAME_MAX - |p| else 0
    {
      hide Table, StoredInode, IsSuper, SetRun, IsChild, ParentOf;
      if p == ROOT {
        return -1;
      }
      var idx := FindPath(p);
      if idx < 0 {
        return -1;
      }
      var x := ReadInode(idx);
      if x.value.kind != Dir {
        return -1;
      }
      for i := 0 to MAX_INODES
        invariant Valid() && Area() && fds == old(fds)
        invariant RemoveFrom(old(Abs()), p, idx, 0) == RemoveFrom(Abs(), p, idx, i)
      {
        if i != idx {
          var below, child := ChildAt(p, i);
          if below {
            ChildLonger(Abs(), p, i);
            var rc;
            if child.kind == Dir {
              rc := RemoveTree(child.name);
            } else {
              rc := DeleteAt(child.name);
            }
            if rc != 0 {
              return -1;
            }
          }
        }
      }
      WriteInode(idx, FREE_INODE);
      return 0;
    }

    // ---- descriptors ----

    method OpenPath(p: Path, create: bool) returns (r: int)
      requires Valid() && ValidPath(p)
      modifies this
      ensures Valid() && -1 <= r < MAX_OPEN
      ensures (Abs(), if r < 0 then None else Some(r)) == Open(old(Abs()), p, create)
    {
      hide Table, StoredInode, IsSuper;
      var fd := 0;
      while fd < MAX_OPEN && fds[fd] != NoFd
        invariant fd <= MAX_OPEN && forall i | 0 <= i < fd :: fds[i] != NoFd
      {
        fd := fd + 1;
      }
      if fd == MAX_OPEN {
        return -1;
      }
      var i := FindPath(p);
      if i < 0 {
        if !create {
          return -1;
        }
        i := MakeInode(p, File);
        if i < 0 {
          return -1;
        }
      } else {
        var x := ReadInode(i);
        if x.value.kind == Dir {
          return -1;
        }
      }
      fds := fds[fd := Fd(i, 0)];
      return fd;
    }

    // ---- file data ----

    method ReadFd(f: int, len: nat) returns (r: Option<seq<byte>>)
      requires Valid() && forall i | 0 <= i < MAX_INODES :: Fits(Abs().inodes[i])
      modifies this`fds
      ensures Valid() && (Abs(), r) == Read(old(Abs()), f, len)
    {
      if f < 0 || f >= MAX_OPEN || fds[f] == NoFd {
        return None;
      }
      var inode := ReadInode(fds[f].inode);
      var x, off := inode.value, fds[f].offset;
      if off >= x.size {
        return Some([]);
      }
      var n := if len > x.size - off then x.size - off else len;
      if n == 0 {
        assert Content(Abs(), x)[off..off + n] == [];
        assert fds == fds[f := Fd(fds[f].inode, off)];
        return Some([]);
      }
      var out := ReadBytes(x, off, n);
      fds := fds[f := Fd(fds[f].inode, off + n)];
      return Some(out);
    }

    /** The sector loop of `fs_read`. */
    method ReadBytes(x: Inode, off: nat, n: nat) returns (out: seq<byte>)
      requires Valid() && Fits(x) && off + n <= x.size
      ensures out == Content(Abs(), x)[off..off + n]
    {
      hide Content, Table, StoredInode, IsSuper, Fits;
      out := [];
      var done := 0;
      while done < n
        invariant done <= n && out == Content(Abs(), x)[off..off + done]
      {
        var si, so := (off + done) / SECTOR, (off + done) % SECTOR;
        var tc := if SECTOR - so > n - done then n - done else SECTOR - so;
        ContentChunk(Abs(), x, off + done, tc);
        var sb := disk[x.start + si];
        SlicesJoin(Content(Abs(), x), off, off + done, off + done + tc);
        out := out + sb[so..so + tc];
        done := done + tc;
      }
    }

    /** The copy loop of `fs_write`; it stops at the sector whose copying fails. */
    method CopySectors(src: nat, dst: nat, n: nat, fault: Option<nat>) returns (ok: bool)
      requires Valid() && src + n <= DATA_SECTORS && dst + n <= DATA_SECTORS
      requires dst + n <= src || src + n <= dst
      modifies this`disk
      ensures ok == !(fault.Some? && fault.value < n)
      ensures Valid() && Abs() == old(Abs()).(data := CopyRun(old(Abs()).data, src, dst, if ok then n else fault.value))
    {
      hide StoredInode, IsSuper, CopyRun;
      var s := 0;
      CopyNone(disk[DATA_START..], src, dst);
      while s < n
        invariant s <= n && IsDisk(disk) && disk[..DATA_START] == old(disk)[..DATA_START]
        invariant fault.Some? && fault.value < n ==> s <= fault.value
        invariant disk[DATA_START..] == CopyRun(old(disk)[DATA_START..], src, dst, s)
      {
        if fault == Some(s) {
          SameTableSectors(old(disk), disk);
          return false;
        }
        CopyRunStep(old(disk)[DATA_START..], src, dst, s);
        var sector := disk[DATA_START + src + s];
        ghost var was := disk;
        disk := disk[DATA_START + dst + s := sector];
        assert disk[DATA_START..] == was[DATA_START..][dst + s := was[DATA_START..][src + s]];
        s := s + 1;
      }
      SameTableSectors(old(disk), disk);
      return true;
    }

    /** The sector loop of `fs_write`. */
    method WriteBytes(start: nat, off: nat, buf: seq<byte>)
      requires Valid() && start + Sectors(off + |buf|) <= DATA_SECTORS
      modifies this`disk
      ensures Valid() && Abs() == old(Abs()).(data := Poke(old(Abs()).data, start, off, buf))
    {
      ghost var data := disk[DATA_START..];
      var done := 0;
      var sb := Zeros(SECTOR);
      PokeNothing(data, start, off);
      while done < |buf|
        invariant done <= |buf| && IsDisk(disk) && |sb| == SECTOR && disk[..DATA_START] == old(disk)[..DATA_START]
        invariant disk[DATA_START..] == Poke(data, start, off, buf[..done])
      {
        var si, so := (off + done) / SECTOR, (off + done) % SECTOR;
        var tc := if SECTOR - so > |buf| - done then |buf| - done else SECTOR - so;
        assert si < Sectors(off + |buf|);
        var lba := DATA_START + start + si;
        if so != 0 || tc != SECTOR {
          sb := disk[lba];
        }
        PokeStep(data, start, off, buf, done, tc);
        sb := Overlay(sb, so, buf[done..done + tc]);
        assert sb == Overlay(disk[lba], so, buf[done..done + tc]);
        ghost var was := disk;
        disk := disk[lba := sb];
        assert disk[DATA_START..] == was[DATA_START..][start + si := sb];
        done := done + tc;
      }
      assert buf[..done] == buf;
      SameTableSectors(old(disk), disk);
    }

    /** Copy the sectors to the new run and release the old one, or the new one if the disk fails. */
    method MoveFile(x: Inode, rel: nat, need: nat, fault: Option<nat>) returns (ok: bool)
      requires Valid() && InArea(x) && 0 < x.count < need && rel + need <= DATA_SECTORS
      requires rel + need <= x.start - DATA_START || x.start - DATA_START + x.count <= rel
      modifies this`disk, bitmap.words
      ensures ok == !(fault.Some? && fault.value < x.count)
      ensures var src := x.start - DATA_START;
        Valid() && Abs() == old(Abs()).(
          bits := if ok then SetRun(old(Bits()), src, x.count, false) else SetRun(old(Bits()), rel, need, false),
          data := CopyRun(old(Abs()).data, src, rel, if ok then x.count else fault.value))
    {
      hide Table, StoredInode, IsSuper, SetRun, CopyRun;
      var src := x.start - DATA_START;
      ok := CopySectors(src, rel, x.count, fault);
      if ok {
        ClearBits(src, x.count);
      } else {
        ClearBits(rel, need);
      }
    }

    /** The first half of `fs_write`: make the extent large enough. */
    method GrowFile(i: nat, x: Inode, need: nat, fault: Option<nat>) returns (ok: bool, y: Inode)
      requires Valid() && DiskInv(Abs()) && i < MAX_INODES && x == Abs().inodes[i] && InArea(x) && Storable(x)
      modifies this`disk, bitmap.words
      ensures Valid() && (Abs(), ok) == Grow(old(Abs()), i, need, fault)
      ensures ok ==> y == Abs().inodes[i]
    {
      hide NamesInv, ExtentInv, FitFrom, CopyRun, SetRun, IsSuper, StoredInode, Table, Wf;
      y := x;
      ok := true;
      if need > x.count {
        OwnBits(Abs(), i);
        var rel := AllocRun(need);
        WfBits(old(Abs()), Bits());
        assert Abs() == old(Abs()).(bits := Bits());
        if rel < 0 {
          return false, x;
        }
        if x.count > 0 {
          RunsApart(old(Bits()), x, rel, need);
          ok := MoveFile(x, rel, need, fault);
          if !ok {
            return;
          }
        }
        y := x.(start := DATA_START + rel, count := need);
        WriteInode(i, y);
      }
    }

    method WriteFd(f: int, buf: seq<byte>, fault: Option<nat>) returns (r: int)
      requires Valid() && Inv(Abs()) && Area()
      requires Opened(Abs(), f) ==> fds[f].offset + |buf| + 511 < 0x1_0000_0000
      modifies this, bitmap.words
      ensures Valid() && (Abs(), r) == Write(old(Abs()), f, buf, fault)
    {
      hide NamesInv, ExtentInv, FdInv, Poke, Grow, IsSuper, Table, Need, Sectors;
      if f < 0 || f >= MAX_OPEN || fds[f] == NoFd {
        return -1;
      }
      if buf == [] {
        return 0;
      }
      var i, off := fds[f].inode, fds[f].offset;
      var inode := ReadInode(i);
      var end := off + |buf|;
      SectorsHold(end);
      StoredIsStorable(disk, i);
      NeedHolds(off, |buf|);
      var ok, y := GrowFile(i, inode.value, Need(off, |buf|), fault);
      if !ok {
        return -1;
      }
      PutBytes(f, i, y, off, buf);
      return |buf|;
    }

    /** The second half of `fs_write`: the bytes, the offset and the size. */
    method PutBytes(f: int, i: nat, y: Inode, off: nat, buf: seq<byte>)
      requires Valid() && 0 <= f < MAX_OPEN && i < MAX_INODES && y == Abs().inodes[i] && InArea(y)
      requires y.count > 0 && y.count >= Sectors(off + |buf|) && off + |buf| < 0x1_0000_0000
      modifies this
      ensures Valid()
      ensures Abs() == old(Abs()).(
        data := Poke(old(Abs()).data, y.start - DATA_START, off, buf),
        fds := old(fds)[f := Fd(i, off + |buf|)],
        inodes := old(Abs()).inodes[i := y.(size := if off + |buf| > y.size then off + |buf| else y.size)])
    {
      hide Poke, IsSuper, Sectors;
      WriteBytes(y.start - DATA_START, off, buf);
      var end := off + |buf|;
      fds := fds[f := Fd(i, end)];
      StoredIsStorable(disk, i);
      WriteInode(i, y.(size := if end > y.size then end else y.size));
    }

    // ---- fs_init ----

    /** Format a disk without the magic number, or rebuild the bitmap of one that has it. The number of
        sectors is believed, and nothing else on the disk is looked at but the extents. */
    method Init()
      requires Shaped() && (Magic(disk[SUPER_SECTOR]) == MAGIC ==> Area())
      modifies this, bitmap.words
      ensures Shaped()
      ensures Magic(old(disk)[SUPER_SECTOR]) != MAGIC ==> Valid() && Abs() == Formatted(old(disk)[DATA_START..])
      ensures
        Magic(old(disk)[SUPER_SECTOR]) == MAGIC ==>
          && disk == old(disk) && dataSectors == DataSectors(disk[SUPER_SECTOR])
          && Abs() == old(Abs()).(bits := Rebuilt(old(Abs()).inodes, MAX_INODES), fds := seq(MAX_OPEN, _ => NoFd))
          && (IsSuper(disk[SUPER_SECTOR]) && Wf(old(Abs())) ==> Valid() && Abs() == Mount(old(Abs())))
    {
      hide Table, StoredInode, IsSuper, Magic;
      fds := seq(MAX_OPEN, _ => NoFd);
      bitmap.Reset();
      assert Bits() == seq(DATA_SECTORS, _ => false);
      if Magic(disk[SUPER_SECTOR]) != MAGIC {
        dataSectors := DATA_SECTORS;
        FormatDisk();
      } else {
        dataSectors := DataSectors(disk[SUPER_SECTOR]);
        RebuildBitmap();
        if IsSuper(disk[SUPER_SECTOR]) { SuperSize(disk[SUPER_SECTOR]); }
      }
    }

    method RebuildBitmap()
      requires Shaped() && Area() && Bits() == seq(DATA_SECTORS, _ => false)
      modifies bitmap.words
      ensures Shaped() && Abs() == old(Abs()).(bits := Rebuilt(old(Abs()).inodes, MAX_INODES))
    {
      hide StoredInode, IsSuper, SetRun;
      for i := 0 to MAX_INODES
        invariant Bits() == Rebuilt(Table(disk), i)
      {
        var x := ReadInode(i);
        if x.value.kind != Free && x.value.count != 0 {
          SetBits(x.value.start - DATA_START, x.value.count);
        }
      }
    }

    method FormatDisk()
      requires Shaped() && dataSectors == DATA_SECTORS && Bits() == seq(DATA_SECTORS, _ => false)
      requires fds == seq(MAX_OPEN, _ => NoFd)
      modifies this`disk
      ensures Valid() && Abs() == Formatted(old(disk)[DATA_START..])
    {
      SuperblockReads();
      disk := disk[SUPER_SECTOR := Superblock()];
      for i := 0 to INODE_SECTORS
        invariant IsDisk(disk) && disk[SUPER_SECTOR] == Superblock() && disk[DATA_START..] == old(disk)[DATA_START..]
        invariant forall s | INODE_START <= s < INODE_START + i :: disk[s] == Zeros(SECTOR)
      {
        disk := disk[INODE_START + i := Zeros(SECTOR)];
      }
      ZeroTable(disk);
      WriteInode(0, Inode([SLASH], 0, 0, 0, Dir));
    }

    method CloseFd(f: int)
      requires Valid()
      modifies this`fds
      ensures Valid() && Abs() == Close(old(Abs()), f)
    {
      if 0 <= f < MAX_OPEN {
        fds := fds[f := NoFd];
      }
    }
  }
}
