/** Every run of the filesystem calls from a freshly formatted disk. */
module FsRuns {
  import opened Common
  import opened Fs
  import opened FsInv
  import opened FsTree
  import opened FsData

  datatype Op =
    | MkdirOp(path: Path)
    | RmdirOp(path: Path)
    | RrmdrOp(path: Path)
    | DeleteOp(path: Path)
    | OpenOp(path: Path, create: bool)
    | CloseOp(fd: int)
    | ReadOp(fd: int, len: nat)
    | WriteOp(fd: int, buf: seq<byte>, fault: Option<nat>)
    | MountOp

  /** No descriptor is open on an inode of the set. */
  ghost predicate Unopened(fs: FS, s: set<nat>)
  {
    forall f | 0 <= f < |fs.fds| && fs.fds[f].Fd? :: fs.fds[f].inode !in s
  }

  /** What callers keep to: paths fit an inode, nothing open is deleted, and the end of a write
      rounded up to a sector fits 32 bits. */
  ghost predicate Enabled(fs: FS, op: Op)
    requires Wf(fs)
  {
    match op
    case MkdirOp(p) => ValidPath(p)
    case OpenOp(p, _) => ValidPath(p)
    case RrmdrOp(p) => p == ROOT || Unopened(fs, Subtree(fs, p))
    case DeleteOp(p) => p == ROOT || Unopened(fs, Subtree(fs, p))
    case WriteOp(f, buf, _) => Opened(fs, f) ==> fs.fds[f].offset + |buf| + 511 < 0x1_0000_0000
    case _ => true
  }

  ghost function Next(fs: FS, op: Op): (r: FS)
    requires DiskInv(fs) && Enabled(fs, op)
  {
    AreaOf(fs);
    match op
    case MkdirOp(p) => Mkdir(fs, p).0
    case RmdirOp(p) => Rmdir(fs, p).0
    case RrmdrOp(p) => Rrmdr(fs, p).0
    case DeleteOp(p) => Delete(fs, p).0
    case OpenOp(p, create) => Open(fs, p, create).0
    case CloseOp(f) => Close(fs, f)
    case ReadOp(f, n) => Read(fs, f, n).0
    case WriteOp(f, buf, fault) => Write(fs, f, buf, fault).0
    case MountOp => Mount(fs)
  }

  // ---- descriptors ----

  /** Removing inodes keeps every descriptor good just when none of them is open. */
  lemma RemovedFds(fs: FS, g: FS, gone: set<nat>)
    requires FdInv(fs) && Removed(fs, g, gone)
    ensures FdInv(g) <==> Unopened(fs, gone)
  {
    if f :| 0 <= f < |fs.fds| && fs.fds[f].Fd? && fs.fds[f].inode in gone {
      assert g.inodes[g.fds[f].inode] == FREE_INODE;
    }
  }

  lemma AddedFds(fs: FS, g: FS, i: nat, x: Inode)
    requires FdInv(fs) && |fs.inodes| == MAX_INODES && i < MAX_INODES && fs.inodes[i].kind == Free
    requires g.fds == fs.fds && g.inodes == fs.inodes[i := x]
    ensures FdInv(g)
  {}

  /** `fs_open` hands out the first closed descriptor at offset 0 of the file; it creates the file
      only when asked to and the path names nothing; a failure changes nothing. */
  lemma OpenKeeps(fs: FS, p: Path, create: bool)
    requires Inv(fs) && ValidPath(p)
    ensures var (g, r) := Open(fs, p, create);
      && Inv(g)
      && (r.None? ==> g == fs)
      && (r.Some? ==>
        && r == First(fs.fds, NoFd) && |g.fds| == MAX_OPEN && g.fds[r.value].Fd? && g.fds[r.value].offset == 0
        && g.fds == fs.fds[r.value := g.fds[r.value]]
        && g.fds[r.value].inode < MAX_INODES && g.inodes[g.fds[r.value].inode].name == p
        && (Lookup(fs, p).Some? ==> g.inodes == fs.inodes && Lookup(fs, p).value.FileNode?)
        && (Lookup(fs, p).None? ==> create && forall q :: Lookup(g, q) == LookupWith(fs, p, FileNode([]), q)))
      && (r.None? <==>
        || NoFd !in fs.fds
        || Lookup(fs, p) == Some(DirNode)
        || (Lookup(fs, p).None? && (!create || Make(fs, p, File).1.None?)))
  {
    hide NamesInv, ExtentInv;
    MakeKeeps(fs, p, File);
    NoNode(fs, p);
    var (g, r) := Open(fs, p, create);
    var (m, i) := Make(fs, p, File);
    if First(fs.fds, NoFd).Some? && Find(fs, p).None? && create && i.Some? {
      assert Make(fs, p, File) == (m, i);
      AddedFds(fs, m, i.value, Inode(p, 0, 0, 0, File));
      SameTable(m, g);
      assert FdInv(g);
    } else if r.Some? {
      SameTable(fs, g);
      assert FdInv(g);
    }
  }

  // ---- formatting and mounting ----

  lemma FormatHolds(data: seq<seq<byte>>)
    requires |data| == DATA_SECTORS && forall s | 0 <= s < DATA_SECTORS :: |data[s]| == SECTOR
    ensures Inv(Formatted(data))
    ensures forall p :: Lookup(Formatted(data), p) == if p == ROOT then Some(DirNode) else None
  {
    var fs := Formatted(data);
    assert fs.inodes[0].kind == Dir;
    assert forall i: nat | 0 < i < MAX_INODES :: fs.inodes[i] == FREE_INODE;
    assert forall i: nat | Used(fs, i) :: i == 0;
    assert ParentOf(ROOT) == ROOT;
    assert NamesInv(fs);
    assert forall b: nat :: !Owned(fs, b);
    FindUsed(fs, 0);
  }

  /** The rebuild loop sets exactly the bits of the inodes it has seen. */
  lemma {:induction false} RebuiltBits(fs: FS, n: nat, b: nat)
    requires n <= |fs.inodes| && b < DATA_SECTORS
    requires forall i | 0 <= i < |fs.inodes| :: InodeInv(fs.inodes[i])
    requires forall i | 0 <= i < |fs.inodes| :: InArea(fs.inodes[i])
    ensures Rebuilt(fs.inodes, n)[b] <==> exists i: nat | i < n :: Covers(fs.inodes[i], b)
  {
    if n > 0 {
      RebuiltBits(fs, n - 1, b);
      assert Rebuilt(fs.inodes, n)[b] <==> Rebuilt(fs.inodes, n - 1)[b] || Covers(fs.inodes[n - 1], b) by {
        assert InodeInv(fs.inodes[n - 1]);
      }
    }
  }

  /** Mounting reproduces the live bitmap and keeps every path. */
  lemma MountKeeps(fs: FS)
    requires DiskInv(fs)
    requires forall i | 0 <= i < MAX_INODES :: InArea(fs.inodes[i])
    ensures Mount(fs) == fs.(fds := seq(MAX_OPEN, _ => NoFd))
    ensures Inv(Mount(fs)) && forall p :: Lookup(Mount(fs), p) == Lookup(fs, p)
  {
    assert Mount(fs).bits == fs.bits by {
      forall b: nat | b < DATA_SECTORS ensures Mount(fs).bits[b] == fs.bits[b] {
        RebuiltBits(fs, MAX_INODES, b);
      }
    }
    hide NamesInv, ExtentInv;
    SameTable(fs, Mount(fs));
  }

  // ---- runs ----

  lemma RemoveOpKeeps(fs: FS, p: Path, g: FS)
    requires Inv(fs) && p != ROOT && Removed(fs, g, Subtree(fs, p)) && Unopened(fs, Subtree(fs, p))
    ensures Inv(g)
  {
    hide NamesInv, ExtentInv, Removed;
    SubtreeGone(fs, g, p);
    RemovedFds(fs, g, Subtree(fs, p));
  }

  /** An empty directory is never open. */
  lemma DirUnopened(fs: FS, i: nat)
    requires FdInv(fs) && i < |fs.inodes| && fs.inodes[i].kind == Dir
    ensures Unopened(fs, {i})
  {}

  /** Every call keeps the invariant. */
  lemma NextKeeps(fs: FS, op: Op)
    requires Inv(fs) && Enabled(fs, op)
    ensures Inv(Next(fs, op))
  {
    hide NamesInv, ExtentInv, Removed, Lookup, Subtree, Grow, Make, Erase, Write, Read, Open, Rmdir, Delete, Rrmdr;
    AreaOf(fs);
    match op
    case MkdirOp(p) =>
      MakeKeeps(fs, p, Dir);
      if Make(fs, p, Dir).1.Some? {
        AddedFds(fs, Next(fs, op), Make(fs, p, Dir).1.value, Inode(p, 0, 0, 0, Dir));
      }
    case RmdirOp(p) =>
      RmdirRemoves(fs, p);
      if Rmdir(fs, p).1 {
        DirNodeIsDir(fs, p);
        DirUnopened(fs, Find(fs, p).value);
        RemoveOpKeeps(fs, p, Rmdir(fs, p).0);
      }
    case RrmdrOp(p) =>
      RrmdrRemoves(fs, p);
      if Rrmdr(fs, p).1 {
        RemoveOpKeeps(fs, p, Rrmdr(fs, p).0);
      }
    case DeleteOp(p) =>
      DeleteRemoves(fs, p);
      if Delete(fs, p).1 {
        DirNodeIsDir(fs, p);
        RemoveOpKeeps(fs, p, Delete(fs, p).0);
      }
    case OpenOp(p, create) => OpenKeeps(fs, p, create);
    case CloseOp(f) =>
      SameTable(fs, Close(fs, f));
    case ReadOp(f, n) => ReadSlices(fs, f, n);
    case WriteOp(f, buf, fault) =>
      WriteFailure(fs, f, buf, fault);
      if buf == [] {
        assert Write(fs, f, buf, fault).0 == fs by { EmptyWrite(fs, f, fault); }
      } else if !WriteFails(fs, f, |buf|, fault) {
        WriteSplices(fs, f, buf, fault);
      }
    case MountOp => MountKeeps(fs);
  }

  lemma EmptyWrite(fs: FS, f: int, fault: Option<nat>)
    requires Wf(fs) && forall i | 0 <= i < MAX_INODES :: InArea(fs.inodes[i])
    ensures Write(fs, f, [], fault).0 == fs
  {}

  /** No file has a sector more than its bytes take. */
  ghost predicate Tight(fs: FS) { forall i | 0 <= i < |fs.inodes| :: Spans(fs.inodes[i].count, fs.inodes[i].size) }

  /** A write leaves the file with the sectors its new size takes. */
  lemma WriteTight(fs: FS, f: int, buf: seq<byte>, fault: Option<nat>)
    requires Inv(fs) && Tight(fs) && forall i | 0 <= i < MAX_INODES :: InArea(fs.inodes[i]) && Fits(fs.inodes[i])
    ensures Tight(Write(fs, f, buf, fault).0)
  {
    hide NamesInv, ExtentInv, Lookup, Write, Lacks, Sectors, GrownBits, FitFrom, Spans;
    WriteFailure(fs, f, buf, fault);
    if buf == [] {
      EmptyWrite(fs, f, fault);
    } else if !WriteFails(fs, f, |buf|, fault) {
      var h := WriteStages(fs, f, buf, fault);
      SpansGrown(fs.inodes[fs.fds[f].inode], fs.fds[f].offset, |buf|);
    }
  }

  /** Fewest for the old size, fewest for the new end: the larger is fewest for the new size. */
  lemma SpansGrown(x: Inode, off: nat, len: nat)
    requires Spans(x.count, x.size)
    ensures
      var need, end := Sectors(off + len), off + len;
      Spans(if need > x.count then need else x.count, if end > x.size then end else x.size)
  {
    SectorsSpan(off + len);
  }

  lemma TightKeeps(fs: FS, op: Op)
    requires Inv(fs) && Tight(fs) && Enabled(fs, op)
    ensures Tight(Next(fs, op))
  {
    hide NamesInv, ExtentInv, Lookup, LookupWith, Subtree, Write, Read, Open, Rmdir, Delete, Rrmdr, Spans, OwnedBy;
    AreaOf(fs);
    assert Spans(FREE_INODE.count, FREE_INODE.size) by { EmptySpans(); }
    match op
    case MkdirOp(p) => MakeTight(fs, p, Dir);
    case RmdirOp(p) => RmdirRemoves(fs, p);
    case RrmdrOp(p) => RrmdrRemoves(fs, p);
    case DeleteOp(p) => DeleteRemoves(fs, p);
    case OpenOp(p, create) => OpenTight(fs, p, create);
    case CloseOp(f) =>
    case ReadOp(f, n) => ReadSlices(fs, f, n);
    case WriteOp(f, buf, fault) => WriteTight(fs, f, buf, fault);
    case MountOp =>
  }

  lemma EmptySpans()
    ensures Spans(0, 0)
  {}

  lemma MakeTight(fs: FS, p: Path, kind: Kind)
    requires Wf(fs) && ValidPath(p) && Tight(fs)
    ensures Tight(Make(fs, p, kind).0)
  {}

  lemma OpenTight(fs: FS, p: Path, create: bool)
    requires Wf(fs) && ValidPath(p) && Tight(fs)
    ensures Tight(Open(fs, p, create).0)
  {
    hide Spans, Make;
    MakeTight(fs, p, File);
  }

  lemma {:induction false} RunTight(fs: FS, ops: seq<Op>, g: FS)
    requires Inv(fs) && Tight(fs) && Runs(fs, ops, g)
    ensures Tight(g)
    decreases |ops|
  {
    hide NamesInv, ExtentInv, FdInv, Next, Tight;
    if ops != [] {
      NextKeeps(fs, ops[0]);
      TightKeeps(fs, ops[0]);
      RunTight(Next(fs, ops[0]), ops[1..], g);
    }
  }

  /** In every reachable state every file has exactly the sectors its size takes: none when empty, else as
      many as leave less than a sector unused. */
  lemma ReachableTight(g: FS, i: nat)
    requires Reachable(g) && i < |g.inodes|
    ensures
      var x := g.inodes[i];
      if x.size == 0 then x.count == 0 else (x.count - 1) * 512 < x.size <= x.count * 512
  {
    var data: seq<seq<byte>>, ops: seq<Op> :|
      && |data| == DATA_SECTORS && (forall s | 0 <= s < DATA_SECTORS :: |data[s]| == SECTOR)
      && Runs(Formatted(data), ops, g);
    FormatHolds(data);
    assert Tight(Formatted(data));
    hide Runs;
    RunTight(Formatted(data), ops, g);
  }

  /** The calls can be made one after the other, and lead from `fs` to `g`. */
  ghost predicate Runs(fs: FS, ops: seq<Op>, g: FS)
    decreases |ops|
  {
    if ops == [] then g == fs
    else DiskInv(fs) && Enabled(fs, ops[0]) && Runs(Next(fs, ops[0]), ops[1..], g)
  }

  ghost predicate Reachable(g: FS)
  {
    exists data: seq<seq<byte>>, ops: seq<Op> ::
      && |data| == DATA_SECTORS && (forall s | 0 <= s < DATA_SECTORS :: |data[s]| == SECTOR)
      && Runs(Formatted(data), ops, g)
  }

  lemma {:induction false} RunKeeps(fs: FS, ops: seq<Op>, g: FS)
    requires Inv(fs) && Runs(fs, ops, g)
    ensures Inv(g)
    decreases |ops|
  {
    hide NamesInv, ExtentInv, Next;
    if ops != [] {
      NextKeeps(fs, ops[0]);
      RunKeeps(Next(fs, ops[0]), ops[1..], g);
    }
  }

  /** In every reachable state names are unique, every used inode lies in an existing directory,
      extents are disjoint and in range, and the bitmap is exactly their union. */
  lemma ReachableInv(g: FS)
    requires Reachable(g)
    ensures Inv(g)
  {
    var data: seq<seq<byte>>, ops: seq<Op> :|
      && |data| == DATA_SECTORS && (forall s | 0 <= s < DATA_SECTORS :: |data[s]| == SECTOR)
      && Runs(Formatted(data), ops, g);
    FormatHolds(data);
    RunKeeps(Formatted(data), ops, g);
  }

  /** The rebuilt bitmap is the live one in every reachable state. */
  lemma ReachableRebuild(g: FS)
    requires Reachable(g)
    ensures (forall i | 0 <= i < |g.inodes| :: InArea(g.inodes[i])) && |g.inodes| == MAX_INODES
    ensures Rebuilt(g.inodes, MAX_INODES) == g.bits
  {
    ReachableInv(g);
    AreaOf(g);
    MountKeeps(g);
  }

  /** What one descriptor writes another reads back. */
  lemma WriteThenRead(fs: FS, f: int, buf: seq<byte>, fault: Option<nat>, f': int)
    requires Inv(fs) && Opened(fs, f) && Opened(fs, f') && f != f' && fs.fds[f'] == fs.fds[f]
    requires buf != [] && !WriteFails(fs, f, |buf|, fault)
    requires forall i | 0 <= i < MAX_INODES :: InArea(fs.inodes[i]) && Fits(fs.inodes[i])
    ensures (forall i | 0 <= i < MAX_INODES :: Fits(Write(fs, f, buf, fault).0.inodes[i]))
      && Read(Write(fs, f, buf, fault).0, f', |buf|).1 == Some(buf)
  {
    hide NamesInv, ExtentInv, Lookup, Write, Read;
    WriteSplices(fs, f, buf, fault);
    var g := Write(fs, f, buf, fault).0;
    AreaOf(g);
    ReadSlices(g, f', |buf|);
    var i := fs.fds[f].inode;
    assert g.inodes[i].name == fs.inodes[i].name by { WriteName(fs, f, buf, fault); }
    assert Lookup(g, g.inodes[i].name) ==
      LookupWith(fs, fs.inodes[i].name, FileNode(Splice(Content(fs, fs.inodes[i]), fs.fds[f].offset, buf)),
                 g.inodes[i].name);
  }

  lemma WriteName(fs: FS, f: int, buf: seq<byte>, fault: Option<nat>)
    requires Wf(fs) && Opened(fs, f) && forall i | 0 <= i < MAX_INODES :: InArea(fs.inodes[i])
    ensures var i := fs.fds[f].inode; Write(fs, f, buf, fault).0.inodes[i].name == fs.inodes[i].name
  {}
}
