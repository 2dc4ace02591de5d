/** The filesystem without inodes, sectors or bitmap: a map from paths to what they name, and the open
    handles. Every call on the disk does to this map, and answers, what the call on the map does. */
module FsSpec {
  import opened Common
  import opened Fs
  import opened FsInv
  import opened FsTree
  import opened FsData
  import opened FsRuns

  datatype Handle = NoHandle | Handle(path: Path, offset: nat)

  datatype Tree = Tree(nodes: map<Path, Node>, handles: seq<Handle>)

  /** What a call returns: success, a descriptor, bytes, or a count; -1 is `None` or -1. */
  datatype Answer =
    | Done(ok: bool)
    | Descriptor(fd: Option<nat>)
    | Bytes(bytes: Option<seq<byte>>)
    | Count(n: int)
    | Nothing

  predicate Holds(t: Tree, f: int) { 0 <= f < |t.handles| && t.handles[f].Handle? }

  /** Every handle stands inside a file. */
  ghost predicate Good(t: Tree)
  {
    forall f | Holds(t, f) ::
      && t.handles[f].path in t.nodes && t.nodes[t.handles[f].path].FileNode?
      && t.handles[f].offset <= |t.nodes[t.handles[f].path].bytes|
  }

  predicate DirAt(t: Tree, p: Path) { p in t.nodes && t.nodes[p] == DirNode }

  /** A name can be made in an existing directory while the table has room for it. */
  predicate CanMake(t: Tree, p: Path) { p !in t.nodes && DirAt(t, ParentOf(p)) && |t.nodes| < MAX_INODES }

  /** The map without a path and all below it. */
  function Pruned(t: Tree, p: Path): (m: map<Path, Node>)
  {
    map q | q in t.nodes && !Under(q, p) :: t.nodes[q]
  }

  /** One call on the tree; `room` says whether a write finds the sectors it needs. */
  ghost function Step(t: Tree, op: Op, room: bool): (Tree, Answer)
    requires Good(t)
  {
    match op
    case MkdirOp(p) => if CanMake(t, p) then (t.(nodes := t.nodes[p := DirNode]), Done(true)) else (t, Done(false))
    case RmdirOp(p) =>
      if p != ROOT && DirAt(t, p) && (forall q | q in t.nodes && Under(q, p) :: q == p)
      then (t.(nodes := t.nodes - {p}), Done(true)) else (t, Done(false))
    case RrmdrOp(p) =>
      if p != ROOT && DirAt(t, p) then (t.(nodes := Pruned(t, p)), Done(true)) else (t, Done(false))
    case DeleteOp(p) =>
      if p in t.nodes && t.nodes[p].FileNode? then (t.(nodes := t.nodes - {p}), Done(true)) else (t, Done(false))
    case OpenOp(p, create) => OpenStep(t, p, create)
    case CloseOp(f) => (if 0 <= f < |t.handles| then t.(handles := t.handles[f := NoHandle]) else t, Nothing)
    case ReadOp(f, n) =>
      if !Holds(t, f) then (t, Bytes(None))
      else
        var h := t.handles[f];
        var rest := t.nodes[h.path].bytes[h.offset..];
        var got := if n < |rest| then rest[..n] else rest;
        (t.(handles := t.handles[f := h.(offset := h.offset + |got|)]), Bytes(Some(got)))
    case WriteOp(f, buf, _) =>
      if !Holds(t, f) || !room then (t, Count(-1))
      else
        var h := t.handles[f];
        (Tree(t.nodes[h.path := FileNode(Splice(t.nodes[h.path].bytes, h.offset, buf))],
              t.handles[f := h.(offset := h.offset + |buf|)]), Count(|buf|))
    case MountOp => (t.(handles := seq(MAX_OPEN, _ => NoHandle)), Nothing)
  }

  function OpenStep(t: Tree, p: Path, create: bool): (Tree, Answer)
  {
    match First(t.handles, NoHandle)
    case None => (t, Descriptor(None))
    case Some(f) =>
      var held := t.handles[f := Handle(p, 0)];
      if p in t.nodes then
        if t.nodes[p] == DirNode then (t, Descriptor(None)) else (t.(handles := held), Descriptor(Some(f)))
      else if create && CanMake(t, p) then (Tree(t.nodes[p := FileNode([])], held), Descriptor(Some(f)))
      else (t, Descriptor(None))
  }

  // ---- the tree a disk stands for ----

  ghost function Names(fs: FS): set<Path>
  {
    set i: nat | i < |fs.inodes| && Used(fs, i) :: fs.inodes[i].name
  }

  ghost function HandleOf(fs: FS, d: Fd): Handle
    requires d.Fd? ==> d.inode < |fs.inodes|
  {
    if d.NoFd? then NoHandle else Handle(fs.inodes[d.inode].name, d.offset)
  }

  ghost function NodeAt(fs: FS, p: Path): Node
    requires DiskInv(fs)
  {
    var n := Lookup(fs, p);
    if n.Some? then n.value else DirNode
  }

  ghost function Abs(fs: FS): Tree
    requires DiskInv(fs)
  {
    Tree(map p | p in Names(fs) :: NodeAt(fs, p),
         seq(MAX_OPEN, f requires 0 <= f < MAX_OPEN => HandleOf(fs, fs.fds[f])))
  }

  lemma NodesMean(fs: FS, p: Path)
    requires DiskInv(fs)
    ensures p in Abs(fs).nodes <==> Lookup(fs, p).Some?
    ensures p in Abs(fs).nodes ==> Lookup(fs, p) == Some(Abs(fs).nodes[p])
  {
    hide NamesInv, ExtentInv;
    if Find(fs, p).Some? { assert Used(fs, Find(fs, p).value); }
  }

  /** The map is determined by what each path names. */
  lemma NodesAre(fs: FS, nodes: map<Path, Node>)
    requires DiskInv(fs)
    requires forall p :: Lookup(fs, p) == if p in nodes then Some(nodes[p]) else None
    ensures Abs(fs).nodes == nodes
  {
    hide DiskInv, Lookup, Abs;
    forall p ensures p in Abs(fs).nodes <==> p in nodes { NodesMean(fs, p); }
    forall p | p in nodes ensures Abs(fs).nodes[p] == nodes[p] { NodesMean(fs, p); }
  }

  lemma SameNodes(fs: FS, g: FS)
    requires DiskInv(fs) && DiskInv(g) && forall p :: Lookup(g, p) == Lookup(fs, p)
    ensures Abs(g).nodes == Abs(fs).nodes
  {
    hide DiskInv, Lookup, Abs;
    forall p ensures Lookup(g, p) == if p in Abs(fs).nodes then Some(Abs(fs).nodes[p]) else None { NodesMean(fs, p); }
    NodesAre(g, Abs(fs).nodes);
  }

  lemma HandlesMean(fs: FS, f: int)
    requires DiskInv(fs)
    ensures |Abs(fs).handles| == MAX_OPEN == |fs.fds| && (Holds(Abs(fs), f) <==> Opened(fs, f))
    ensures Opened(fs, f) ==>
              && fs.fds[f].inode < MAX_INODES == |fs.inodes|
              && Abs(fs).handles[f] == Handle(fs.inodes[fs.fds[f].inode].name, fs.fds[f].offset)
  {
    hide NamesInv, ExtentInv;
    assert 0 <= f < MAX_OPEN ==> Abs(fs).handles[f] == HandleOf(fs, fs.fds[f]);
  }

  /** With the names of open inodes as they were, handles change as the descriptors do. */
  lemma SameHandles(fs: FS, g: FS)
    requires DiskInv(fs) && DiskInv(g) && g.fds == fs.fds
    requires forall f | Opened(fs, f) :: g.inodes[fs.fds[f].inode].name == fs.inodes[fs.fds[f].inode].name
    ensures Abs(g).handles == Abs(fs).handles
  {
    hide NamesInv, ExtentInv, Lookup;
    forall f | 0 <= f < MAX_OPEN ensures Abs(g).handles[f] == Abs(fs).handles[f] {
      assert Abs(fs).handles[f] == HandleOf(fs, fs.fds[f]) && Abs(g).handles[f] == HandleOf(g, g.fds[f]);
      assert fs.fds[f].Fd? ==> Opened(fs, f);
    }
  }

  lemma OneHandle(fs: FS, g: FS, f: int)
    requires DiskInv(fs) && DiskInv(g) && 0 <= f < MAX_OPEN && g.fds == fs.fds[f := g.fds[f]]
    requires forall h | Opened(fs, h) && h != f :: g.inodes[fs.fds[h].inode].name == fs.inodes[fs.fds[h].inode].name
    ensures |g.fds| == |fs.fds| == MAX_OPEN && |g.inodes| == MAX_INODES
    ensures g.fds[f].Fd? ==> g.fds[f].inode < MAX_INODES
    ensures Abs(g).handles == Abs(fs).handles[f := HandleOf(g, g.fds[f])]
  {
    hide NamesInv, ExtentInv, Lookup;
    forall h | 0 <= h < MAX_OPEN ensures Abs(g).handles[h] == Abs(fs).handles[f := HandleOf(g, g.fds[f])][h] {
      assert Abs(fs).handles[h] == HandleOf(fs, fs.fds[h]) && Abs(g).handles[h] == HandleOf(g, g.fds[h]);
      assert fs.fds[h].Fd? ==> Opened(fs, h);
    }
  }

  lemma FileOf(fs: FS, f: int)
    requires Inv(fs) && Opened(fs, f)
    ensures
      var i := fs.fds[f].inode;
      && i < MAX_INODES && fs.inodes[i].name in Abs(fs).nodes && Fits(fs.inodes[i])
      && Abs(fs).nodes[fs.inodes[i].name] == FileNode(Content(fs, fs.inodes[i]))
      && fs.fds[f].offset <= |Content(fs, fs.inodes[i])|
  {
    hide NamesInv, ExtentInv, Abs;
    var i := fs.fds[f].inode;
    ShapeOf(fs, i);
    FindUsed(fs, i);
    NodesMean(fs, fs.inodes[i].name);
  }

  lemma AbsGood(fs: FS)
    requires Inv(fs)
    ensures Good(Abs(fs))
  {
    hide DiskInv, Abs, Lookup;
    forall f | Holds(Abs(fs), f)
      ensures
        var h := Abs(fs).handles[f];
        h.path in Abs(fs).nodes && Abs(fs).nodes[h.path].FileNode? && h.offset <= |Abs(fs).nodes[h.path].bytes|
    {
      HandlesMean(fs, f);
      FileOf(fs, f);
    }
  }

  // ---- a full table ----

  /** There are as many names as used inodes. */
  lemma NamesSize(fs: FS, used: set<nat>)
    requires NamesInv(fs) && forall i: nat :: i in used <==> Used(fs, i)
    ensures |Names(fs)| == |used|
  {
    var f := (i: nat) => if i < |fs.inodes| then fs.inodes[i].name else [];
    forall p | p in Names(fs) ensures exists i | i in used :: f(i) == p {
      var i: nat :| i < |fs.inodes| && Used(fs, i) && fs.inodes[i].name == p;
      assert f(i) == p;
    }
    InjectiveSize(used, f, Names(fs));
  }

  /** The table is full just when the tree has as many names as it has slots. */
  lemma FullTable(fs: FS)
    requires DiskInv(fs)
    ensures |Abs(fs).nodes| < MAX_INODES <==> exists i: nat | i < MAX_INODES :: !Used(fs, i)
  {
    hide NamesInv, ExtentInv, Lookup, Abs, Names;
    var used := set i: nat | i < MAX_INODES && Used(fs, i);
    NamesSize(fs, used);
    KeysSize(fs);
    if i: nat :| i < MAX_INODES && !Used(fs, i) {
      assert i in Below(MAX_INODES) && i !in used;
      SmallerSet(used, Below(MAX_INODES));
    } else {
      assert used == Below(MAX_INODES);
    }
  }

  lemma KeysSize(fs: FS)
    requires DiskInv(fs)
    ensures |Abs(fs).nodes| == |Names(fs)|
  {
    hide NamesInv, ExtentInv, Lookup;
    assert Abs(fs).nodes.Keys == Names(fs);
  }

  lemma CanMakeIs(fs: FS, p: Path, kind: Kind)
    requires DiskInv(fs) && ValidPath(p) && kind != Free
    ensures CanMake(Abs(fs), p) <==> Make(fs, p, kind).1.Some?
  {
    hide DiskInv, Abs, Lookup, Make;
    MakeKeeps(fs, p, kind);
    NodesMean(fs, p);
    NodesMean(fs, ParentOf(p));
    FullTable(fs);
  }

  // ---- every call does to the tree what it does to the disk ----

  /** What the call on the disk returns. */
  ghost function Reply(fs: FS, op: Op): Answer
    requires DiskInv(fs) && Enabled(fs, op)
  {
    AreaOf(fs);
    match op
    case MkdirOp(p) => Done(Mkdir(fs, p).1)
    case RmdirOp(p) => Done(Rmdir(fs, p).1)
    case RrmdrOp(p) => Done(Rrmdr(fs, p).1)
    case DeleteOp(p) => Done(Delete(fs, p).1)
    case OpenOp(p, create) => Descriptor(Open(fs, p, create).1)
    case CloseOp(_) => Nothing
    case ReadOp(f, n) => Bytes(Read(fs, f, n).1)
    case WriteOp(f, buf, fault) => Count(Write(fs, f, buf, fault).1)
    case MountOp => Nothing
  }

  /** Whether a write finds a free run and meets no disk error. */
  ghost predicate Room(fs: FS, op: Op)
    requires Wf(fs)
  {
    op.WriteOp? ==> !WriteFails(fs, op.fd, |op.buf|, op.fault)
  }

  ghost predicate Commutes(fs: FS, op: Op)
    requires Inv(fs) && Enabled(fs, op)
  {
    Good(Abs(fs)) && DiskInv(Next(fs, op)) && Step(Abs(fs), op, Room(fs, op)) == (Abs(Next(fs, op)), Reply(fs, op))
  }

  /** A tree with its map changed as every lookup says. */
  lemma Becomes(fs: FS, g: FS, nodes: map<Path, Node>)
    requires DiskInv(fs) && DiskInv(g) && Abs(g).handles == Abs(fs).handles
    requires forall p :: Lookup(g, p) == if p in nodes then Some(nodes[p]) else None
    ensures Abs(g) == Abs(fs).(nodes := nodes)
  {
    hide DiskInv, Lookup, Abs;
    NodesAre(g, nodes);
  }

  lemma WithNode(fs: FS, g: FS, p: Path, node: Node)
    requires DiskInv(fs) && DiskInv(g) && forall q :: Lookup(g, q) == LookupWith(fs, p, node, q)
    ensures Abs(g).nodes == Abs(fs).nodes[p := node]
  {
    hide DiskInv, Lookup, Abs;
    var nodes := Abs(fs).nodes[p := node];
    forall q ensures Lookup(g, q) == if q in nodes then Some(nodes[q]) else None { NodesMean(fs, q); }
    NodesAre(g, nodes);
  }

  /** A new inode is none that is open. */
  lemma MadeHandles(fs: FS, g: FS, i: nat, x: Inode)
    requires Inv(fs) && DiskInv(g) && g.fds == fs.fds && i < MAX_INODES && !Used(fs, i) && g.inodes == fs.inodes[i := x]
    ensures Abs(g).handles == Abs(fs).handles
  {
    hide NamesInv, ExtentInv, Lookup, Abs;
    SameHandles(fs, g);
  }

  lemma MkdirCommutes(fs: FS, p: Path)
    requires Inv(fs) && ValidPath(p)
    ensures Commutes(fs, MkdirOp(p))
  {
    hide NamesInv, ExtentInv, Lookup, LookupWith, Abs, CanMake, Make;
    AbsGood(fs);
    MakeKeeps(fs, p, Dir);
    CanMakeIs(fs, p, Dir);
    var (g, i) := Make(fs, p, Dir);
    if i.Some? {
      MadeHandles(fs, g, i.value, Inode(p, 0, 0, 0, Dir));
      WithNode(fs, g, p, DirNode);
    }
  }

  lemma KeysAre(fs: FS)
    requires DiskInv(fs)
    ensures forall q :: q in Abs(fs).nodes <==> q in Names(fs)
  {}

  /** The inodes below a path are the names below it. */
  lemma BelowMeans(fs: FS, p: Path)
    requires DiskInv(fs) && Find(fs, p).Some?
    ensures Subtree(fs, p) == {Find(fs, p).value} <==> forall q | q in Abs(fs).nodes && Under(q, p) :: q == p
  {
    hide *;
    var i := Find(fs, p).value;
    KeysAre(fs);
    Found(fs, p);
    if Subtree(fs, p) == {i} {
      forall q | q in Abs(fs).nodes && Under(q, p) ensures q == p {
        var j := InodeOf(fs, q);
        InSubtree(fs, p, j);
      }
    } else {
      var j :| j in Subtree(fs, p) && j != i;
      InSubtree(fs, p, j);
      TheInode(fs, p, j);
    }
  }

  lemma InSubtree(fs: FS, p: Path, j: nat)
    ensures j in Subtree(fs, p) <==> Used(fs, j) && Under(fs.inodes[j].name, p)
    ensures Used(fs, j) ==> j < |fs.inodes| && fs.inodes[j].name in Names(fs)
  {}

  lemma TheInode(fs: FS, p: Path, j: nat)
    requires DiskInv(fs) && Find(fs, p).Some? && Used(fs, j)
    ensures j < |fs.inodes| && (fs.inodes[j].name == p <==> j == Find(fs, p).value)
  {
    hide ExtentInv;
    FindUsed(fs, j);
  }

  lemma Found(fs: FS, p: Path)
    requires Find(fs, p).Some?
    ensures Find(fs, p).value in Subtree(fs, p)
  {
    UnderItself(p);
  }

  lemma InodeOf(fs: FS, q: Path) returns (j: nat)
    requires q in Names(fs)
    ensures Used(fs, j) && fs.inodes[j].name == q
  {
    j :| j < |fs.inodes| && Used(fs, j) && fs.inodes[j].name == q;
  }

  lemma UnderItself(p: Path)
    ensures Under(p, p)
  {}

  lemma RemovedHandles(fs: FS, g: FS, gone: set<nat>)
    requires DiskInv(fs) && DiskInv(g) && Removed(fs, g, gone) && Unopened(fs, gone)
    ensures Abs(g).handles == Abs(fs).handles
  {
    hide NamesInv, ExtentInv, Lookup, Abs;
    forall f | Opened(fs, f) ensures g.inodes[fs.fds[f].inode].name == fs.inodes[fs.fds[f].inode].name {
      assert fs.fds[f].inode !in gone;
    }
    SameHandles(fs, g);
  }

  /** Removing a subtree takes out the names below it. */
  lemma WithoutSubtree(fs: FS, g: FS, p: Path)
    requires DiskInv(fs) && p != ROOT && Removed(fs, g, Subtree(fs, p)) && Unopened(fs, Subtree(fs, p))
    ensures DiskInv(g) && Abs(g) == Abs(fs).(nodes := Pruned(Abs(fs), p))
  {
    hide DiskInv, Lookup, Abs, Removed, Under, Unopened;
    SubtreeGone(fs, g, p);
    RemovedHandles(fs, g, Subtree(fs, p));
    var nodes := Pruned(Abs(fs), p);
    forall q ensures Lookup(g, q) == if q in nodes then Some(nodes[q]) else None { NodesMean(fs, q); }
    Becomes(fs, g, nodes);
  }

  lemma WithoutOne(t: Tree, p: Path)
    requires p in t.nodes && forall q | q in t.nodes && Under(q, p) :: q == p
    ensures Pruned(t, p) == t.nodes - {p}
  {}

  lemma RmdirCommutes(fs: FS, p: Path)
    requires Inv(fs)
    ensures Commutes(fs, RmdirOp(p))
  {
    hide NamesInv, ExtentInv, Lookup, Abs, Rmdir, Removed, Subtree, Under;
    AbsGood(fs);
    RmdirRemoves(fs, p);
    NodesMean(fs, p);
    NoNode(fs, p);
    if p in Abs(fs).nodes { BelowMeans(fs, p); }
    if Rmdir(fs, p).1 {
      DirNodeIsDir(fs, p);
      DirUnopened(fs, Find(fs, p).value);
      WithoutSubtree(fs, Rmdir(fs, p).0, p);
      WithoutOne(Abs(fs), p);
    }
  }

  lemma RrmdrCommutes(fs: FS, p: Path)
    requires Inv(fs) && Enabled(fs, RrmdrOp(p))
    ensures Commutes(fs, RrmdrOp(p))
  {
    hide NamesInv, ExtentInv, Lookup, Abs, Rrmdr, Removed, Subtree, Under;
    AbsGood(fs);
    RrmdrRemoves(fs, p);
    NodesMean(fs, p);
    if Rrmdr(fs, p).1 { WithoutSubtree(fs, Rrmdr(fs, p).0, p); }
  }

  lemma FileBelow(fs: FS, p: Path)
    requires DiskInv(fs) && Lookup(fs, p).Some? && Lookup(fs, p).value.FileNode?
    ensures p != ROOT && Find(fs, p).Some? && Subtree(fs, p) == {Find(fs, p).value}
  {
    DirNodeIsDir(fs, p);
    FileSubtree(fs, Find(fs, p).value);
  }

  lemma DeleteCommutes(fs: FS, p: Path)
    requires Inv(fs) && Enabled(fs, DeleteOp(p))
    ensures Commutes(fs, DeleteOp(p))
  {
    hide NamesInv, ExtentInv, Lookup, Abs, Delete, Removed, Subtree, Under;
    AbsGood(fs);
    DeleteRemoves(fs, p);
    NodesMean(fs, p);
    if Delete(fs, p).1 {
      FileBelow(fs, p);
      BelowMeans(fs, p);
      WithoutSubtree(fs, Delete(fs, p).0, p);
      WithoutOne(Abs(fs), p);
    }
  }

  lemma FirstHandle(fs: FS)
    requires DiskInv(fs)
    ensures First(Abs(fs).handles, NoHandle) == First(fs.fds, NoFd)
  {
    hide NamesInv, ExtentInv, Lookup, Abs;
    HandlesMean(fs, 0);
    forall f | 0 <= f < MAX_OPEN ensures Abs(fs).handles[f] == NoHandle <==> fs.fds[f] == NoFd { HandlesMean(fs, f); }
  }

  lemma OpenCommutes(fs: FS, p: Path, create: bool)
    requires Inv(fs) && ValidPath(p)
    ensures Commutes(fs, OpenOp(p, create))
  {
    hide NamesInv, ExtentInv, Lookup, LookupWith, Abs, CanMake, Make, Open;
    AbsGood(fs);
    OpenKeeps(fs, p, create);
    FirstHandle(fs);
    NodesMean(fs, p);
    CanMakeIs(fs, p, File);
    var (g, r) := Open(fs, p, create);
    if r.Some? {
      OpenedHandles(fs, p, create);
      if Lookup(fs, p).Some? { OpenedNodes(fs, p, create); } else { WithNode(fs, g, p, FileNode([])); }
    }
  }

  lemma OpenedNodes(fs: FS, p: Path, create: bool)
    requires Inv(fs) && ValidPath(p) && Open(fs, p, create).1.Some? && Lookup(fs, p).Some?
    ensures DiskInv(Open(fs, p, create).0) && Abs(Open(fs, p, create).0).nodes == Abs(fs).nodes
  {
    NoNode(fs, p);
    hide NamesInv, ExtentInv, Lookup, Abs;
    var g := Open(fs, p, create).0;
    SameTable(fs, g);
    SameNodes(fs, g);
  }

  lemma OpenedHandles(fs: FS, p: Path, create: bool)
    requires Inv(fs) && ValidPath(p) && Open(fs, p, create).1.Some?
    ensures
      var (g, r) := Open(fs, p, create);
      DiskInv(g) && r.value < MAX_OPEN && Abs(g).handles == Abs(fs).handles[r.value := Handle(p, 0)]
  {
    hide NamesInv, ExtentInv, Lookup, LookupWith, Abs, Open;
    OpenKeeps(fs, p, create);
    OpenNames(fs, p, create);
    var (g, r) := Open(fs, p, create);
    OneHandle(fs, g, r.value);
  }

  /** Opening renames no inode that is open. */
  lemma OpenNames(fs: FS, p: Path, create: bool)
    requires Inv(fs) && ValidPath(p)
    ensures
      var g := Open(fs, p, create).0;
      && |g.inodes| == MAX_INODES
      && forall h | Opened(fs, h) :: g.inodes[fs.fds[h].inode].name == fs.inodes[fs.fds[h].inode].name
  {
    hide NamesInv, ExtentInv;
    assert forall h | Opened(fs, h) :: fs.inodes[fs.fds[h].inode].kind == File;
  }

  lemma CloseCommutes(fs: FS, f: int)
    requires Inv(fs)
    ensures Commutes(fs, CloseOp(f))
  {
    hide NamesInv, ExtentInv, Lookup, Abs;
    AbsGood(fs);
    var g := Close(fs, f);
    SameTable(fs, g);
    SameNodes(fs, g);
    HandlesMean(fs, f);
    if 0 <= f < MAX_OPEN { OneHandle(fs, g, f); }
  }

  lemma ReadCommutes(fs: FS, f: int, n: nat)
    requires Inv(fs)
    ensures Commutes(fs, ReadOp(f, n))
  {
    hide NamesInv, ExtentInv, Lookup, Abs, Read;
    AbsGood(fs);
    AreaOf(fs);
    ReadSlices(fs, f, n);
    HandlesMean(fs, f);
    if Opened(fs, f) {
      var g := Read(fs, f, n).0;
      FileOf(fs, f);
      NodesMean(fs, fs.inodes[fs.fds[f].inode].name);
      SameTable(fs, g);
      SameNodes(fs, g);
      OneHandle(fs, g, f);
      var bytes, off, got := Content(fs, fs.inodes[fs.fds[f].inode]), fs.fds[f].offset, Read(fs, f, n).1.value;
      assert got == if n < |bytes[off..]| then bytes[off..][..n] else bytes[off..];
    }
  }

  lemma WriteCommutes(fs: FS, f: int, buf: seq<byte>, fault: Option<nat>)
    requires Inv(fs) && Enabled(fs, WriteOp(f, buf, fault))
    ensures Commutes(fs, WriteOp(f, buf, fault))
  {
    hide NamesInv, ExtentInv, Lookup, LookupWith, Abs, Write, WriteFails;
    AbsGood(fs);
    AreaOf(fs);
    WriteFailure(fs, f, buf, fault);
    HandlesMean(fs, f);
    var g := Write(fs, f, buf, fault).0;
    if WriteFails(fs, f, |buf|, fault) {
      SameNodes(fs, g);
      SameHandles(fs, g);
    } else {
      WrittenTree(fs, f, buf, fault);
      FileOf(fs, f);
    }
  }

  lemma WrittenTree(fs: FS, f: int, buf: seq<byte>, fault: Option<nat>)
    requires Inv(fs) && !WriteFails(fs, f, |buf|, fault)
    requires forall i | 0 <= i < MAX_INODES :: InArea(fs.inodes[i]) && Fits(fs.inodes[i])
    ensures Opened(fs, f) && fs.fds[f].inode < MAX_INODES && Fits(fs.inodes[fs.fds[f].inode])
    ensures
      var x, off := fs.inodes[fs.fds[f].inode], fs.fds[f].offset;
      var (g, n) := Write(fs, f, buf, fault);
      && off <= x.size && DiskInv(g) && n == |buf|
      && Abs(g) == Tree(Abs(fs).nodes[x.name := FileNode(Splice(Content(fs, x), off, buf))],
                        Abs(fs).handles[f := Handle(x.name, off + |buf|)])
  {
    hide NamesInv, ExtentInv, Lookup, LookupWith, Abs, Write;
    var x, off := fs.inodes[fs.fds[f].inode], fs.fds[f].offset;
    var g := Write(fs, f, buf, fault).0;
    FileOf(fs, f);
    HandlesMean(fs, f);
    if buf == [] {
      NothingWritten(fs, f, fault);
      assert Splice(Content(fs, x), off, []) == Content(fs, x);
    } else {
      WriteSplices(fs, f, buf, fault);
      WithNode(fs, g, x.name, FileNode(Splice(Content(fs, x), off, buf)));
      WrittenNames(fs, f, buf, fault);
      OneHandle(fs, g, f);
    }
  }

  lemma NothingWritten(fs: FS, f: int, fault: Option<nat>)
    requires Wf(fs) && Opened(fs, f) && forall i | 0 <= i < MAX_INODES :: InArea(fs.inodes[i])
    ensures Write(fs, f, [], fault) == (fs, 0)
  {}

  /** A write renames nothing. */
  lemma WrittenNames(fs: FS, f: int, buf: seq<byte>, fault: Option<nat>)
    requires Wf(fs) && forall i | 0 <= i < MAX_INODES :: InArea(fs.inodes[i])
    ensures
      var g := Write(fs, f, buf, fault).0;
      |g.inodes| == MAX_INODES && forall i | 0 <= i < MAX_INODES :: g.inodes[i].name == fs.inodes[i].name
  {}

  lemma MountCommutes(fs: FS)
    requires Inv(fs)
    ensures Commutes(fs, MountOp)
  {
    hide NamesInv, ExtentInv, Lookup, Mount, Abs;
    AbsGood(fs);
    AreaOf(fs);
    MountKeeps(fs);
    SameNodes(fs, Mount(fs));
    ClosedHandles(Mount(fs));
  }

  lemma ClosedHandles(fs: FS)
    requires DiskInv(fs) && fs.fds == seq(MAX_OPEN, _ => NoFd)
    ensures Abs(fs).handles == seq(MAX_OPEN, _ => NoHandle)
  {
    hide NamesInv, ExtentInv, Lookup;
  }

  /** One call: the disk's tree after it, and its answer, are those of the call on the tree. */
  lemma NextCommutes(fs: FS, op: Op)
    requires Inv(fs) && Enabled(fs, op)
    ensures Commutes(fs, op)
  {
    hide Commutes, Inv;
    match op
    case MkdirOp(p) => MkdirCommutes(fs, p);
    case RmdirOp(p) => RmdirCommutes(fs, p);
    case RrmdrOp(p) => RrmdrCommutes(fs, p);
    case DeleteOp(p) => DeleteCommutes(fs, p);
    case OpenOp(p, create) => OpenCommutes(fs, p, create);
    case CloseOp(f) => CloseCommutes(fs, f);
    case ReadOp(f, n) => ReadCommutes(fs, f, n);
    case WriteOp(f, buf, fault) => WriteCommutes(fs, f, buf, fault);
    case MountOp => MountCommutes(fs);
  }

  // ---- runs ----

  /** The calls on the tree give these answers and lead from `t` to `u`. */
  ghost predicate Answers(t: Tree, ops: seq<Op>, rooms: seq<bool>, answers: seq<Answer>, u: Tree)
    decreases |ops|
  {
    && |rooms| == |ops| == |answers|
    && if ops == [] then u == t
       else
         && Good(t) && Step(t, ops[0], rooms[0]).1 == answers[0]
         && Answers(Step(t, ops[0], rooms[0]).0, ops[1..], rooms[1..], answers[1..], u)
  }

  /** What the calls of a run on the disk return, and which of its writes find room. */
  ghost function Replies(fs: FS, ops: seq<Op>, g: FS): seq<Answer>
    requires Runs(fs, ops, g)
    decreases |ops|
  {
    if ops == [] then [] else [Reply(fs, ops[0])] + Replies(Next(fs, ops[0]), ops[1..], g)
  }

  ghost function Rooms(fs: FS, ops: seq<Op>, g: FS): seq<bool>
    requires Runs(fs, ops, g)
    decreases |ops|
  {
    if ops == [] then [] else [Room(fs, ops[0])] + Rooms(Next(fs, ops[0]), ops[1..], g)
  }

  /** Over any run, the disk answers as the tree does and stands for the tree it leads to. */
  lemma {:induction false} RunsRefine(fs: FS, ops: seq<Op>, g: FS)
    requires Inv(fs) && Runs(fs, ops, g)
    ensures DiskInv(g) && Answers(Abs(fs), ops, Rooms(fs, ops, g), Replies(fs, ops, g), Abs(g))
    decreases |ops|
  {
    hide NamesInv, ExtentInv, FdInv, Next, Reply, Room, Abs, Enabled, Step, Good;
    if ops != [] {
      NextCommutes(fs, ops[0]);
      NextKeeps(fs, ops[0]);
      RunsRefine(Next(fs, ops[0]), ops[1..], g);
      assert Rooms(fs, ops, g)[1..] == Rooms(Next(fs, ops[0]), ops[1..], g);
      assert Replies(fs, ops, g)[1..] == Replies(Next(fs, ops[0]), ops[1..], g);
    }
  }

  /** A formatted disk is the tree with the root and no handle. */
  lemma FormatIsEmpty(data: seq<seq<byte>>)
    requires |data| == DATA_SECTORS && forall s | 0 <= s < DATA_SECTORS :: |data[s]| == SECTOR
    ensures DiskInv(Formatted(data))
    ensures Abs(Formatted(data)) == Tree(map[ROOT := DirNode], seq(MAX_OPEN, _ => NoHandle))
  {
    hide NamesInv, ExtentInv, Lookup;
    FormatHolds(data);
    NodesAre(Formatted(data), map[ROOT := DirNode]);
    ClosedHandles(Formatted(data));
  }

  lemma {:induction false} OneOutcome(t: Tree, ops: seq<Op>, rooms: seq<bool>,
                                      a: seq<Answer>, u: Tree, b: seq<Answer>, v: Tree)
    requires Answers(t, ops, rooms, a, u) && Answers(t, ops, rooms, b, v)
    ensures a == b && u == v
    decreases |ops|
  {
    hide Step, Good;
    if ops != [] {
      OneOutcome(Step(t, ops[0], rooms[0]).0, ops[1..], rooms[1..], a[1..], u, b[1..], v);
      assert a == [a[0]] + a[1..] && b == [b[0]] + b[1..];
    }
  }

  /** Where inodes and sectors lie cannot be told: disks that stand for the same tree, and whose writes
      find room alike, answer every sequence of calls alike and go on standing for the same tree. */
  lemma LayoutIsHidden(fs: FS, g: FS, fs': FS, g': FS, ops: seq<Op>)
    requires Inv(fs) && Inv(fs') && Abs(fs) == Abs(fs') && Runs(fs, ops, g) && Runs(fs', ops, g')
    requires Rooms(fs, ops, g) == Rooms(fs', ops, g')
    ensures Replies(fs, ops, g) == Replies(fs', ops, g') && DiskInv(g) && DiskInv(g') && Abs(g) == Abs(g')
  {
    hide NamesInv, ExtentInv, FdInv, Abs, Runs, Answers, Replies, Rooms;
    RunsRefine(fs, ops, g);
    RunsRefine(fs', ops, g');
    OneOutcome(Abs(fs), ops, Rooms(fs, ops, g), Replies(fs, ops, g), Abs(g), Replies(fs', ops, g'), Abs(g'));
  }
}
