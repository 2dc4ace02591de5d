/** What holds of the filesystem in every state, and the tree of paths it stands for. */
module FsInv {
  import opened Common
  import opened Fs

  predicate Used(fs: FS, i: nat) { i < |fs.inodes| && fs.inodes[i].kind != Free }

  /** Data sector `b` belongs to the extent of `x`. */
  predicate Covers(x: Inode, b: nat) { x.count > 0 && x.start <= DATA_START + b < x.start + x.count }

  predicate Owned(fs: FS, b: nat) { exists i: nat | i < |fs.inodes| :: Covers(fs.inodes[i], b) }

  predicate InodeInv(x: Inode)
  {
    Fits(x) && (x.kind == Free ==> x == FREE_INODE) && (x.kind == Dir ==> x.count == 0)
  }

  predicate HasDir(fs: FS, p: Path)
  {
    exists i: nat | i < |fs.inodes| :: fs.inodes[i].kind == Dir && fs.inodes[i].name == p
  }

  /** Names are unique and every used inode lies in an existing directory. */
  ghost predicate NamesInv(fs: FS)
  {
    && |fs.inodes| == MAX_INODES
    && fs.inodes[0] == Inode(ROOT, 0, 0, 0, Dir)
    && (forall i: nat, j: nat | Used(fs, i) && Used(fs, j) && fs.inodes[i].name == fs.inodes[j].name :: i == j)
    && (forall i: nat | Used(fs, i) :: HasDir(fs, ParentOf(fs.inodes[i].name)))
  }

  /** Extents lie in the data area and are disjoint, and the bitmap is exactly their union. */
  ghost predicate ExtentInv(fs: FS)
  {
    && |fs.inodes| == MAX_INODES && |fs.bits| == DATA_SECTORS
    && (forall i | 0 <= i < MAX_INODES :: InodeInv(fs.inodes[i]))
    && (forall i: nat, j: nat, b: nat
          | i < MAX_INODES && j < MAX_INODES && Covers(fs.inodes[i], b) && Covers(fs.inodes[j], b) :: i == j)
    && (forall b: nat | b < DATA_SECTORS :: fs.bits[b] <==> Owned(fs, b))
  }

  /** Open descriptors name files and stand inside them. */
  predicate FdInv(fs: FS)
  {
    forall f | 0 <= f < |fs.fds| && fs.fds[f].Fd? ::
      && fs.fds[f].inode < |fs.inodes| && fs.inodes[fs.fds[f].inode].kind == File
      && fs.fds[f].offset <= fs.inodes[fs.fds[f].inode].size
  }

  ghost predicate DiskInv(fs: FS) { Wf(fs) && NamesInv(fs) && ExtentInv(fs) }

  ghost predicate Inv(fs: FS) { DiskInv(fs) && FdInv(fs) }

  // ---- the tree of paths ----

  datatype Node = DirNode | FileNode(bytes: seq<byte>)

  ghost function NodeOf(fs: FS, i: nat): Node
    requires DiskInv(fs) && Used(fs, i)
  {
    if fs.inodes[i].kind == Dir then DirNode else FileNode(Content(fs, fs.inodes[i]))
  }

  /** What a path names. */
  ghost function Lookup(fs: FS, p: Path): Option<Node>
    requires DiskInv(fs)
  {
    match Find(fs, p)
    case None => None
    case Some(i) => Some(NodeOf(fs, i))
  }

  lemma FindUsed(fs: FS, i: nat)
    requires NamesInv(fs) && Used(fs, i)
    ensures Find(fs, fs.inodes[i].name) == Some(i)
  {}

  lemma NoNode(fs: FS, p: Path)
    requires DiskInv(fs)
    ensures Lookup(fs, p).None? <==> Find(fs, p).None?
  {}

  /** A path whose inode and sectors are the same in two states names the same node in both. */
  lemma SameNode(fs: FS, g: FS, i: nat)
    requires DiskInv(fs) && DiskInv(g) && Used(fs, i) && g.inodes[i] == fs.inodes[i]
    requires forall b: nat | b < DATA_SECTORS && Covers(fs.inodes[i], b) :: g.data[b] == fs.data[b]
    ensures Lookup(g, fs.inodes[i].name) == Lookup(fs, fs.inodes[i].name) == Some(NodeOf(fs, i))
  {
    hide NamesInv, ExtentInv;
    var x := fs.inodes[i];
    assert InodeInv(x) by { ShapeOf(fs, i); }
    FindUsed(fs, i);
    FindUsed(g, i);
    assert Content(g, x) == Content(fs, x) by {
      forall k: nat | k < x.size ensures Content(g, x)[k] == Content(fs, x)[k] {
        InExtent(x, k);
        assert Covers(x, x.start - DATA_START + k / SECTOR);
      }
    }
  }

  lemma ShapeOf(fs: FS, i: nat)
    requires ExtentInv(fs) && i < MAX_INODES
    ensures |fs.inodes| == MAX_INODES && InodeInv(fs.inodes[i])
  {}

  lemma IsDirHasDir(fs: FS, p: Path)
    requires NamesInv(fs)
    ensures IsDir(fs, p) <==> HasDir(fs, p)
  {
    assert fs.inodes[0].kind == Dir;
    if HasDir(fs, p) {
      var i: nat :| i < |fs.inodes| && fs.inodes[i].kind == Dir && fs.inodes[i].name == p;
      FindUsed(fs, i);
    }
  }

  // ---- subtrees ----

  /** Below a path other than the root, names get longer. */
  lemma {:induction false} UnderLonger(p: Path, top: Path)
    requires Under(p, top) && top != ROOT
    ensures p == top || |p| > |top|
    decreases p != ROOT, |p|
  {
    if p != top {
      UnderLonger(ParentOf(p), top);
    }
  }

  lemma {:induction false} UnderTransitive(p: Path, q: Path, top: Path)
    requires Under(p, q) && Under(q, top)
    ensures Under(p, top)
    decreases p != ROOT, |p|
  {
    if p != q {
      UnderTransitive(ParentOf(p), q, top);
    }
  }

  predicate StartsWith(p: Path, q: Path) { |q| <= |p| && p[..|q|] == q }

  /** The last slash of `p` lies at or after any other. */
  lemma LastSlashAfter(p: Path, k: nat)
    requires k < |p| && p[k] == SLASH
    ensures k <= LastSlash(p)
  {}

  /** Lying below a directory is having its path and a slash as a prefix. */
  lemma {:induction false} UnderIsPrefix(p: Path, top: Path)
    requires top != ROOT && top != []
    ensures Under(p, top) <==> p == top || StartsWith(p, top + [SLASH])
    decreases p != ROOT, |p|
  {
    var q := ParentOf(p);
    var t := top + [SLASH];
    if p == top || p == ROOT {
    } else {
      UnderIsPrefix(q, top);
      if StartsWith(p, t) {
        assert p[|top|] == t[|top|] == SLASH;
        LastSlashAfter(p, |top|);
        assert q == p[..LastSlash(p)];
        if LastSlash(p) == |top| {
          assert q == p[..|t|][..|top|] == top;
        } else {
          assert q[..|t|] == p[..|t|];
        }
      } else if Under(q, top) {
        PrefixOfParent(p, top);
      }
    }
  }

  lemma PrefixOfParent(p: Path, top: Path)
    requires top != ROOT && top != [] && p != ROOT
    requires ParentOf(p) == top || StartsWith(ParentOf(p), top + [SLASH])
    ensures StartsWith(p, top + [SLASH])
  {
    var q := ParentOf(p);
    var t := top + [SLASH];
    assert |t| > 1;
    assert q != ROOT;
    var k := LastSlash(p);
    assert q == p[..k] && p[k] == SLASH;
    if q == top {
      assert p[..|t|] == p[..k] + [p[k]];
    } else {
      assert p[..|t|] == q[..|t|];
    }
  }

  /** The inodes of a path and of everything below it. */
  ghost function Subtree(fs: FS, p: Path): set<nat>
  {
    set i: nat | i < |fs.inodes| && Used(fs, i) && Under(fs.inodes[i].name, p)
  }

  /** A used inode below `p` but not `p` itself has an ancestor that is a child of `p`. */
  lemma {:induction false} HasChild(fs: FS, p: Path, i: nat) returns (c: nat)
    requires NamesInv(fs) && Used(fs, i) && Under(fs.inodes[i].name, p) && fs.inodes[i].name != p
    ensures IsChild(fs, p, c) && Under(fs.inodes[i].name, fs.inodes[c].name) && fs.inodes[c].name != ROOT
    decreases fs.inodes[i].name != ROOT, |fs.inodes[i].name|
  {
    var q := ParentOf(fs.inodes[i].name);
    if q == p {
      c := i;
    } else {
      var j: nat :| j < |fs.inodes| && fs.inodes[j].kind == Dir && fs.inodes[j].name == q;
      c := HasChild(fs, p, j);
    }
  }

  // ---- removal ----

  /** `g` is `fs` with the inodes of `gone` erased and their sectors freed. */
  ghost predicate Removed(fs: FS, g: FS, gone: set<nat>)
  {
    && Wf(fs) && Wf(g) && g.data == fs.data && g.fds == fs.fds
    && (forall i: nat | i < MAX_INODES :: g.inodes[i] == if i in gone then FREE_INODE else fs.inodes[i])
    && (forall b: nat | b < DATA_SECTORS :: g.bits[b] <==> fs.bits[b] && !OwnedBy(fs, gone, b))
  }

  ghost predicate OwnedBy(fs: FS, s: set<nat>, b: nat)
  {
    exists i: nat | i in s && i < |fs.inodes| :: Covers(fs.inodes[i], b)
  }

  /** No inode outside the set lies in a directory inside it. */
  ghost predicate Closed(fs: FS, gone: set<nat>)
  {
    && 0 !in gone
    && forall i: nat, j: nat
         | Used(fs, i) && j in gone && Used(fs, j) && ParentOf(fs.inodes[i].name) == fs.inodes[j].name :: i in gone
  }

  lemma RemovedNames(fs: FS, g: FS, gone: set<nat>)
    requires DiskInv(fs) && Removed(fs, g, gone) && Closed(fs, gone)
    ensures NamesInv(g)
  {
    forall i: nat | Used(g, i) ensures HasDir(g, ParentOf(g.inodes[i].name)) {
      assert Used(fs, i);
      var j: nat :| j < |fs.inodes| && fs.inodes[j].kind == Dir && fs.inodes[j].name == ParentOf(fs.inodes[i].name);
      assert Used(fs, j);
      assert j !in gone;
      assert g.inodes[j] == fs.inodes[j];
    }
    forall i: nat, j: nat | Used(g, i) && Used(g, j) && g.inodes[i].name == g.inodes[j].name ensures i == j {
      assert Used(fs, i) && Used(fs, j);
    }
  }

  lemma RemovedExtents(fs: FS, g: FS, gone: set<nat>)
    requires ExtentInv(fs) && Removed(fs, g, gone)
    ensures ExtentInv(g)
  {
    forall b: nat | b < DATA_SECTORS ensures g.bits[b] <==> Owned(g, b) {
      if Owned(fs, b) {
        var i: nat :| i < |fs.inodes| && Covers(fs.inodes[i], b);
        if i in gone {
          assert OwnedBy(fs, gone, b);
        } else {
          assert Covers(g.inodes[i], b);
        }
      }
    }
  }

  /** What a path names once the set is gone. */
  ghost function LookupWithout(fs: FS, gone: set<nat>, p: Path): Option<Node>
    requires DiskInv(fs)
  {
    if Find(fs, p).Some? && Find(fs, p).value in gone then None else Lookup(fs, p)
  }

  lemma RemovedLookup(fs: FS, g: FS, gone: set<nat>, p: Path)
    requires DiskInv(fs) && DiskInv(g) && Removed(fs, g, gone)
    ensures Lookup(g, p) == LookupWithout(fs, gone, p)
  {
    hide Lookup, NamesInv, ExtentInv;
    NoNode(fs, p);
    NoNode(g, p);
    if Find(g, p).Some? {
      var i := Find(g, p).value;
      assert g.inodes[i] == fs.inodes[i];
      FindUsed(fs, i);
      SameNode(fs, g, i);
    } else if Find(fs, p).Some? {
      assert Find(fs, p).value in gone;
    }
  }

  /** Removing a closed set keeps the disk consistent and leaves every other path as it was. */
  lemma RemovedKeeps(fs: FS, g: FS, gone: set<nat>)
    requires DiskInv(fs) && Removed(fs, g, gone) && Closed(fs, gone)
    ensures DiskInv(g)
    ensures forall p :: Lookup(g, p) == LookupWithout(fs, gone, p)
  {
    RemovedNames(fs, g, gone);
    RemovedExtents(fs, g, gone);
    hide Lookup, LookupWithout, NamesInv, ExtentInv;
    forall p ensures Lookup(g, p) == LookupWithout(fs, gone, p) {
      RemovedLookup(fs, g, gone, p);
    }
  }

  lemma RemovedTwice(fs: FS, g: FS, h: FS, a: set<nat>, b: set<nat>)
    requires Removed(fs, g, a) && Removed(g, h, b)
    ensures Removed(fs, h, a + b)
  {
    forall s: nat | s < DATA_SECTORS ensures h.bits[s] <==> fs.bits[s] && !OwnedBy(fs, a + b, s) {
      if OwnedBy(fs, a + b, s) {
        var i: nat :| i in a + b && i < |fs.inodes| && Covers(fs.inodes[i], s);
        if i in a {
          assert OwnedBy(fs, a, s);
        } else {
          assert Covers(g.inodes[i], s);
          assert OwnedBy(g, b, s);
        }
      } else {
        assert forall i: nat | i in b && i < |g.inodes| && Covers(g.inodes[i], s) :: g.inodes[i] == fs.inodes[i];
      }
    }
  }

  lemma SubtreeClosed(fs: FS, p: Path)
    requires NamesInv(fs) && p != ROOT
    ensures Closed(fs, Subtree(fs, p))
  {
    assert !Under(ROOT, p);
  }
}
