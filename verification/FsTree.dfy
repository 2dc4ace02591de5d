/** The calls that create and remove names: what each does to the tree of paths. */
module FsTree {
  import opened Common
  import opened Fs
  import opened FsInv

  // ---- creating ----

  /** `g` is `fs` with free slot `i` filled by an empty file or directory. */
  ghost predicate Added(fs: FS, g: FS, p: Path, kind: Kind, i: nat)
  {
    && Wf(fs) && Wf(g) && g.bits == fs.bits && g.data == fs.data && g.fds == fs.fds
    && i < MAX_INODES && fs.inodes[i] == FREE_INODE && kind != Free
    && g.inodes == fs.inodes[i := Inode(p, 0, 0, 0, kind)]
  }

  lemma AddedNames(fs: FS, g: FS, p: Path, kind: Kind, i: nat)
    requires NamesInv(fs) && Added(fs, g, p, kind, i) && Find(fs, p).None? && IsDir(fs, ParentOf(p))
    ensures NamesInv(g)
  {
    IsDirHasDir(fs, ParentOf(p));
    forall q | HasDir(fs, q) ensures HasDir(g, q) {
      var j: nat :| j < |fs.inodes| && fs.inodes[j].kind == Dir && fs.inodes[j].name == q;
      assert g.inodes[j] == fs.inodes[j];
    }
    forall j: nat | Used(g, j) ensures HasDir(g, ParentOf(g.inodes[j].name)) {
      assert j == i || Used(fs, j);
    }
    forall j: nat, k: nat | Used(g, j) && Used(g, k) && g.inodes[j].name == g.inodes[k].name ensures j == k {
      assert j == i || Used(fs, j);
      assert k == i || Used(fs, k);
    }
  }

  lemma AddedExtents(fs: FS, g: FS, p: Path, kind: Kind, i: nat)
    requires ExtentInv(fs) && Added(fs, g, p, kind, i)
    ensures ExtentInv(g)
  {
    forall b: nat, j: nat | j < MAX_INODES ensures Covers(g.inodes[j], b) == Covers(fs.inodes[j], b) {}
    forall b: nat | b < DATA_SECTORS ensures Owned(g, b) <==> Owned(fs, b) {
      if Owned(fs, b) {
        var j: nat :| j < |fs.inodes| && Covers(fs.inodes[j], b);
        assert Covers(g.inodes[j], b);
      }
    }
  }

  ghost function LookupWith(fs: FS, p: Path, node: Node, q: Path): Option<Node>
    requires DiskInv(fs)
  {
    if q == p then Some(node) else Lookup(fs, q)
  }

  function Empty(kind: Kind): Node { if kind == Dir then DirNode else FileNode([]) }

  lemma AddedLookup(fs: FS, g: FS, p: Path, kind: Kind, i: nat, q: Path)
    requires DiskInv(fs) && DiskInv(g) && Added(fs, g, p, kind, i) && Find(fs, p).None?
    ensures Lookup(g, q) == LookupWith(fs, p, Empty(kind), q)
  {
    hide NamesInv, ExtentInv;
    FindUsed(g, i);
    if q == p {
      ShapeOf(g, i);
    } else if Find(fs, q).Some? {
      SameNode(fs, g, Find(fs, q).value);
    }
  }

  /** Creation adds exactly the new name; it fails, changing nothing, just when the name is taken,
      its parent is no directory or the table is full. */
  lemma MakeKeeps(fs: FS, p: Path, kind: Kind)
    requires DiskInv(fs) && ValidPath(p) && kind != Free
    ensures var (g, r) := Make(fs, p, kind);
      && DiskInv(g) && g.fds == fs.fds
      && (r.None? <==>
            || Lookup(fs, p).Some?
            || Lookup(fs, ParentOf(p)) != Some(DirNode)
            || forall i: nat | i < MAX_INODES :: Used(fs, i))
      && (r.None? ==> g == fs)
      && (r.Some? ==>
            Used(g, r.value) && !Used(fs, r.value) && g.inodes == fs.inodes[r.value := Inode(p, 0, 0, 0, kind)])
      && (r.Some? ==> forall q :: Lookup(g, q) == LookupWith(fs, p, Empty(kind), q))
  {
    var (g, r) := Make(fs, p, kind);
    NoNode(fs, p);
    DirNodeIsDir(fs, ParentOf(p));
    if r.Some? {
      var i := r.value;
      ShapeOf(fs, i);
      AddedNames(fs, g, p, kind, i);
      AddedExtents(fs, g, p, kind, i);
      assert !Used(fs, i);
      hide NamesInv, ExtentInv, Lookup, LookupWith;
      forall q ensures Lookup(g, q) == LookupWith(fs, p, Empty(kind), q) {
        AddedLookup(fs, g, p, kind, i, q);
      }
    }
  }

  lemma DirNodeIsDir(fs: FS, p: Path)
    requires DiskInv(fs)
    ensures Lookup(fs, p) == Some(DirNode) <==> IsDir(fs, p)
  {
    if p == ROOT {
      FindUsed(fs, 0);
    }
  }

  // ---- removing one name ----

  lemma EraseRemoves(fs: FS, i: nat)
    requires Wf(fs) && i < MAX_INODES && InArea(fs.inodes[i])
    ensures Removed(fs, Erase(fs.(bits := FreeExtent(fs.bits, fs.inodes[i])), i), {i})
  {
    var g := Erase(fs.(bits := FreeExtent(fs.bits, fs.inodes[i])), i);
    forall b: nat | b < DATA_SECTORS ensures g.bits[b] <==> fs.bits[b] && !OwnedBy(fs, {i}, b) {
      assert OwnedBy(fs, {i}, b) <==> Covers(fs.inodes[i], b);
    }
  }

  lemma AreaOf(fs: FS)
    requires ExtentInv(fs)
    ensures forall i | 0 <= i < MAX_INODES :: InArea(fs.inodes[i]) && Fits(fs.inodes[i])
  {
    forall i | 0 <= i < MAX_INODES ensures InArea(fs.inodes[i]) && Fits(fs.inodes[i]) {
      ShapeOf(fs, i);
    }
  }

  /** A file has nothing below it. */
  lemma FileSubtree(fs: FS, i: nat)
    requires NamesInv(fs) && Used(fs, i) && fs.inodes[i].kind == File
    ensures Subtree(fs, fs.inodes[i].name) == {i}
  {
    forall j: nat | j in Subtree(fs, fs.inodes[i].name) ensures j == i {
      if fs.inodes[j].name != fs.inodes[i].name {
        var c := HasChild(fs, fs.inodes[i].name, j);
        var d: nat :| d < |fs.inodes| && fs.inodes[d].kind == Dir && fs.inodes[d].name == ParentOf(fs.inodes[c].name);
        assert Used(fs, d);
      }
    }
  }

  /** A directory without children is its whole subtree. */
  lemma EmptySubtree(fs: FS, p: Path, i: nat)
    requires NamesInv(fs) && Used(fs, i) && fs.inodes[i].name == p
    requires forall j: nat | j != i :: !IsChild(fs, p, j)
    requires p != ROOT
    ensures Subtree(fs, p) == {i}
  {
    forall j: nat | j in Subtree(fs, p) ensures j == i {
      if fs.inodes[j].name != p {
        var _ := HasChild(fs, p, j);
      }
    }
  }

  /** `fs_delete` removes the file and frees its sectors, and fails just on directories and free names. */
  lemma DeleteRemoves(fs: FS, p: Path)
    requires DiskInv(fs)
    ensures (forall i | 0 <= i < MAX_INODES :: InArea(fs.inodes[i])) && var (g, ok) := Delete(fs, p);
      && (ok <==> Lookup(fs, p).Some? && Lookup(fs, p).value.FileNode?)
      && (ok ==> Removed(fs, g, Subtree(fs, p)))
      && (!ok ==> g == fs)
  {
    AreaOf(fs);
    if Find(fs, p).Some? && fs.inodes[Find(fs, p).value].kind != Dir {
      var i := Find(fs, p).value;
      EraseRemoves(fs, i);
      FileSubtree(fs, i);
    }
  }

  /** `fs_rmdir` removes an empty directory, and fails just on everything else. */
  lemma RmdirRemoves(fs: FS, p: Path)
    requires DiskInv(fs)
    ensures var (g, ok) := Rmdir(fs, p);
      && (ok <==> p != ROOT && Lookup(fs, p) == Some(DirNode) && Subtree(fs, p) == {Find(fs, p).value})
      && (ok ==> Removed(fs, g, Subtree(fs, p)))
      && (!ok ==> g == fs)
  {
    if p != ROOT && Find(fs, p).Some? && fs.inodes[Find(fs, p).value].kind == Dir {
      var i := Find(fs, p).value;
      ShapeOf(fs, i);
      EraseRemoves(fs, i);
      hide ExtentInv, Removed, Covers;
      assert ParentOf(p) != p;
      if exists j: nat | j < MAX_INODES :: j != i && IsChild(fs, p, j) {
        var j: nat :| j < MAX_INODES && j != i && IsChild(fs, p, j);
        assert Under(fs.inodes[j].name, p);
        assert j in Subtree(fs, p);
      } else {
        EmptySubtree(fs, p, i);
      }
    }
  }

  // ---- removing a subtree ----

  /** After one child's subtree is gone, the rest of the subtree is what was not below that child. */
  lemma SubtreeSplit(fs: FS, g: FS, p: Path, child: Path)
    requires Removed(fs, g, Subtree(fs, child)) && child != ROOT && ParentOf(child) == p
    ensures Subtree(fs, child) + Subtree(g, p) == Subtree(fs, p)
  {
    assert Under(child, p);
    forall i: nat | i in Subtree(fs, child) ensures i in Subtree(fs, p) {
      UnderTransitive(fs.inodes[i].name, child, p);
    }
    forall i: nat | i in Subtree(g, p) ensures i in Subtree(fs, p) {
      assert g.inodes[i] == fs.inodes[i];
    }
    forall i: nat | i in Subtree(fs, p) && i !in Subtree(fs, child) ensures i in Subtree(g, p) {
      assert g.inodes[i] == fs.inodes[i];
      assert Used(g, i);
    }
  }

  /** Removing a child's subtree keeps the directory itself and empties the child's slot. */
  lemma ChildGone(fs: FS, g: FS, p: Path, i: nat, j: nat)
    requires DiskInv(fs) && p != ROOT && Used(fs, i) && fs.inodes[i].name == p && IsChild(fs, p, j)
    requires Removed(fs, g, Subtree(fs, fs.inodes[j].name))
    ensures DiskInv(g) && g.inodes[i] == fs.inodes[i] && !Used(g, j)
    ensures forall k: nat | IsChild(g, p, k) :: IsChild(fs, p, k) && k != j
  {
    var child := fs.inodes[j].name;
    assert child != ROOT;
    SubtreeClosed(fs, child);
    RemovedNames(fs, g, Subtree(fs, child));
    RemovedExtents(fs, g, Subtree(fs, child));
    assert i !in Subtree(fs, child) by {
      if Under(p, child) {
        UnderLonger(p, child);
      }
    }
    assert j in Subtree(fs, child);
  }

  /** The child loop removes the whole subtree, whichever children are left. */
  lemma {:induction false} RemoveFromRemoves(fs: FS, p: Path, i: nat, j: nat)
    requires DiskInv(fs) && p != ROOT && Used(fs, i) && fs.inodes[i].kind == Dir && fs.inodes[i].name == p
    requires j <= MAX_INODES && forall k: nat | k < j :: !IsChild(fs, p, k)
    requires forall i | 0 <= i < MAX_INODES :: InArea(fs.inodes[i])
    ensures RemoveFrom(fs, p, i, j).1 && Removed(fs, RemoveFrom(fs, p, i, j).0, Subtree(fs, p))
    decreases if |p| < NAME_MAX then NAME_MAX - |p| else 0, 1, MAX_INODES - j
  {
    hide NamesInv, ExtentInv, Removed;
    assert ParentOf(p) != p;
    if j == MAX_INODES {
      LastStep(fs, p, i);
    } else if j == i || !IsChild(fs, p, j) {
      RemoveFromRemoves(fs, p, i, j + 1);
    } else {
      var child := fs.inodes[j];
      FindUsed(fs, j);
      if child.kind == Dir {
        RrmdrRemoves(fs, child.name);
      } else {
        DeleteRemoves(fs, child.name);
        FindUsed(fs, j);
      }
      var g := (if child.kind == Dir then Rrmdr(fs, child.name) else Delete(fs, child.name)).0;
      ChildGone(fs, g, p, i, j);
      RemoveFromRemoves(g, p, i, j + 1);
      SubtreeSplit(fs, g, p, child.name);
      RemovedTwice(fs, g, RemoveFrom(g, p, i, j + 1).0, Subtree(fs, child.name), Subtree(g, p));
    }
  }

  lemma LastStep(fs: FS, p: Path, i: nat)
    requires DiskInv(fs) && p != ROOT && Used(fs, i) && fs.inodes[i].kind == Dir && fs.inodes[i].name == p
    requires forall k: nat | k < MAX_INODES :: !IsChild(fs, p, k)
    ensures Removed(fs, Erase(fs, i), Subtree(fs, p))
  {
    ShapeOf(fs, i);
    EraseRemoves(fs, i);
    EmptySubtree(fs, p, i);
  }

  /** `fs_rrmdr` succeeds on every directory but the root, removes exactly its subtree and frees
      exactly the subtree's sectors; on anything else it fails and changes nothing. */
  lemma RrmdrRemoves(fs: FS, p: Path)
    requires DiskInv(fs)
    ensures (forall i | 0 <= i < MAX_INODES :: InArea(fs.inodes[i])) && var (g, ok) := Rrmdr(fs, p);
      && (ok <==> p != ROOT && Lookup(fs, p) == Some(DirNode))
      && (ok ==> Removed(fs, g, Subtree(fs, p)))
      && (!ok ==> g == fs)
    decreases if |p| < NAME_MAX then NAME_MAX - |p| else 0, 2
  {
    hide NamesInv, ExtentInv, Removed;
    AreaOf(fs);
    if p != ROOT && Find(fs, p).Some? && fs.inodes[Find(fs, p).value].kind == Dir {
      RemoveFromRemoves(fs, p, Find(fs, p).value, 0);
    }
  }

  /** In terms of paths: what lies below `p` is gone and every other path is as before. */
  lemma SubtreeGone(fs: FS, g: FS, p: Path)
    requires DiskInv(fs) && p != ROOT && Removed(fs, g, Subtree(fs, p))
    ensures DiskInv(g)
    ensures forall q :: Lookup(g, q) == (if Under(q, p) then None else Lookup(fs, q))
    ensures forall b: nat | b < DATA_SECTORS :: g.bits[b] <==> fs.bits[b] && !OwnedBy(fs, Subtree(fs, p), b)
  {
    SubtreeClosed(fs, p);
    RemovedKeeps(fs, g, Subtree(fs, p));
    hide NamesInv, ExtentInv, Lookup;
    forall q ensures Lookup(g, q) == (if Under(q, p) then None else Lookup(fs, q)) {
      NoNode(fs, q);
      assert Lookup(g, q) == LookupWithout(fs, Subtree(fs, p), q);
    }
  }
}
