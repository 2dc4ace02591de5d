/** What each tree call does to the tree the pool stands for. */
module BspSteps {
  import opened Common
  import opened Bsp

  // ---- reading the pool ----

  lemma {:induction false} HoldsFrame(nodes: seq<Node>, now: seq<Node>, s: Shape, parent: int)
    requires Holds(nodes, s, parent) && |now| == |nodes|
    requires forall i | i in Ids(s) && i < |nodes| :: now[i] == nodes[i]
    ensures Holds(now, s, parent)
  {
    if s.Split? {
      HoldsFrame(nodes, now, s.first, s.at);
      HoldsFrame(nodes, now, s.second, s.at);
    }
  }

  lemma {:induction false} HoldsBounds(nodes: seq<Node>, s: Shape, parent: int)
    requires Holds(nodes, s, parent)
    ensures forall i | i in Ids(s) :: i < |nodes| && nodes[i].inUse
  {
    if s.Split? {
      HoldsBounds(nodes, s.first, s.at);
      HoldsBounds(nodes, s.second, s.at);
    }
  }

  /** Every part of the tree is held below its own parent link, which is a split over it. */
  lemma {:induction false} SubHolds(nodes: seq<Node>, s: Shape, parent: int, i: nat)
    requires Holds(nodes, s, parent) && Distinct(s) && i in Ids(s)
    ensures i < |nodes| && Holds(nodes, Sub(s, i), nodes[i].parent) && Distinct(Sub(s, i))
    ensures i == s.at ==> nodes[i].parent == parent
    ensures i != s.at ==> ParentOver(nodes, s, i)
  {
    if i != s.at {
      var half := if i in Ids(s.first) then s.first else s.second;
      SubHolds(nodes, half, s.at, i);
      if i != half.at {
        OverWider(nodes, s, half, i);
      }
    }
  }

  /** The parent link of `i` names a split of the tree that has `i` as a child. */
  ghost predicate ParentOver(nodes: seq<Node>, s: Shape, i: nat)
    requires i < |nodes| && i in Ids(s)
  {
    var p := nodes[i].parent;
    && 0 <= p < |nodes| && p in Ids(s)
    && var up := Sub(s, p);
    && up.Split? && (up.first == Sub(s, i) || up.second == Sub(s, i)) && p !in Ids(Sub(s, i))
  }

  lemma OverWider(nodes: seq<Node>, s: Shape, half: Shape, i: nat)
    requires s.Split? && Distinct(s) && (half == s.first || half == s.second) && i in Ids(half) && i < |nodes|
    requires ParentOver(nodes, half, i)
    ensures ParentOver(nodes, s, i)
  {
    var p := nodes[i].parent as nat;
    assert Sub(s, p) == Sub(half, p);
    assert Sub(s, i) == Sub(half, i);
  }

  /** The links of a pool that holds a tree stay inside it. */
  lemma IsLinked(t: Pool, s: Option<Shape>)
    requires Is(t, s)
    ensures Linked(t)
  {
    if s.Some? {
      forall i: nat | i < MAX_NODES && t.nodes[i].inUse
        ensures t.nodes[i].parent == -1 || ValidSplit(t, t.nodes[i].parent)
        ensures !t.nodes[i].isLeaf ==> 0 <= t.nodes[i].child0 < MAX_NODES && 0 <= t.nodes[i].child1 < MAX_NODES
      {
        SubHolds(t.nodes, s.value, -1, i);
        if t.nodes[i].parent != -1 {
          SubHolds(t.nodes, s.value, -1, t.nodes[i].parent);
        }
      }
    }
  }

  /** A pool stands for one tree only. */
  lemma {:induction false} HoldsUnique(nodes: seq<Node>, s: Shape, u: Shape, parent: int)
    requires Holds(nodes, s, parent) && Holds(nodes, u, parent) && s.at == u.at
    ensures s == u
  {
    if s.Split? {
      HoldsUnique(nodes, s.first, u.first, s.at);
      HoldsUnique(nodes, s.second, u.second, s.at);
    }
  }

  lemma ShapeUnique(t: Pool, s: Option<Shape>, u: Option<Shape>)
    requires Is(t, s) && Is(t, u)
    ensures s == u
  {
    if s.Some? && u.Some? {
      HoldsUnique(t.nodes, s.value, u.value, -1);
    }
  }

  /** A tree of k windows has 2k - 1 nodes. */
  lemma {:induction false} IdsSize(s: Shape)
    requires Distinct(s)
    ensures |Ids(s)| == 2 * Leaves(s) - 1
  {
    if s.Split? {
      IdsSize(s.first);
      IdsSize(s.second);
      assert |Ids(s.first) + Ids(s.second)| == |Ids(s.first)| + |Ids(s.second)|;
      assert Ids(s) == {s.at} + (Ids(s.first) + Ids(s.second));
    }
  }

  lemma SubsetSize(a: set<nat>, b: set<nat>)
    requires a <= b
    ensures |a| <= |b| && (|a| == |b| ==> a == b)
  {
    assert b == a + (b - a);
    if |a| == |b| {
      assert |b - a| == 0;
    }
  }

  /** A slot is free unless all 64 are in use. */
  lemma FreeIff(nodes: seq<Node>, ids: set<nat>)
    requires |nodes| == MAX_NODES && forall i: nat | i < MAX_NODES :: nodes[i].inUse <==> i in ids
    requires forall i | i in ids :: i < MAX_NODES
    ensures FreeFrom(nodes, 0).None? <==> |ids| == MAX_NODES
    ensures |ids| <= MAX_NODES
  {
    assert ids <= Below(MAX_NODES);
    SubsetSize(ids, Below(MAX_NODES));
    match FreeFrom(nodes, 0)
    case None =>
      assert ids == Below(MAX_NODES);
    case Some(n) =>
      assert n in Below(MAX_NODES) && n !in ids;
  }

  /** There is always one free slot, and a second exactly when fewer than 32 windows are open. */
  lemma FreeSlots(t: Pool, s: Shape)
    requires Is(t, Some(s))
    ensures FreeFrom(t.nodes, 0).Some?
    ensures FreeFrom(Claim(t.nodes, FreeFrom(t.nodes, 0).value), 0).Some? <==> Leaves(s) < 32
    ensures Leaves(s) <= 32
  {
    HoldsBounds(t.nodes, s, -1);
    IdsSize(s);
    SecondSlot(t.nodes, Ids(s), Leaves(s));
  }

  lemma SecondSlot(nodes: seq<Node>, ids: set<nat>, k: nat)
    requires |nodes| == MAX_NODES && forall i: nat | i < MAX_NODES :: nodes[i].inUse <==> i in ids
    requires |ids| == 2 * k - 1 && forall i | i in ids :: i < MAX_NODES
    ensures FreeFrom(nodes, 0).Some? && k <= 32
    ensures FreeFrom(Claim(nodes, FreeFrom(nodes, 0).value), 0).Some? <==> k < 32
  {
    FreeIff(nodes, ids);
    var o := FreeFrom(nodes, 0).value;
    assert |ids + {o}| == 2 * k;
    FreeIff(Claim(nodes, o), ids + {o});
  }

  // ---- replacing part of the tree ----

  /** Outside the replaced part only the parent's link changes. */
  ghost predicate Rewired(nodes: seq<Node>, now: seq<Node>, s: Shape, i: nat, sub: Shape, p: int)
    requires i in Ids(s)
  {
    && |now| == |nodes|
    && forall k | k in Ids(s) && k !in Ids(Sub(s, i)) && k < |nodes| ::
      now[k] == if k == p then Repoint(nodes[k], i, sub.at) else nodes[k]
  }

  lemma ReplaceElsewhere(s: Shape, i: nat, sub: Shape)
    requires i !in Ids(s)
    ensures Replace(s, i, sub) == s
  {}

  lemma {:induction false} ReplaceHolds(nodes: seq<Node>, now: seq<Node>, s: Shape, parent: int, i: nat, sub: Shape)
    requires Holds(nodes, s, parent) && Distinct(s) && i in Ids(s) && i < |nodes|
    requires Rewired(nodes, now, s, i, sub, nodes[i].parent) && Holds(now, sub, nodes[i].parent)
    ensures Holds(now, Replace(s, i, sub), parent)
  {
    if s.at == i {
      SubHolds(nodes, s, parent, i);
    } else {
      var left := i in Ids(s.first);
      var near := if left then s.first else s.second;
      var far := if left then s.second else s.first;
      SubHolds(nodes, near, s.at, i);
      assert Sub(s, i) == Sub(near, i);
      assert nodes[i].parent !in Ids(far);
      HoldsFrame(nodes, now, far, s.at);
      ReplaceElsewhere(far, i, sub);
      ReplaceHolds(nodes, now, near, s.at, i, sub);
      HoldsBounds(nodes, far, s.at);
      assert i == near.at <==> nodes[i].parent == s.at;
      assert s.first.at != s.second.at;
    }
  }

  /** The ids and the distinctness of a replaced tree. */
  lemma {:induction false} ReplaceIds(s: Shape, i: nat, sub: Shape)
    requires Distinct(s) && i in Ids(s) && Distinct(sub)
    requires Ids(sub) !! (Ids(s) - Ids(Sub(s, i)))
    ensures Distinct(Replace(s, i, sub)) && Ids(Replace(s, i, sub)) == (Ids(s) - Ids(Sub(s, i))) + Ids(sub)
  {
    if s.at != i {
      var left := i in Ids(s.first);
      var near := if left then s.first else s.second;
      var far := if left then s.second else s.first;
      assert Sub(s, i) == Sub(near, i);
      assert s.at !in Ids(Sub(near, i)) && Ids(far) !! Ids(Sub(near, i));
      ReplaceElsewhere(far, i, sub);
      ReplaceIds(near, i, sub);
      assert Ids(Replace(s, i, sub)) == {s.at} + Ids(far) + Ids(Replace(near, i, sub));
      assert Ids(s) == {s.at} + Ids(far) + Ids(near);
    }
  }

  /** Replacing part of the tree in the pool replaces it in the tree. */
  lemma ReplaceIs(t: Pool, s: Shape, i: nat, sub: Shape, g: Pool)
    requires Is(t, Some(s)) && i in Ids(s) && i < MAX_NODES && |g.nodes| == MAX_NODES
    requires Rewired(t.nodes, g.nodes, s, i, sub, t.nodes[i].parent)
    requires Holds(g.nodes, sub, t.nodes[i].parent) && Distinct(sub)
    requires Ids(sub) !! (Ids(s) - Ids(Sub(s, i)))
    requires g.root == if i == s.at then sub.at else t.root
    requires forall k: nat | k < MAX_NODES ::
              g.nodes[k].inUse <==> (k in Ids(s) && k !in Ids(Sub(s, i))) || k in Ids(sub)
    ensures Is(g, Some(Replace(s, i, sub)))
  {
    ReplaceHolds(t.nodes, g.nodes, s, -1, i, sub);
    ReplaceIds(s, i, sub);
  }

  /** A parent has the child whose parent it is. */
  lemma ParentLinks(t: Pool, s: Shape, i: nat)
    requires Is(t, Some(s)) && i in Ids(s)
    ensures i < MAX_NODES
    ensures var p := t.nodes[i].parent; p == -1 || (0 <= p < MAX_NODES && Repoint(t.nodes[p], i, i) == t.nodes[p])
  {
    SubHolds(t.nodes, s, -1, i);
    if i != s.at {
      SubHolds(t.nodes, s, -1, t.nodes[i].parent);
    }
  }

  // ---- the calls ----

  /** Splitting a leaf puts the split where the leaf was. */
  lemma InsertSplits(t: Pool, s: Shape, target: nat, dir: SplitDir, newSecond: bool, window: int)
    requires Is(t, Some(s)) && ValidLeaf(t, target) && Leaves(s) < 32
    ensures var (g, n) := Insert(t, target, dir, newSecond, window);
      && n >= 0 && n !in Ids(s)
      && exists o: nat ::
           && o !in Ids(s) && o != n
           && Is(g, Some(Replace(s, target, InsertedAt(target, t.nodes[target].window, o, n, dir, newSecond, window))))
  {
    FreeSlots(t, s);
    SubHolds(t.nodes, s, -1, target);
    var o := FreeFrom(t.nodes, 0).value;
    var one := Claim(t.nodes, o);
    var n := FreeFrom(one, 0).value;
    var g := Insert(t, target, dir, newSecond, window).0;
    assert g == t.(nodes := SplitLeaf(Claim(one, n), target, o, n, dir, newSecond, window));
    assert o !in Ids(s) && n !in Ids(s) && o != n;
    SplitIs(t, s, target, o, n, dir, newSecond, window);
  }

  lemma SplitIs(t: Pool, s: Shape, target: nat, o: nat, n: nat, dir: SplitDir, newSecond: bool, window: int)
    requires Is(t, Some(s)) && ValidLeaf(t, target) && target in Ids(s)
    requires o < MAX_NODES && n < MAX_NODES && o != n && o !in Ids(s) && n !in Ids(s)
    requires Holds(t.nodes, Sub(s, target), t.nodes[target].parent)
    ensures var g := t.(nodes := SplitLeaf(Claim(Claim(t.nodes, o), n), target, o, n, dir, newSecond, window));
      Is(g, Some(Replace(s, target, InsertedAt(target, t.nodes[target].window, o, n, dir, newSecond, window))))
  {
    var sub := InsertedAt(target, t.nodes[target].window, o, n, dir, newSecond, window);
    var g := t.(nodes := SplitLeaf(Claim(Claim(t.nodes, o), n), target, o, n, dir, newSecond, window));
    assert Sub(s, target) == Leaf(target, t.nodes[target].window);
    assert Ids(sub.first) + Ids(sub.second) == {o, n} && Distinct(sub.first) && Distinct(sub.second);
    assert Ids(sub) == {target, o, n} && Distinct(sub);
    ParentLinks(t, s, target);
    assert Holds(g.nodes, sub, t.nodes[target].parent);
    assert forall k: nat | k < MAX_NODES && k !in {target, o, n} :: g.nodes[k] == t.nodes[k];
    hide Holds, Distinct, Ids, SplitLeaf, Claim, Sub;
    ReplaceIs(t, s, target, sub, g);
  }

  /** Insertion at a leaf fails exactly at 32 windows, and then the tree is unchanged; elsewhere
      it fails unless the tree is empty and no target is named. */
  lemma InsertFails(t: Pool, s: Option<Shape>, target: int, dir: SplitDir, newSecond: bool, window: int)
    requires Is(t, s)
    ensures var (g, n) := Insert(t, target, dir, newSecond, window);
      && (n < 0 <==> if target == -1 then s.Some? else !ValidLeaf(t, target) || (s.Some? && Leaves(s.value) == 32))
      && (n < 0 ==> n == -1 && Is(g, s))
  {
    if s.Some? && target != -1 && ValidLeaf(t, target) {
      FreeSlots(t, s.value);
      var g := Insert(t, target, dir, newSecond, window).0;
      if Leaves(s.value) == 32 {
        HoldsFrame(t.nodes, g.nodes, s.value, -1);
      }
    } else if s.None? && target == -1 {
      assert !t.nodes[0].inUse;
    }
  }

  /** The first window is the whole tree. */
  lemma InsertFirst(t: Pool, dir: SplitDir, newSecond: bool, window: int)
    requires Is(t, None)
    ensures var (g, n) := Insert(t, -1, dir, newSecond, window);
      && n >= 0 && Is(g, Some(Leaf(n, window)))
  {
    assert !t.nodes[0].inUse;
  }

  lemma {:induction false} PrunedIsReplace(s: Shape, leaf: nat, p: nat, sibling: Shape)
    requires Distinct(s) && leaf in Ids(s) && p in Ids(s) && Sub(s, p).Split? && Sub(s, leaf).Leaf?
    requires
      var up := Sub(s, p);
      (up.first == Sub(s, leaf) && up.second == sibling) || (up.second == Sub(s, leaf) && up.first == sibling)
    ensures Pruned(s, leaf) == Some(Replace(s, p, sibling))
  {
    if s.at == p {
      PrunedElsewhere(sibling, leaf);
    } else {
      var left := p in Ids(s.first);
      var near := if left then s.first else s.second;
      var far := if left then s.second else s.first;
      assert leaf in Ids(Sub(near, p)) && Ids(Sub(near, p)) <= Ids(near);
      assert Sub(near, leaf) == Sub(s, leaf);
      PrunedIsReplace(near, leaf, p, sibling);
      PrunedElsewhere(far, leaf);
      ReplaceElsewhere(far, p, sibling);
    }
  }

  lemma PrunedElsewhere(s: Shape, leaf: nat)
    requires leaf !in Ids(s)
    ensures Pruned(s, leaf) == Some(s)
  {}

  /** Removing a leaf lifts its sibling into the place of their parent. */
  lemma RemovePrunes(t: Pool, s: Shape, leaf: nat)
    requires Is(t, Some(s)) && ValidLeaf(t, leaf) && Linked(t)
    ensures Remove(t, leaf).1 == 0 && Is(Remove(t, leaf).0, Pruned(s, leaf))
  {
    SubHolds(t.nodes, s, -1, leaf);
    var g := Remove(t, leaf).0;
    var p := t.nodes[leaf].parent;
    if leaf == s.at {
      assert s == Leaf(leaf, s.window);
    } else {
      SubHolds(t.nodes, s, -1, p);
      var up := Sub(s, p);
      var sibling := if up.first == Sub(s, leaf) then up.second else up.first;
      PrunedIsReplace(s, leaf, p, sibling);
      LiftSibling(t, s, leaf, p, sibling);
    }
  }

  lemma LiftSibling(t: Pool, s: Shape, leaf: nat, p: nat, sibling: Shape)
    requires Is(t, Some(s)) && ValidLeaf(t, leaf) && Linked(t)
    requires t.nodes[leaf].parent == p && leaf in Ids(s) && p in Ids(s)
    requires Sub(s, leaf).Leaf? && Sub(s, p).Split? && leaf != s.at
    requires
      var up := Sub(s, p);
      (up.first == Sub(s, leaf) && up.second == sibling) || (up.second == Sub(s, leaf) && up.first == sibling)
    ensures Is(Remove(t, leaf).0, Some(Replace(s, p, sibling)))
  {
    var g := Remove(t, leaf).0;
    var grand := t.nodes[p].parent;
    SubHolds(t.nodes, s, -1, p);
    var up := Sub(s, p);
    HoldsBounds(t.nodes, up, grand);
    assert Ids(up) == {p} + {leaf} + Ids(sibling);
    assert grand !in Ids(up);
    assert p !in Ids(sibling) && leaf !in Ids(sibling) && sibling.at in Ids(sibling);
    RemovedNodes(t, leaf, p, sibling.at, grand);
    Reparent(t.nodes, g.nodes, sibling, p, grand);
    hide Holds, Distinct, Ids, Remove, Linked, Sub;
    ReplaceIs(t, s, p, sibling, g);
  }

  /** The pool after a removal, node by node. */
  lemma RemovedNodes(t: Pool, leaf: nat, p: nat, sibling: nat, grand: int)
    requires Linked(t) && ValidLeaf(t, leaf) && t.nodes[leaf].parent == p && p < MAX_NODES && sibling < MAX_NODES
    requires
      || (t.nodes[p].child0 == leaf && t.nodes[p].child1 == sibling)
      || (t.nodes[p].child1 == leaf && t.nodes[p].child0 == sibling)
    requires t.nodes[p].parent == grand && leaf != p && sibling != leaf && sibling != p
    requires grand != p && grand != leaf && grand != sibling
    ensures var g := Remove(t, leaf).0;
      && g.root == (if grand == -1 then sibling else t.root)
      && !g.nodes[leaf].inUse && !g.nodes[p].inUse
      && forall k: nat | k < MAX_NODES && k != leaf && k != p ::
        g.nodes[k] ==
          if k == sibling then t.nodes[k].(parent := grand)
          else if k == grand then Repoint(t.nodes[k], p, sibling)
          else t.nodes[k]
  {}

  /** A subtree keeps its shape when only its root's parent link changes. */
  lemma Reparent(nodes: seq<Node>, now: seq<Node>, s: Shape, parent: int, grand: int)
    requires Holds(nodes, s, parent) && Distinct(s) && |now| == |nodes| && s.at < |nodes|
    requires now[s.at] == nodes[s.at].(parent := grand)
    requires forall i | i in Ids(s) && i < |nodes| && i != s.at :: now[i] == nodes[i]
    ensures Holds(now, s, grand)
  {
    if s.Split? {
      HoldsFrame(nodes, now, s.first, s.at);
      HoldsFrame(nodes, now, s.second, s.at);
    }
  }

  /** Flipping, rotating and resizing change one split of the tree and nothing else. */
  lemma EditIs(t: Pool, s: Shape, i: nat, x: Node, sub: Shape)
    requires Is(t, Some(s)) && ValidSplit(t, i) && i in Ids(s) && Sub(s, i).Split?
    requires sub.Split? && sub.at == i
    requires x == t.nodes[i].(dir := sub.dir, ratio := sub.ratio, child0 := sub.first.at, child1 := sub.second.at)
    requires MIN_RATIO <= sub.ratio <= MAX_RATIO
    requires
      var was := Sub(s, i);
      (sub.first, sub.second) == (was.first, was.second) || (sub.first, sub.second) == (was.second, was.first)
    ensures Is(t.(nodes := t.nodes[i := x]), Some(Replace(s, i, sub)))
  {
    SubHolds(t.nodes, s, -1, i);
    ParentLinks(t, s, i);
    var g := t.(nodes := t.nodes[i := x]);
    HoldsFrame(t.nodes, g.nodes, sub.first, i);
    HoldsFrame(t.nodes, g.nodes, sub.second, i);
    assert Ids(sub) == Ids(Sub(s, i));
    hide Sub;
    ReplaceIs(t, s, i, sub, g);
  }

  lemma SplitOf(t: Pool, s: Shape, i: nat)
    requires Is(t, Some(s)) && ValidSplit(t, i)
    ensures i in Ids(s) && Sub(s, i).Split?
    ensures
      var was := Sub(s, i);
      t.nodes[i].dir == was.dir && t.nodes[i].ratio == was.ratio && MIN_RATIO <= was.ratio <= MAX_RATIO
    ensures t.nodes[i].child0 == Sub(s, i).first.at && t.nodes[i].child1 == Sub(s, i).second.at
  {
    SubHolds(t.nodes, s, -1, i);
  }

  lemma FlipIs(t: Pool, s: Shape, i: nat)
    requires Is(t, Some(s)) && ValidSplit(t, i)
    ensures i in Ids(s) && Sub(s, i).Split?
    ensures var was := Sub(s, i); Is(Flip(t, i), Some(Replace(s, i, was.(first := was.second, second := was.first))))
  {
    SplitOf(t, s, i);
    var was := Sub(s, i);
    EditIs(t, s, i, Flipped(t.nodes[i]), was.(first := was.second, second := was.first));
  }

  lemma RotateIs(t: Pool, s: Shape, i: nat)
    requires Is(t, Some(s)) && ValidSplit(t, i)
    ensures i in Ids(s) && Sub(s, i).Split?
    ensures var was := Sub(s, i);
      Is(Rotate(t, i), Some(Replace(s, i, was.(dir := Other(was.dir), first := was.second, second := was.first))))
  {
    SplitOf(t, s, i);
    var was := Sub(s, i);
    var sub := was.(dir := Other(was.dir), first := was.second, second := was.first);
    EditIs(t, s, i, Flipped(t.nodes[i].(dir := Other(t.nodes[i].dir))), sub);
  }

  lemma ResizeIs(t: Pool, s: Shape, i: nat, delta: real)
    requires Is(t, Some(s)) && ValidSplit(t, i)
    ensures i in Ids(s) && Sub(s, i).Split?
    ensures var was := Sub(s, i); Is(Resize(t, i, delta), Some(Replace(s, i, was.(ratio := Clamp(was.ratio + delta)))))
  {
    SplitOf(t, s, i);
    var was := Sub(s, i);
    EditIs(t, s, i, t.nodes[i].(ratio := Clamp(t.nodes[i].ratio + delta)), was.(ratio := Clamp(was.ratio + delta)));
  }
}
