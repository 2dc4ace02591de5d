/** The tiling tree (kernel/bsp.c): a pool of 64 nodes linked by index, and the tree it stands for. */
module Bsp {
  import opened Common

  const MAX_NODES := 64
  const MIN_RATIO := 0.1
  const MAX_RATIO := 0.9

  datatype SplitDir = Vertical | Horizontal

  datatype Rect = Rect(x: int, y: int, w: int, h: int)

  datatype Node = Node(
    inUse: bool,
    isLeaf: bool,
    parent: int,
    dir: SplitDir,
    ratio: real,
    child0: int,
    child1: int,
    window: int)

  datatype Pool = Pool(nodes: seq<Node>, root: int)

  /** The tree a pool stands for; `at` is the pool index of each node. */
  datatype Shape =
    | Leaf(at: nat, window: int)
    | Split(at: nat, dir: SplitDir, ratio: real, first: Shape, second: Shape)

  /** The tree without the pool indices. */
  datatype Plan = Tile(window: int) | Cut(dir: SplitDir, ratio: real, first: Plan, second: Plan)

  // ---- the calls ----

  const EMPTY_NODE := Node(false, true, -1, Vertical, 0.5, -1, -1, -1)

  function Init(): Pool { Pool(seq(MAX_NODES, _ => EMPTY_NODE), -1) }

  function FreeFrom(nodes: seq<Node>, from: nat): (r: Option<nat>)
    requires from <= |nodes|
    ensures r.Some? ==> from <= r.value < |nodes| && !nodes[r.value].inUse
    ensures r.None? ==> forall i | from <= i < |nodes| :: nodes[i].inUse
    decreases |nodes| - from
  {
    if from == |nodes| then None
    else if !nodes[from].inUse then Some(from)
    else FreeFrom(nodes, from + 1)
  }

  function Claim(nodes: seq<Node>, i: nat): (r: seq<Node>)
    requires i < |nodes|
    ensures |r| == |nodes|
  {
    nodes[i := nodes[i].(inUse := true, parent := -1, child0 := -1, child1 := -1)]
  }

  function Release(nodes: seq<Node>, i: nat): (r: seq<Node>)
    requires i < |nodes|
    ensures |r| == |nodes|
  {
    nodes[i := nodes[i].(inUse := false)]
  }

  predicate ValidLeaf(t: Pool, i: int) { 0 <= i < |t.nodes| && t.nodes[i].inUse && t.nodes[i].isLeaf }

  predicate ValidSplit(t: Pool, i: int) { 0 <= i < |t.nodes| && t.nodes[i].inUse && !t.nodes[i].isLeaf }

  /** `bsp_insert`: the new leaf, or -1. */
  function Insert(t: Pool, target: int, dir: SplitDir, newSecond: bool, window: int): (r: (Pool, int))
    requires |t.nodes| == MAX_NODES
    ensures |r.0.nodes| == MAX_NODES
  {
    var failed: int := -1;
    if target == -1 then
      if t.root != -1 then (t, failed)
      else
        match FreeFrom(t.nodes, 0)
        case None => (t, failed)
        case Some(i) =>
          var nodes := Claim(t.nodes, i);
          (Pool(nodes[i := nodes[i].(isLeaf := true, parent := -1, window := window)], i), i)
    else if !ValidLeaf(t, target) then (t, failed)
    else
      match FreeFrom(t.nodes, 0)
      case None => (t, failed)
      case Some(o) =>
        var one := Claim(t.nodes, o);
        match FreeFrom(one, 0)
        case None => (t.(nodes := Release(one, o)), failed)
        case Some(n) =>
          (t.(nodes := SplitLeaf(Claim(one, n), target, o, n, dir, newSecond, window)), n)
  }

  /** Turn leaf `target` into a split over the leaves `o`, which takes its window, and `n`. */
  function SplitLeaf(nodes: seq<Node>, target: nat, o: nat, n: nat, dir: SplitDir, newSecond: bool,
                     window: int): (r: seq<Node>)
    requires target < |nodes| && o < |nodes| && n < |nodes|
    ensures |r| == |nodes|
  {
    var one := nodes[o := nodes[o].(isLeaf := true, parent := target, window := nodes[target].window)];
    var two := one[n := one[n].(isLeaf := true, parent := target, window := window)];
    two[target := two[target].(isLeaf := false, dir := dir, ratio := 0.5,
                               child0 := if newSecond then o else n, child1 := if newSecond then n else o)]
  }

  function AutoDir(r: Rect): SplitDir { if r.w >= r.h then Vertical else Horizontal }

  /** The links that the calls follow stay inside the pool. */
  predicate Linked(t: Pool)
  {
    && |t.nodes| == MAX_NODES
    && forall i | 0 <= i < MAX_NODES && t.nodes[i].inUse ::
      && (t.nodes[i].parent == -1 || ValidSplit(t, t.nodes[i].parent))
      && (!t.nodes[i].isLeaf ==> 0 <= t.nodes[i].child0 < MAX_NODES && 0 <= t.nodes[i].child1 < MAX_NODES)
  }

  /** Node `x` with its child link `a` turned to `b`. */
  function Repoint(x: Node, a: int, b: int): Node
  {
    if x.child0 == a then x.(child0 := b) else x.(child1 := b)
  }

  /** `bsp_remove`. */
  function Remove(t: Pool, leaf: int): (r: (Pool, int))
    requires Linked(t)
    ensures |r.0.nodes| == MAX_NODES
  {
    if !ValidLeaf(t, leaf) then (t, -1)
    else
      var parent := t.nodes[leaf].parent;
      if parent == -1 then (Pool(Release(t.nodes, leaf), -1), 0)
      else
        var sibling := if t.nodes[parent].child0 == leaf then t.nodes[parent].child1 else t.nodes[parent].child0;
        var grand := t.nodes[parent].parent;
        var lifted := t.nodes[sibling := t.nodes[sibling].(parent := grand)];
        var joined := if grand == -1 then lifted else lifted[grand := Repoint(lifted[grand], parent, sibling)];
        (Pool(Release(Release(joined, leaf), parent), if grand == -1 then sibling else t.root), 0)
  }

  function Flipped(x: Node): Node { x.(child0 := x.child1, child1 := x.child0) }

  function Other(d: SplitDir): SplitDir { if d == Vertical then Horizontal else Vertical }

  function Clamp(r: real): (q: real)
    ensures MIN_RATIO <= q <= MAX_RATIO
  {
    if r < MIN_RATIO then MIN_RATIO else if r > MAX_RATIO then MAX_RATIO else r
  }

  function Gap(a: real, b: real): real { if a < b then b - a else a - b }

  /** No allowed ratio is nearer. */
  lemma ClampNearest(r: real, x: real)
    requires MIN_RATIO <= x <= MAX_RATIO
    ensures Gap(Clamp(r), r) <= Gap(x, r)
  {}

  function Flip(t: Pool, i: int): Pool
  {
    if ValidSplit(t, i) then t.(nodes := t.nodes[i := Flipped(t.nodes[i])]) else t
  }

  function Rotate(t: Pool, i: int): Pool
  {
    if ValidSplit(t, i) then t.(nodes := t.nodes[i := Flipped(t.nodes[i].(dir := Other(t.nodes[i].dir)))]) else t
  }

  function Resize(t: Pool, i: int, delta: real): Pool
  {
    if ValidSplit(t, i) then t.(nodes := t.nodes[i := t.nodes[i].(ratio := Clamp(t.nodes[i].ratio + delta))]) else t
  }

  function FindFrom(t: Pool, window: int, from: nat): (r: int)
    requires from <= |t.nodes|
    ensures -1 <= r < |t.nodes| && (r >= 0 ==> r >= from && ValidLeaf(t, r) && t.nodes[r].window == window)
    ensures r < 0 ==> forall i | from <= i < |t.nodes| :: !(ValidLeaf(t, i) && t.nodes[i].window == window)
    decreases |t.nodes| - from
  {
    if from == |t.nodes| then -1
    else if ValidLeaf(t, from) && t.nodes[from].window == window then from
    else FindFrom(t, window, from + 1)
  }

  // ---- the tree a pool stands for ----

  /** The pool indices of a tree. */
  function Ids(s: Shape): set<nat>
  {
    match s
    case Leaf(i, _) => {i}
    case Split(i, _, _, a, b) => {i} + Ids(a) + Ids(b)
  }

  predicate Distinct(s: Shape)
  {
    match s
    case Leaf(_, _) => true
    case Split(i, _, _, a, b) => i !in Ids(a) && i !in Ids(b) && Ids(a) !! Ids(b) && Distinct(a) && Distinct(b)
  }

  function Leaves(s: Shape): (n: nat)
    ensures n > 0
  {
    match s
    case Leaf(_, _) => 1
    case Split(_, _, _, a, b) => Leaves(a) + Leaves(b)
  }

  /** The pool holds tree `s` below `parent`, with links in both directions. */
  predicate Holds(nodes: seq<Node>, s: Shape, parent: int)
  {
    && s.at < |nodes|
    && var x := nodes[s.at];
    && x.inUse && x.parent == parent
    && match s
       case Leaf(_, w) => x.isLeaf && x.window == w
       case Split(i, d, r, a, b) =>
         && !x.isLeaf && x.dir == d && x.ratio == r && MIN_RATIO <= r <= MAX_RATIO
         && x.child0 == a.at && x.child1 == b.at && Holds(nodes, a, i) && Holds(nodes, b, i)
  }

  /** The pool is exactly the tree: nothing else is in use. */
  ghost predicate Is(t: Pool, s: Option<Shape>)
  {
    && |t.nodes| == MAX_NODES
    && match s
       case None => t.root == -1 && forall i | 0 <= i < MAX_NODES :: !t.nodes[i].inUse
       case Some(s) =>
         && t.root == s.at && Holds(t.nodes, s, -1) && Distinct(s)
         && forall i: nat | i < MAX_NODES :: t.nodes[i].inUse <==> i in Ids(s)
  }

  function Erase(s: Shape): Plan
  {
    match s
    case Leaf(_, w) => Tile(w)
    case Split(_, d, r, a, b) => Cut(d, r, Erase(a), Erase(b))
  }

  /** The part of the tree at node `i`. */
  function Sub(s: Shape, i: nat): (r: Shape)
    requires i in Ids(s)
    ensures r.at == i && Ids(r) <= Ids(s)
  {
    if s.at == i then s
    else if i in Ids(s.first) then Sub(s.first, i)
    else Sub(s.second, i)
  }

  /** The tree with the part at node `i` replaced. */
  function Replace(s: Shape, i: nat, sub: Shape): Shape
  {
    if s.at == i then sub
    else match s
      case Leaf(_, _) => s
      case Split(k, d, r, a, b) => Split(k, d, r, Replace(a, i, sub), Replace(b, i, sub))
  }

  /** What insertion does to the tree. */
  function InsertedAt(target: nat, was: int, o: nat, n: nat, dir: SplitDir, newSecond: bool, window: int): Shape
  {
    var a, b := Leaf(o, was), Leaf(n, window);
    if newSecond then Split(target, dir, 0.5, a, b) else Split(target, dir, 0.5, b, a)
  }

  /** What removal does: the sibling takes the place of the common parent. */
  function Pruned(s: Shape, leaf: nat): Option<Shape>
  {
    match s
    case Leaf(i, _) => if i == leaf then None else Some(s)
    case Split(k, d, r, a, b) =>
      match Pruned(a, leaf)
      case None => Some(b)
      case Some(p) =>
        match Pruned(b, leaf)
        case None => Some(a)
        case Some(q) => Some(Split(k, d, r, p, q))
  }
}
