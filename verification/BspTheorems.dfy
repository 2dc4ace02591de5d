/** Every run of the tree calls, insertion undone by removal, and the layout. */
module BspTheorems {
  import opened Common
  import opened Bsp
  import opened BspSteps

  // ---- runs ----

  datatype Op =
    | InsertOp(target: int, dir: SplitDir, newSecond: bool, window: int)
    | InsertAutoOp(target: int, rect: Rect, window: int)
    | RemoveOp(leaf: int)
    | FlipOp(node: int)
    | RotateOp(node: int)
    | ResizeOp(node: int, delta: real)

  function Next(t: Pool, op: Op): Pool
    requires Linked(t)
  {
    match op
    case InsertOp(target, dir, newSecond, w) => Insert(t, target, dir, newSecond, w).0
    case InsertAutoOp(target, rect, w) => Insert(t, target, AutoDir(rect), true, w).0
    case RemoveOp(leaf) => Remove(t, leaf).0
    case FlipOp(i) => Flip(t, i)
    case RotateOp(i) => Rotate(t, i)
    case ResizeOp(i, delta) => Resize(t, i, delta)
  }

  /** The pool holds a proper tree and nothing else. */
  ghost predicate TreeInv(t: Pool) { exists s: Option<Shape> :: Is(t, s) }

  lemma InsertKeeps(t: Pool, target: int, dir: SplitDir, newSecond: bool, window: int)
    requires TreeInv(t)
    ensures TreeInv(Insert(t, target, dir, newSecond, window).0)
  {
    var s: Option<Shape> :| Is(t, s);
    InsertFails(t, s, target, dir, newSecond, window);
    var (g, n) := Insert(t, target, dir, newSecond, window);
    hide Insert, Is;
    if n >= 0 {
      if target == -1 {
        InsertFirst(t, dir, newSecond, window);
      } else {
        assert s.Some? by { LeafMeansTree(t, s, target); }
        FreeSlots(t, s.value);
        InsertSplits(t, s.value, target, dir, newSecond, window);
      }
    }
  }

  lemma LeafMeansTree(t: Pool, s: Option<Shape>, i: int)
    requires Is(t, s) && (ValidLeaf(t, i) || ValidSplit(t, i))
    ensures s.Some?
  {}

  lemma NextKeeps(t: Pool, op: Op)
    requires TreeInv(t)
    ensures Linked(t) && TreeInv(Next(t, op))
  {
    var s: Option<Shape> :| Is(t, s);
    IsLinked(t, s);
    hide Is, Insert, Remove;
    match op
    case InsertOp(target, dir, newSecond, w) => InsertKeeps(t, target, dir, newSecond, w);
    case InsertAutoOp(target, rect, w) => InsertKeeps(t, target, AutoDir(rect), true, w);
    case RemoveOp(leaf) =>
      if ValidLeaf(t, leaf) {
        LeafMeansTree(t, s, leaf);
        RemovePrunes(t, s.value, leaf);
      } else {
        assert Remove(t, leaf).0 == t by { NoRemove(t, leaf); }
      }
    case FlipOp(i) =>
      if ValidSplit(t, i) {
        LeafMeansTree(t, s, i);
        FlipIs(t, s.value, i);
      }
    case RotateOp(i) =>
      if ValidSplit(t, i) {
        LeafMeansTree(t, s, i);
        RotateIs(t, s.value, i);
      }
    case ResizeOp(i, delta) =>
      if ValidSplit(t, i) {
        LeafMeansTree(t, s, i);
        ResizeIs(t, s.value, i, delta);
      }
  }

  lemma NoRemove(t: Pool, leaf: int)
    requires Linked(t) && !ValidLeaf(t, leaf)
    ensures Remove(t, leaf) == (t, -1)
  {}

  ghost predicate Runs(t: Pool, ops: seq<Op>, g: Pool)
    decreases |ops|
  {
    if ops == [] then g == t else Linked(t) && Runs(Next(t, ops[0]), ops[1..], g)
  }

  lemma {:induction false} RunKeeps(t: Pool, ops: seq<Op>, g: Pool)
    requires TreeInv(t) && Runs(t, ops, g)
    ensures TreeInv(g)
    decreases |ops|
  {
    if ops != [] {
      hide TreeInv, Linked, Next;
      NextKeeps(t, ops[0]);
      RunKeeps(Next(t, ops[0]), ops[1..], g);
    }
  }

  /** Any sequence of calls, whatever their arguments, leaves a proper tree in the pool: links agree
      in both directions, and k windows take exactly 2k - 1 of the 64 nodes. */
  lemma AnyRun(ops: seq<Op>, g: Pool)
    requires Runs(Init(), ops, g)
    ensures exists s: Option<Shape> ::
      && Is(g, s)
      && (s.Some? ==> |Ids(s.value)| == 2 * Leaves(s.value) - 1 && Leaves(s.value) <= 32)
  {
    assert Is(Init(), None);
    RunKeeps(Init(), ops, g);
    var s: Option<Shape> :| Is(g, s);
    if s.Some? {
      IdsSize(s.value);
      FreeSlots(g, s.value);
    }
  }

  // ---- removal undoes insertion ----

  lemma {:induction false} PrunedInserted(s: Shape, target: nat, sub: Shape, n: nat, rest: Shape)
    requires Distinct(s) && target in Ids(s) && n !in Ids(s) && Pruned(sub, n) == Some(rest)
    ensures Pruned(Replace(s, target, sub), n) == Some(Replace(s, target, rest))
  {
    if s.at != target {
      if target in Ids(s.first) {
        PrunedInserted(s.first, target, sub, n, rest);
        ReplaceElsewhere(s.second, target, sub);
        ReplaceElsewhere(s.second, target, rest);
        PrunedElsewhere(s.second, n);
      } else {
        PrunedInserted(s.second, target, sub, n, rest);
        ReplaceElsewhere(s.first, target, sub);
        ReplaceElsewhere(s.first, target, rest);
        PrunedElsewhere(s.first, n);
      }
    }
  }

  lemma {:induction false} EraseReplace(s: Shape, i: nat, sub: Shape)
    requires Distinct(s) && i in Ids(s) && Erase(sub) == Erase(Sub(s, i))
    ensures Erase(Replace(s, i, sub)) == Erase(s)
  {
    if s.at != i {
      if i in Ids(s.first) {
        EraseReplace(s.first, i, sub);
        ReplaceElsewhere(s.second, i, sub);
      } else {
        EraseReplace(s.second, i, sub);
        ReplaceElsewhere(s.first, i, sub);
      }
    }
  }

  /** Removing the leaf just inserted gives back the tree there was, up to pool indices. */
  lemma RemoveUndoesInsert(t: Pool, s: Shape, target: nat, dir: SplitDir, newSecond: bool, window: int)
    requires Is(t, Some(s)) && ValidLeaf(t, target) && Leaves(s) < 32
    ensures var (g, n) := Insert(t, target, dir, newSecond, window);
      && Linked(g) && Remove(g, n).1 == 0
      && exists u: Shape :: Is(Remove(g, n).0, Some(u)) && Erase(u) == Erase(s)
  {
    InsertSplits(t, s, target, dir, newSecond, window);
    SubHolds(t.nodes, s, -1, target);
    var (g, n) := Insert(t, target, dir, newSecond, window);
    var was := t.nodes[target].window;
    var o: nat :|
      && o !in Ids(s) && o != n
      && Is(g, Some(Replace(s, target, InsertedAt(target, was, o, n, dir, newSecond, window))));
    var sub := InsertedAt(target, was, o, n, dir, newSecond, window);
    var rest := Leaf(o, was);
    assert Sub(s, target) == Leaf(target, was) && Distinct(s);
    hide Insert, Remove, Holds, Distinct;
    assert Pruned(sub, n) == Some(rest);
    PrunedInserted(s, target, sub, n, rest);
    EraseReplace(s, target, rest);
    InsertedLeaf(g, Replace(s, target, sub), s, target, sub, n, window);
    IsLinked(g, Some(Replace(s, target, sub)));
    RemovePrunes(g, Replace(s, target, sub), n);
  }

  lemma InsertedLeaf(g: Pool, u: Shape, s: Shape, target: nat, sub: Shape, n: nat, window: int)
    requires Is(g, Some(u)) && Distinct(s) && target in Ids(s) && u == Replace(s, target, sub)
    requires sub.Split? && (sub.first == Leaf(n, window) || sub.second == Leaf(n, window))
    ensures ValidLeaf(g, n)
  {
    var half := if sub.first == Leaf(n, window) then sub.first else sub.second;
    assert n in Ids(half) && n in Ids(sub);
    PartsOf(g.nodes, s, target, sub, -1);
  }

  /** What replaced a part is held by the pool that holds the result. */
  lemma {:induction false} PartsOf(nodes: seq<Node>, s: Shape, i: nat, sub: Shape, parent: int)
    requires Distinct(s) && i in Ids(s) && Holds(nodes, Replace(s, i, sub), parent)
    ensures exists p: int :: Holds(nodes, sub, p)
  {
    if s.at != i {
      if i in Ids(s.first) {
        PartsOf(nodes, s.first, i, sub, s.at);
      } else {
        PartsOf(nodes, s.second, i, sub, s.at);
      }
    }
  }

  // ---- layout ----

  /** How much of a length the first child gets. */
  function SplitAt(len: nat, ratio: real): (n: nat)
    requires MIN_RATIO <= ratio <= MAX_RATIO
    ensures n <= len
  {
    var n := (len as real * ratio + 0.5).Floor;
    assert len as real * ratio <= len as real * 1.0;
    assert len as real * ratio >= 0.0;
    n
  }

  predicate Balanced(p: Plan)
  {
    p.Cut? ==> MIN_RATIO <= p.ratio <= MAX_RATIO && Balanced(p.first) && Balanced(p.second)
  }

  predicate Sized(r: Rect) { r.w >= 0 && r.h >= 0 }

  function FirstPart(r: Rect, dir: SplitDir, ratio: real): (q: Rect)
    requires Sized(r) && MIN_RATIO <= ratio <= MAX_RATIO
    ensures Sized(q)
  {
    if dir == Vertical then r.(w := SplitAt(r.w, ratio)) else r.(h := SplitAt(r.h, ratio))
  }

  function SecondPart(r: Rect, dir: SplitDir, ratio: real): (q: Rect)
    requires Sized(r) && MIN_RATIO <= ratio <= MAX_RATIO
    ensures Sized(q)
  {
    if dir == Vertical then r.(x := r.x + SplitAt(r.w, ratio), w := r.w - SplitAt(r.w, ratio))
    else r.(y := r.y + SplitAt(r.h, ratio), h := r.h - SplitAt(r.h, ratio))
  }

  function Share(len: real, q: real): real { len * q }

  /** Part `q` of a side: `n` of `len` pixels, to the nearest, and halves up. */
  predicate Nearest(n: int, len: int, q: real) { n as real - 0.5 <= Share(len as real, q) < n as real + 0.5 }

  /** A cut across the given direction: the first part takes its share of that side to the nearest pixel,
      the second starts where the first ends and takes the rest, and the other side is not cut. */
  lemma PartsAre(r: Rect, dir: SplitDir, ratio: real)
    requires Sized(r) && MIN_RATIO <= ratio <= MAX_RATIO
    ensures
      var a, b := FirstPart(r, dir, ratio), SecondPart(r, dir, ratio);
      if dir == Vertical then
        && Nearest(a.w, r.w, ratio) && a.w + b.w == r.w && (a.x, b.x) == (r.x, r.x + a.w)
        && (a.y, a.h) == (b.y, b.h) == (r.y, r.h)
      else
        && Nearest(a.h, r.h, ratio) && a.h + b.h == r.h && (a.y, b.y) == (r.y, r.y + a.h)
        && (a.x, a.w) == (b.x, b.w) == (r.x, r.w)
  {}

  /** How many tiles a plan has. */
  function Count(p: Plan): (n: nat)
    ensures n > 0
  {
    match p
    case Tile(_) => 1
    case Cut(_, _, a, b) => Count(a) + Count(b)
  }

  /** A side long enough that `k` tiles all show, whatever their ratios. */
  function Enough(k: nat): (n: nat)
    ensures n > 0
  {
    if k <= 1 then 1 else 10 * Enough(k - 1) + 5
  }

  lemma {:induction false} EnoughGrows(j: nat, k: nat)
    requires j <= k
    ensures Enough(j) <= Enough(k)
  {
    if j < k { EnoughGrows(j, k - 1); }
  }

  /** Of `10 m + 5` pixels each part of any allowed ratio gets `m`. */
  lemma ShareOf(n: int, len: int, q: real, m: nat)
    requires Nearest(n, len, q) && MIN_RATIO <= q <= MAX_RATIO && len >= 10 * m + 5
    ensures m <= n && m <= len - n
  {
    hide Share;
    Tenths(len as real, q);
  }

  lemma Tenths(l: real, q: real)
    requires l >= 0.0 && MIN_RATIO <= q <= MAX_RATIO
    ensures l <= 10.0 * Share(l, q) <= 9.0 * l
  {
    Positive(l, q - 0.1);
    Positive(l, 0.9 - q);
    assert l * (q - 0.1) == l * q - l / 10.0;
    assert l * (0.9 - q) == l * 9.0 / 10.0 - l * q;
  }

  lemma Positive(a: real, b: real)
    requires a >= 0.0 && b >= 0.0
    ensures a * b >= 0.0
  {}

  predicate AllShow(tiles: seq<(int, Rect)>) { forall k | 0 <= k < |tiles| :: tiles[k].1.w > 0 && tiles[k].1.h > 0 }

  /** On a large enough rectangle every tile of a layout has a pixel. */
  lemma {:induction false} TilesShow(p: Plan, r: Rect)
    requires Balanced(p) && r.w >= Enough(Count(p)) && r.h >= Enough(Count(p))
    ensures AllShow(Tiles(p, r))
  {
    match p
    case Tile(_) =>
    case Cut(d, q, a, b) =>
      var k := Count(p) - 1;
      EnoughGrows(Count(a), k);
      EnoughGrows(Count(b), k);
      EnoughGrows(k, k + 1);
      PartsAre(r, d, q);
      var r0, r1 := FirstPart(r, d, q), SecondPart(r, d, q);
      if d == Vertical { ShareOf(r0.w, r.w, q, Enough(k)); } else { ShareOf(r0.h, r.h, q, Enough(k)); }
      TilesShow(a, r0);
      TilesShow(b, r1);
  }

  /** `bsp_layout`: the window and rectangle of every leaf, in visiting order. */
  function Tiles(p: Plan, r: Rect): seq<(int, Rect)>
    requires Balanced(p) && Sized(r)
  {
    match p
    case Tile(w) => [(w, r)]
    case Cut(d, q, a, b) => Tiles(a, FirstPart(r, d, q)) + Tiles(b, SecondPart(r, d, q))
  }

  predicate Inside(r: Rect, x: int, y: int) { r.x <= x < r.x + r.w && r.y <= y < r.y + r.h }

  /** How many of the tiles contain a pixel. */
  function Covering(tiles: seq<(int, Rect)>, x: int, y: int): nat
  {
    if tiles == [] then 0 else (if Inside(tiles[0].1, x, y) then 1 else 0) + Covering(tiles[1..], x, y)
  }

  lemma {:induction false} CoveringConcat(a: seq<(int, Rect)>, b: seq<(int, Rect)>, x: int, y: int)
    ensures Covering(a + b, x, y) == Covering(a, x, y) + Covering(b, x, y)
  {
    if a == [] {
      assert a + b == b;
    } else {
      CoveringConcat(a[1..], b, x, y);
      assert (a + b)[1..] == a[1..] + b;
    }
  }

  /** The tiles partition the rectangle: every pixel of it lies in exactly one, and no tile
      reaches outside. */
  lemma {:induction false} TilesPartition(p: Plan, r: Rect, x: int, y: int)
    requires Balanced(p) && Sized(r)
    ensures Covering(Tiles(p, r), x, y) == if Inside(r, x, y) then 1 else 0
  {
    match p
    case Tile(w) =>
      assert Tiles(p, r)[1..] == [];
    case Cut(d, q, a, b) =>
      TilesPartition(a, FirstPart(r, d, q), x, y);
      TilesPartition(b, SecondPart(r, d, q), x, y);
      CoveringConcat(Tiles(a, FirstPart(r, d, q)), Tiles(b, SecondPart(r, d, q)), x, y);
  }

  /** The splits of a pool's tree have ratios between 0.1 and 0.9. */
  lemma {:induction false} HeldBalanced(nodes: seq<Node>, s: Shape, parent: int)
    requires Holds(nodes, s, parent)
    ensures Balanced(Erase(s))
  {
    if s.Split? {
      HeldBalanced(nodes, s.first, s.at);
      HeldBalanced(nodes, s.second, s.at);
    }
  }
}
