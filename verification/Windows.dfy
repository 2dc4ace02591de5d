/** The window layer (kernel/ui/window.c) over the tiling tree. */
module Windows {
  import opened Common
  import opened Bsp
  import opened BspSteps
  import opened BspTheorems

  const MAX_WINDOWS := 8

  datatype Window = Window(inUse: bool, id: int, task: int, rect: Rect)

  datatype Desk = Desk(windows: seq<Window>, tree: Pool, focus: int)

  /** The tree the pool stands for. */
  ghost function ShapeOf(t: Pool): (s: Option<Shape>)
    requires TreeInv(t)
    ensures Is(t, s)
  {
    var s: Option<Shape> :| Is(t, s);
    s
  }

  ghost function PlanOf(t: Pool): Option<Plan>
    requires TreeInv(t)
  {
    match ShapeOf(t)
    case None => None
    case Some(s) => Some(Erase(s))
  }

  lemma PlanIs(t: Pool, s: Option<Shape>)
    requires Is(t, s)
    ensures TreeInv(t)
    ensures PlanOf(t) == (match s case None => None case Some(u) => Some(Erase(u)))
    ensures s.Some? ==> Balanced(Erase(s.value))
  {
    ShapeUnique(t, s, ShapeOf(t));
    if s.Some? {
      HeldBalanced(t.nodes, s.value, -1);
    }
  }

  lemma PlanBalanced(t: Pool)
    requires TreeInv(t)
    ensures PlanOf(t).Some? ==> Balanced(PlanOf(t).value)
  {
    PlanIs(t, ShapeOf(t));
  }

  /** The rectangles `bsp_layout` hands out. */
  ghost function TilesOf(t: Pool, screen: Rect): seq<(int, Rect)>
    requires TreeInv(t) && Sized(screen)
  {
    PlanBalanced(t);
    match PlanOf(t)
    case None => []
    case Some(p) => Tiles(p, screen)
  }

  /** `relayout_visit` over the tiles in turn. */
  function Place(windows: seq<Window>, tiles: seq<(int, Rect)>): (r: seq<Window>)
    ensures |r| == |windows|
    decreases |tiles|
  {
    if tiles == [] then windows
    else Place(PlaceOne(windows, tiles[0].0, tiles[0].1), tiles[1..])
  }

  function PlaceOne(windows: seq<Window>, w: int, rect: Rect): (r: seq<Window>)
    ensures |r| == |windows|
  {
    if 0 <= w < |windows| && windows[w].inUse then windows[w := windows[w].(rect := rect)] else windows
  }

  function Init(): Desk
  {
    Desk(seq(MAX_WINDOWS, _ => Window(false, 0, 0, Rect(0, 0, 0, 0))), Bsp.Init(), -1)
  }

  predicate Shaped(d: Desk) { |d.windows| == MAX_WINDOWS && |d.tree.nodes| == MAX_NODES && -1 <= d.focus < MAX_WINDOWS }

  function FreeFrom(windows: seq<Window>, from: nat): (r: Option<nat>)
    requires from <= |windows|
    ensures r.Some? ==> from <= r.value < |windows| && !windows[r.value].inUse
    ensures forall i | from <= i < (if r.Some? then r.value else |windows|) :: windows[i].inUse
    decreases |windows| - from
  {
    if from == |windows| then None
    else if !windows[from].inUse then Some(from)
    else FreeFrom(windows, from + 1)
  }

  function UsedFrom(windows: seq<Window>, from: nat): (r: Option<nat>)
    requires from <= |windows|
    ensures r.Some? ==> from <= r.value < |windows| && windows[r.value].inUse
    ensures forall i | from <= i < (if r.Some? then r.value else |windows|) :: !windows[i].inUse
    decreases |windows| - from
  {
    if from == |windows| then None
    else if windows[from].inUse then Some(from)
    else UsedFrom(windows, from + 1)
  }

  predicate Focused(d: Desk)
    requires Shaped(d)
  {
    d.focus != -1 && d.windows[d.focus].inUse
  }

  /** The tree part of `wm_open_window`: split the focused window's leaf for window `slot`. */
  function InsertWindow(d: Desk, screen: Rect, slot: nat): (r: (Pool, int))
    requires Shaped(d)
    ensures |r.0.nodes| == MAX_NODES
  {
    if Focused(d) then Insert(d.tree, Bsp.FindFrom(d.tree, d.focus, 0), AutoDir(d.windows[d.focus].rect), true, slot)
    else Insert(d.tree, -1, AutoDir(screen), true, slot)
  }

  lemma InsertWindowKeeps(d: Desk, screen: Rect, slot: nat)
    requires Shaped(d) && TreeInv(d.tree)
    ensures TreeInv(InsertWindow(d, screen, slot).0) && Linked(InsertWindow(d, screen, slot).0)
  {
    var op :=
      if Focused(d) then InsertAutoOp(Bsp.FindFrom(d.tree, d.focus, 0), d.windows[d.focus].rect, slot)
      else InsertAutoOp(-1, screen, slot);
    NextKeeps(d.tree, op);
    IsLinked(Next(d.tree, op), ShapeOf(Next(d.tree, op)));
  }

  /** `wm_open_window`. `task` is what task creation answered, `None` if the window has no task. */
  ghost function Open(d: Desk, screen: Rect, task: Option<int>): (r: (Desk, int))
    requires Shaped(d) && Sized(screen) && TreeInv(d.tree)
  {
    match FreeFrom(d.windows, 0)
    case None => (d, -1 as int)
    case Some(slot) =>
      var (tree, leaf) := InsertWindow(d, screen, slot);
      InsertWindowKeeps(d, screen, slot);
      if leaf < 0 then (d.(tree := tree), -1)
      else
        var x := d.windows[slot].(inUse := true, id := slot, task := -1);
        if task.Some? && task.value < 0 then
          (d.(tree := Remove(tree, leaf).0, windows := d.windows[slot := x.(inUse := false)]), -1)
        else
          var y := if task.Some? then x.(task := task.value) else x;
          (Desk(Place(d.windows[slot := y], TilesOf(tree, screen)), tree, slot), slot)
  }

  /** The tree part of `wm_close_window`. */
  function RemoveWindow(d: Desk, id: int): (r: Pool)
    requires Shaped(d) && Linked(d.tree)
    ensures |r.nodes| == MAX_NODES
  {
    var leaf := Bsp.FindFrom(d.tree, id, 0);
    if leaf != -1 then Remove(d.tree, leaf).0 else d.tree
  }

  lemma RemoveWindowKeeps(d: Desk, id: int)
    requires Shaped(d) && TreeInv(d.tree)
    ensures Linked(d.tree) && TreeInv(RemoveWindow(d, id))
  {
    NextKeeps(d.tree, RemoveOp(Bsp.FindFrom(d.tree, id, 0)));
  }

  /** `wm_close_window`. */
  ghost function Close(d: Desk, screen: Rect, id: int): (r: (Desk, int))
    requires Shaped(d) && Sized(screen) && TreeInv(d.tree)
  {
    RemoveWindowKeeps(d, id);
    if id < 0 || id >= MAX_WINDOWS || !d.windows[id].inUse then (d, -1 as int)
    else
      var tree := RemoveWindow(d, id);
      var windows := d.windows[id := d.windows[id].(inUse := false)];
      var focus :=
        if d.focus != id then d.focus
        else match UsedFrom(windows, 0) case None => -1 case Some(i) => windows[i].id;
      (Desk(Place(windows, TilesOf(tree, screen)), tree, focus), 0)
  }

  // ---- the invariant ----

  function Names(p: Plan): set<int>
  {
    match p
    case Tile(w) => {w}
    case Cut(_, _, a, b) => Names(a) + Names(b)
  }

  predicate DistinctNames(p: Plan)
  {
    match p
    case Tile(_) => true
    case Cut(_, _, a, b) => Names(a) !! Names(b) && DistinctNames(a) && DistinctNames(b)
  }

  function NamesIn(p: Option<Plan>): set<int> { if p.Some? then Names(p.value) else {} }

  /** The leaves of the tree are exactly the open windows, each once. */
  ghost predicate LeavesOpen(windows: seq<Window>, p: Option<Plan>)
  {
    && (p.Some? ==> DistinctNames(p.value))
    && forall i: int :: i in NamesIn(p) <==> 0 <= i < |windows| && windows[i].inUse
  }

  predicate FocusInv(d: Desk)
    requires Shaped(d)
  {
    && (forall i | 0 <= i < MAX_WINDOWS && d.windows[i].inUse :: d.windows[i].id == i)
    && (if d.focus == -1 then forall i | 0 <= i < MAX_WINDOWS :: !d.windows[i].inUse else d.windows[d.focus].inUse)
  }

  /** Every open window has the rectangle the layout gives it. */
  predicate Placed(windows: seq<Window>, tiles: seq<(int, Rect)>)
  {
    forall k | 0 <= k < |tiles| :: 0 <= tiles[k].0 < |windows| && windows[tiles[k].0].rect == tiles[k].1
  }

  ghost predicate DeskInv(d: Desk, screen: Rect)
  {
    && Shaped(d) && Sized(screen) && TreeInv(d.tree)
    && LeavesOpen(d.windows, PlanOf(d.tree)) && FocusInv(d) && Placed(d.windows, TilesOf(d.tree, screen))
  }

  // ---- placing ----

  /** The windows a layout names, in order. */
  predicate NamesDistinct(tiles: seq<(int, Rect)>)
  {
    forall i, j | 0 <= i < j < |tiles| :: tiles[i].0 != tiles[j].0
  }

  lemma {:induction false} TilesNames(p: Plan, r: Rect)
    requires Balanced(p) && Sized(r)
    ensures forall k | 0 <= k < |Tiles(p, r)| :: Tiles(p, r)[k].0 in Names(p)
    ensures forall w | w in Names(p) :: exists k :: 0 <= k < |Tiles(p, r)| && Tiles(p, r)[k].0 == w
    ensures DistinctNames(p) ==> NamesDistinct(Tiles(p, r))
  {
    match p
    case Tile(w) =>
      assert Tiles(p, r)[0].0 == w;
    case Cut(d, q, a, b) =>
      var r0, r1 := FirstPart(r, d, q), SecondPart(r, d, q);
      TilesNames(a, r0);
      TilesNames(b, r1);
      var ta, tb := Tiles(a, r0), Tiles(b, r1);
      var ts: seq<(int, Rect)> := ta + tb;
      assert Tiles(p, r) == ts;
      forall w | w in Names(p) ensures exists k :: 0 <= k < |ts| && ts[k].0 == w {
        if w in Names(a) {
          var k :| 0 <= k < |ta| && ta[k].0 == w;
          assert ts[k].0 == w;
        } else {
          assert w in Names(b);
          var k :| 0 <= k < |tb| && tb[k].0 == w;
          assert ts[|ta| + k].0 == w;
        }
      }
      forall k | 0 <= k < |ts| ensures ts[k].0 in Names(p) {
        assert if k < |ta| then ts[k] == ta[k] else ts[k] == tb[k - |ta|];
      }
      if DistinctNames(p) { JoinedNames(ta, tb, Names(a), Names(b)); }
  }

  lemma JoinedNames(a: seq<(int, Rect)>, b: seq<(int, Rect)>, na: set<int>, nb: set<int>)
    requires NamesDistinct(a) && NamesDistinct(b) && na !! nb
    requires (forall k | 0 <= k < |a| :: a[k].0 in na) && (forall k | 0 <= k < |b| :: b[k].0 in nb)
    ensures NamesDistinct(a + b)
  {
    var ts: seq<(int, Rect)> := a + b;
    forall i, j | 0 <= i < j < |ts| ensures ts[i].0 != ts[j].0 {
      assert ts[i] == if i < |a| then a[i] else b[i - |a|];
      assert ts[j] == if j < |a| then a[j] else b[j - |a|];
    }
  }

  /** Placing changes rectangles only, and gives each named window its own. */
  lemma {:induction false} PlaceSets(windows: seq<Window>, tiles: seq<(int, Rect)>)
    requires NamesDistinct(tiles)
    requires forall k | 0 <= k < |tiles| :: 0 <= tiles[k].0 < |windows| && windows[tiles[k].0].inUse
    ensures Placed(Place(windows, tiles), tiles)
    ensures forall i | 0 <= i < |windows| ::
              Place(windows, tiles)[i] == windows[i].(rect := Place(windows, tiles)[i].rect)
    ensures forall i | 0 <= i < |windows| && (forall k | 0 <= k < |tiles| :: tiles[k].0 != i) ::
              Place(windows, tiles)[i] == windows[i]
    decreases |tiles|
  {
    if tiles != [] {
      var one := PlaceOne(windows, tiles[0].0, tiles[0].1);
      assert forall k | 0 <= k < |tiles[1..]| :: tiles[1..][k] == tiles[k + 1];
      PlaceSets(one, tiles[1..]);
      var r := Place(windows, tiles);
      assert r == Place(one, tiles[1..]);
      assert r[tiles[0].0] == one[tiles[0].0];
      forall k | 0 <= k < |tiles| ensures r[tiles[k].0].rect == tiles[k].1 {
        if k > 0 {
          assert tiles[1..][k - 1] == tiles[k];
        }
      }
    }
  }

  /** Laying out afresh establishes the rectangles and keeps everything else. */
  lemma Relayout(d: Desk, screen: Rect)
    requires Shaped(d) && Sized(screen) && TreeInv(d.tree) && LeavesOpen(d.windows, PlanOf(d.tree)) && FocusInv(d)
    ensures
      var windows := Place(d.windows, TilesOf(d.tree, screen));
      && DeskInv(d.(windows := windows), screen)
      && (forall i | 0 <= i < MAX_WINDOWS :: windows[i].(rect := d.windows[i].rect) == d.windows[i])
      && (forall i | 0 <= i < MAX_WINDOWS && !d.windows[i].inUse :: windows[i] == d.windows[i])
  {
    hide PlanOf, TilesOf, Tiles, TreeInv, Place;
    var tiles := TilesOf(d.tree, screen);
    TilesAre(d.tree, screen);
    PlaceSets(d.windows, tiles);
    var e := d.(windows := Place(d.windows, tiles));
    assert forall i | 0 <= i < MAX_WINDOWS ::
        e.windows[i].inUse == d.windows[i].inUse && e.windows[i].id == d.windows[i].id;
  }

  /** The layout names windows of the tree, each once. */
  lemma TilesAre(t: Pool, screen: Rect)
    requires TreeInv(t) && Sized(screen)
    ensures
      var tiles, p := TilesOf(t, screen), PlanOf(t);
      && (forall k | 0 <= k < |tiles| :: tiles[k].0 in NamesIn(p))
      && (p.Some? && DistinctNames(p.value) ==> NamesDistinct(tiles)) && (p.None? ==> tiles == [])
  {
    PlanBalanced(t);
    if PlanOf(t).Some? { TilesNames(PlanOf(t).value, screen); }
  }
}
