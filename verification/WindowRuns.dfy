/** Opening and closing windows, over every run. */
module WindowRuns {
  import opened Common
  import opened Bsp
  import opened BspSteps
  import opened BspTheorems
  import opened Windows

  // ---- names in the tree ----

  lemma {:induction false} NamesWithin(s: Shape, i: nat)
    requires i in Ids(s)
    ensures Names(Erase(Sub(s, i))) <= Names(Erase(s))
  {
    if s.at != i {
      if i in Ids(s.first) {
        NamesWithin(s.first, i);
      } else {
        NamesWithin(s.second, i);
      }
    }
  }

  lemma {:induction false} NamesReplace(s: Shape, i: nat, sub: Shape)
    requires Distinct(s) && DistinctNames(Erase(s)) && i in Ids(s) && DistinctNames(Erase(sub))
    requires Names(Erase(sub)) !! (Names(Erase(s)) - Names(Erase(Sub(s, i))))
    ensures DistinctNames(Erase(Replace(s, i, sub)))
    ensures Names(Erase(Replace(s, i, sub))) == (Names(Erase(s)) - Names(Erase(Sub(s, i)))) + Names(Erase(sub))
  {
    if s.at != i {
      var left := i in Ids(s.first);
      var near := if left then s.first else s.second;
      var far := if left then s.second else s.first;
      assert Sub(s, i) == Sub(near, i);
      NamesWithin(near, i);
      assert Names(Erase(far)) !! Names(Erase(Sub(near, i)));
      ReplaceElsewhere(far, i, sub);
      NamesReplace(near, i, sub);
      assert Names(Erase(Replace(s, i, sub))) == Names(Erase(far)) + Names(Erase(Replace(near, i, sub)));
      assert Names(Erase(s)) == Names(Erase(far)) + Names(Erase(near));
    }
  }

  function EraseSome(s: Option<Shape>): Option<Plan> { if s.Some? then Some(Erase(s.value)) else None }

  /** Pruning a leaf removes its window's name and no other. */
  lemma {:induction false} NamesPruned(s: Shape, leaf: nat, w: int)
    requires Distinct(s) && DistinctNames(Erase(s)) && leaf in Ids(s) && Sub(s, leaf) == Leaf(leaf, w)
    ensures NamesIn(EraseSome(Pruned(s, leaf))) == Names(Erase(s)) - {w}
    ensures Pruned(s, leaf).Some? ==> DistinctNames(Erase(Pruned(s, leaf).value))
    ensures w in Names(Erase(s))
    ensures Pruned(s, leaf).None? ==> s == Leaf(leaf, w)
  {
    if s.Split? {
      var left := leaf in Ids(s.first);
      var near := if left then s.first else s.second;
      var far := if left then s.second else s.first;
      assert Sub(s, leaf) == Sub(near, leaf);
      NamesPruned(near, leaf, w);
      PrunedElsewhere(far, leaf);
      assert Names(Erase(s)) == Names(Erase(far)) + Names(Erase(near));
      assert w !in Names(Erase(far));
    }
  }

  /** Every name is the window of some leaf in the pool. */
  lemma {:induction false} NamedLeaf(nodes: seq<Node>, s: Shape, parent: int, w: int) returns (i: nat)
    requires Holds(nodes, s, parent) && w in Names(Erase(s))
    ensures i in Ids(s) && i < |nodes| && nodes[i].inUse && nodes[i].isLeaf && nodes[i].window == w
  {
    if s.Leaf? {
      i := s.at;
    } else if w in Names(Erase(s.first)) {
      i := NamedLeaf(nodes, s.first, s.at, w);
    } else {
      i := NamedLeaf(nodes, s.second, s.at, w);
    }
  }

  /** `bsp_find` finds the leaf of every window in the tree. */
  lemma FindsLeaf(t: Pool, s: Shape, w: int)
    requires Is(t, Some(s)) && w in Names(Erase(s))
    ensures
      var leaf := Bsp.FindFrom(t, w, 0);
      leaf >= 0 && leaf in Ids(s) && Sub(s, leaf) == Leaf(leaf, w) && ValidLeaf(t, leaf)
  {
    var i := NamedLeaf(t.nodes, s, -1, w);
    assert ValidLeaf(t, i);
    var leaf := Bsp.FindFrom(t, w, 0);
    SubHolds(t.nodes, s, -1, leaf);
  }

  lemma {:induction false} LeavesAreNames(p: Shape)
    requires DistinctNames(Erase(p))
    ensures |Names(Erase(p))| == Leaves(p)
  {
    if p.Split? {
      LeavesAreNames(p.first);
      LeavesAreNames(p.second);
    }
  }

  lemma EightNames(s: Shape)
    requires DistinctNames(Erase(s)) && forall w | w in Names(Erase(s)) :: 0 <= w < MAX_WINDOWS
    ensures Leaves(s) <= 8
  {
    LeavesAreNames(s);
    BoundedSize(Names(Erase(s)), MAX_WINDOWS);
  }

  lemma BoundedSize(names: set<int>, n: nat)
    requires forall w | w in names :: 0 <= w < n
    ensures |names| <= n
  {
    var f: nat -> int := i => i;
    forall b | b in names ensures exists a | a in Below(n) :: f(a) == b {
      assert b in Below(n) && f(b) == b;
    }
    ImageSize(Below(n), f, names);
  }

  // ---- the tree part of opening ----

  /** The plan with window `w` halved along `dir`, the second half for window `v`. */
  function Halved(p: Plan, w: int, dir: SplitDir, v: int): Plan
  {
    match p
    case Tile(u) => if u == w then Cut(dir, 0.5, Tile(w), Tile(v)) else p
    case Cut(d, q, a, b) => Cut(d, q, Halved(a, w, dir, v), Halved(b, w, dir, v))
  }

  /** The plan without window `w`: what it was cut from goes to its other part. */
  function Without(p: Plan, w: int): Option<Plan>
  {
    match p
    case Tile(u) => if u == w then None else Some(p)
    case Cut(d, q, a, b) =>
      match (Without(a, w), Without(b, w))
      case (None, _) => Some(b)
      case (_, None) => Some(a)
      case (Some(x), Some(y)) => Some(Cut(d, q, x, y))
  }

  lemma {:induction false} HalvedElsewhere(p: Plan, w: int, dir: SplitDir, v: int)
    requires w !in Names(p)
    ensures Halved(p, w, dir, v) == p
  {
    if p.Cut? {
      HalvedElsewhere(p.first, w, dir, v);
      HalvedElsewhere(p.second, w, dir, v);
    }
  }

  lemma {:induction false} WithoutElsewhere(p: Plan, w: int)
    requires w !in Names(p)
    ensures Without(p, w) == Some(p)
  {
    if p.Cut? {
      WithoutElsewhere(p.first, w);
      WithoutElsewhere(p.second, w);
    }
  }

  /** Splitting the leaf of a window halves the window. */
  lemma {:induction false} EraseHalved(s: Shape, target: nat, w: int, sub: Shape, dir: SplitDir, v: int)
    requires Distinct(s) && DistinctNames(Erase(s)) && target in Ids(s) && Sub(s, target) == Leaf(target, w)
    requires Erase(sub) == Cut(dir, 0.5, Tile(w), Tile(v))
    ensures Erase(Replace(s, target, sub)) == Halved(Erase(s), w, dir, v)
  {
    if s.Split? {
      var left := target in Ids(s.first);
      var near := if left then s.first else s.second;
      var far := if left then s.second else s.first;
      assert Sub(s, target) == Sub(near, target);
      NamesWithin(near, target);
      assert w in Names(Erase(near)) && w !in Names(Erase(far));
      EraseHalved(near, target, w, sub, dir, v);
      ReplaceElsewhere(far, target, sub);
      HalvedElsewhere(Erase(far), w, dir, v);
    }
  }

  /** Pruning the leaf of a window takes the window out. */
  lemma {:induction false} ErasePruned(s: Shape, leaf: nat, w: int)
    requires Distinct(s) && DistinctNames(Erase(s)) && leaf in Ids(s) && Sub(s, leaf) == Leaf(leaf, w)
    ensures EraseSome(Pruned(s, leaf)) == Without(Erase(s), w)
  {
    if s.Split? {
      var left := leaf in Ids(s.first);
      var near := if left then s.first else s.second;
      var far := if left then s.second else s.first;
      assert Sub(s, leaf) == Sub(near, leaf);
      NamesWithin(near, leaf);
      assert w in Names(Erase(near)) && w !in Names(Erase(far));
      ErasePruned(near, leaf, w);
      PrunedElsewhere(far, leaf);
      WithoutElsewhere(Erase(far), w);
    }
  }

  /** The new leaf is in the tree, and taking it out again gives back the plan. */
  ghost predicate Inserted(d: Desk, screen: Rect, slot: nat, tree: Pool, leaf: int)
    requires Shaped(d) && TreeInv(d.tree)
  {
    && leaf >= 0 && TreeInv(tree) && Linked(tree) && PlanOf(tree).Some? && DistinctNames(PlanOf(tree).value)
    && Names(PlanOf(tree).value) == NamesIn(PlanOf(d.tree)) + {slot}
    && TreeInv(Remove(tree, leaf).0) && PlanOf(Remove(tree, leaf).0) == PlanOf(d.tree)
    && PlanOf(tree).value == Grown(d, slot)
  }

  /** The plan once window `slot` is open: the focused window is cut across its longer side. */
  ghost function Grown(d: Desk, slot: nat): Plan
    requires Shaped(d) && TreeInv(d.tree)
  {
    match PlanOf(d.tree)
    case None => Tile(slot)
    case Some(p) =>
      if d.focus == -1 then p
      else
        var r := d.windows[d.focus].rect;
        Halved(p, d.focus, if r.w >= r.h then Vertical else Horizontal, slot)
  }

  lemma OpenTree(d: Desk, screen: Rect, slot: nat)
    requires DeskInv(d, screen) && slot < MAX_WINDOWS && !d.windows[slot].inUse
    ensures Inserted(d, screen, slot, InsertWindow(d, screen, slot).0, InsertWindow(d, screen, slot).1)
  {
    hide InsertWindow, Is, Inserted, Placed, TilesOf, TreeInv;
    var s := ShapeOf(d.tree);
    PlanIs(d.tree, s);
    if Focused(d) {
      assert d.focus in NamesIn(PlanOf(d.tree));
      SplitFocused(d, screen, slot, s.value);
    } else {
      assert d.focus == -1;
      assert forall i: int :: i !in NamesIn(PlanOf(d.tree));
      if s.Some? {
        var _ := SomeName(s.value);
      }
      FirstWindow(d, screen, slot);
    }
  }

  lemma SomeName(s: Shape) returns (w: int)
    ensures w in Names(Erase(s))
  {
    if s.Leaf? {
      w := s.window;
    } else {
      w := SomeName(s.first);
    }
  }

  lemma FirstWindow(d: Desk, screen: Rect, slot: nat)
    requires Shaped(d) && Is(d.tree, None) && !Focused(d)
    ensures TreeInv(d.tree)
    ensures Inserted(d, screen, slot, InsertWindow(d, screen, slot).0, InsertWindow(d, screen, slot).1)
  {
    var (tree, leaf) := InsertWindow(d, screen, slot);
    PlanIs(d.tree, None);
    InsertFirst(d.tree, AutoDir(screen), true, slot);
    var u := Leaf(leaf, slot);
    PlanIs(tree, Some(u));
    IsLinked(tree, Some(u));
    RemovePrunes(tree, u, leaf);
    PlanIs(Remove(tree, leaf).0, None);
  }

  lemma SplitFocused(d: Desk, screen: Rect, slot: nat, s: Shape)
    requires Shaped(d) && Is(d.tree, Some(s)) && Focused(d) && TreeInv(d.tree)
    requires slot < MAX_WINDOWS && !d.windows[slot].inUse
    requires LeavesOpen(d.windows, Some(Erase(s))) && PlanOf(d.tree) == Some(Erase(s))
    ensures Inserted(d, screen, slot, InsertWindow(d, screen, slot).0, InsertWindow(d, screen, slot).1)
  {
    hide PlanOf, Is, Insert, Remove, TreeInv;
    var (tree, leaf) := InsertWindow(d, screen, slot);
    FindsLeaf(d.tree, s, d.focus);
    EightNames(s);
    var target := Bsp.FindFrom(d.tree, d.focus, 0);
    var dir := AutoDir(d.windows[d.focus].rect);
    IsShaped(d.tree, s);
    SubHolds(d.tree.nodes, s, -1, target);
    assert d.tree.nodes[target].window == d.focus;
    InsertSplits(d.tree, s, target, dir, true, slot);
    var o: nat :|
      && o !in Ids(s) && o != leaf
      && Is(tree, Some(Replace(s, target, InsertedAt(target, d.focus, o, leaf, dir, true, slot))));
    var sub := InsertedAt(target, d.focus, o, leaf, dir, true, slot);
    EraseHalved(s, target, d.focus, sub, dir, slot);
    assert Erase(sub) == Cut(dir, 0.5, Tile(d.focus), Tile(slot));
    assert Names(Erase(sub)) == {d.focus, slot};
    assert slot !in NamesIn(Some(Erase(s)));
    NamesReplace(s, target, sub);
    assert d.focus in Names(Erase(s));
    PlanIs(tree, Some(Replace(s, target, sub)));
    IsLinked(tree, Some(Replace(s, target, sub)));
    RemoveUndoesInsert(d.tree, s, target, dir, true, slot);
    var u: Shape :| Is(Remove(tree, leaf).0, Some(u)) && Erase(u) == Erase(s);
    PlanIs(Remove(tree, leaf).0, Some(u));
  }

  lemma IsShaped(t: Pool, s: Shape)
    requires Is(t, Some(s))
    ensures Holds(t.nodes, s, -1) && Distinct(s) && |t.nodes| == MAX_NODES
  {}

  // ---- opening ----

  /** `wm_open_window` fails exactly when eight windows are open or the task cannot be created, and
      then leaves the layout, the windows and the focus as they were; otherwise it opens the first
      free slot and focuses it. */
  lemma OpenKeeps(d: Desk, screen: Rect, task: Option<int>)
    requires DeskInv(d, screen)
    ensures var (e, r) := Open(d, screen, task);
      && DeskInv(e, screen)
      && (r < 0 <==> (forall i | 0 <= i < MAX_WINDOWS :: d.windows[i].inUse) || (task.Some? && task.value < 0))
      && (r < 0 ==> r == -1 && e.focus == d.focus && PlanOf(e.tree) == PlanOf(d.tree) && SameWindows(d, e))
      && (r >= 0 ==> Opened(d, e, r, TaskOf(task)) && PlanOf(e.tree) == Some(Grown(d, r)))
  {
    if Windows.FreeFrom(d.windows, 0).Some? {
      if task.Some? && task.value < 0 {
        OpenUndone(d, screen, task);
      } else {
        OpenDone(d, screen, task);
      }
    } else {
      assert Open(d, screen, task) == (d, -1);
    }
  }

  /** Window `r`, the first that was not open, is, with its task and the focus; the others are as before
      except for their rectangles. */
  predicate Opened(d: Desk, e: Desk, r: int, task: int)
    requires Shaped(d) && Shaped(e)
  {
    && 0 <= r < MAX_WINDOWS && !d.windows[r].inUse && (forall i | 0 <= i < r :: d.windows[i].inUse)
    && e.focus == r && e.windows[r].inUse && e.windows[r].id == r && e.windows[r].task == task
    && forall i | 0 <= i < MAX_WINDOWS && i != r :: e.windows[i].(rect := d.windows[i].rect) == d.windows[i]
  }

  function TaskOf(task: Option<int>): int { if task.Some? then task.value else -1 }

  lemma OpenDone(d: Desk, screen: Rect, task: Option<int>)
    requires DeskInv(d, screen) && Windows.FreeFrom(d.windows, 0).Some? && !(task.Some? && task.value < 0)
    ensures
      var (e, r) := Open(d, screen, task);
      DeskInv(e, screen) && Opened(d, e, r, TaskOf(task)) && PlanOf(e.tree) == Some(Grown(d, r))
  {
    hide InsertWindow, PlanOf, TreeInv, Place, Remove, TilesOf, Placed, Grown, Windows.FreeFrom;
    var slot := Windows.FreeFrom(d.windows, 0).value;
    OpenTree(d, screen, slot);
    var (tree, leaf) := InsertWindow(d, screen, slot);
    var x := d.windows[slot].(inUse := true, id := slot, task := TaskOf(task));
    var mid := Desk(d.windows[slot := x], tree, slot);
    var e := mid.(windows := Place(mid.windows, TilesOf(tree, screen)));
    assert Open(d, screen, task) == (e, slot);
    OneMore(d.windows, slot, x, PlanOf(d.tree), PlanOf(tree).value);
    NewFocus(d, mid, slot);
    hide LeavesOpen, FocusInv, Inserted;
    Relayout(mid, screen);
    hide DeskInv, Open;
    OpenedIs(d, mid, e, slot, TaskOf(task));
  }

  lemma OpenedIs(d: Desk, mid: Desk, e: Desk, slot: nat, task: int)
    requires Shaped(d) && Shaped(mid) && Shaped(e) && Windows.FreeFrom(d.windows, 0) == Some(slot)
    requires mid.windows == d.windows[slot := d.windows[slot].(inUse := true, id := slot, task := task)]
    requires e.focus == slot
    requires forall i | 0 <= i < MAX_WINDOWS :: e.windows[i].(rect := mid.windows[i].rect) == mid.windows[i]
    ensures Opened(d, e, slot, task)
  {
    hide Windows.FreeFrom;
    forall i | 0 <= i < slot ensures d.windows[i].inUse { FirstFree(d.windows, i); }
  }

  lemma FirstFree(windows: seq<Window>, i: nat)
    requires Windows.FreeFrom(windows, 0).Some? && i < Windows.FreeFrom(windows, 0).value
    ensures i < |windows| && windows[i].inUse
  {}

  lemma NewFocus(d: Desk, e: Desk, slot: nat)
    requires Shaped(d) && FocusInv(d) && slot < MAX_WINDOWS && Shaped(e) && e.focus == slot
    requires e.windows == d.windows[slot := e.windows[slot]] && e.windows[slot].inUse && e.windows[slot].id == slot
    ensures FocusInv(e)
  {}

  lemma OneMore(windows: seq<Window>, slot: nat, x: Window, p: Option<Plan>, q: Plan)
    requires LeavesOpen(windows, p) && slot < |windows| && x.inUse
    requires DistinctNames(q) && Names(q) == NamesIn(p) + {slot}
    ensures LeavesOpen(windows[slot := x], Some(q))
  {}

  lemma OpenUndone(d: Desk, screen: Rect, task: Option<int>)
    requires DeskInv(d, screen) && Windows.FreeFrom(d.windows, 0).Some? && task.Some? && task.value < 0
    ensures var (e, r) := Open(d, screen, task);
      r == -1 && DeskInv(e, screen) && e.focus == d.focus && PlanOf(e.tree) == PlanOf(d.tree) && SameWindows(d, e)
  {
    var slot := Windows.FreeFrom(d.windows, 0).value;
    hide InsertWindow, PlanOf, TreeInv, Place, TilesOf, Placed, Remove;
    OpenTree(d, screen, slot);
    var (tree, leaf) := InsertWindow(d, screen, slot);
    var e := Open(d, screen, task).0;
    var x := d.windows[slot].(id := slot, task := -1);
    assert e == d.(tree := Remove(tree, leaf).0, windows := d.windows[slot := x]);
    SameTiles(d.tree, e.tree, screen);
    RolledBack(d, e, screen, slot);
  }

  /** Open windows are the same, with the same rectangles. */
  predicate SameWindows(d: Desk, e: Desk)
  {
    && |e.windows| == |d.windows|
    && forall i | 0 <= i < |d.windows| ::
        e.windows[i].inUse == d.windows[i].inUse && (d.windows[i].inUse ==> e.windows[i] == d.windows[i])
  }

  lemma SameTiles(t: Pool, u: Pool, screen: Rect)
    requires TreeInv(t) && TreeInv(u) && Sized(screen) && PlanOf(t) == PlanOf(u)
    ensures TilesOf(t, screen) == TilesOf(u, screen)
  {}

  lemma RolledBack(d: Desk, e: Desk, screen: Rect, slot: nat)
    requires DeskInv(d, screen) && slot < MAX_WINDOWS && !d.windows[slot].inUse && Shaped(e) && TreeInv(e.tree)
    requires PlanOf(e.tree) == PlanOf(d.tree) && TilesOf(e.tree, screen) == TilesOf(d.tree, screen)
    requires e.focus == d.focus
    requires !e.windows[slot].inUse && e.windows == d.windows[slot := e.windows[slot]]
    requires e.windows[slot].rect == d.windows[slot].rect
    ensures DeskInv(e, screen) && SameWindows(d, e)
  {
    hide PlanOf, TilesOf, TreeInv;
    assert LeavesOpen(e.windows, PlanOf(e.tree));
  }

  // ---- closing ----

  lemma CloseTree(d: Desk, screen: Rect, id: int)
    requires DeskInv(d, screen) && 0 <= id < MAX_WINDOWS && d.windows[id].inUse
    ensures Linked(d.tree) && TreeInv(RemoveWindow(d, id))
    ensures
      var p := PlanOf(RemoveWindow(d, id));
      && NamesIn(p) == NamesIn(PlanOf(d.tree)) - {id} && (p.Some? ==> DistinctNames(p.value))
      && PlanOf(d.tree).Some? && p == Without(PlanOf(d.tree).value, id)
  {
    RemoveWindowKeeps(d, id);
    var s := ShapeOf(d.tree);
    PlanIs(d.tree, s);
    assert id in NamesIn(PlanOf(d.tree));
    var leaf := Bsp.FindFrom(d.tree, id, 0);
    FindsLeaf(d.tree, s.value, id);
    RemovePrunes(d.tree, s.value, leaf);
    IsShaped(d.tree, s.value);
    NamesPruned(s.value, leaf, id);
    ErasePruned(s.value, leaf, id);
    PlanIs(RemoveWindow(d, id), Pruned(s.value, leaf));
  }

  /** Window `id` is not open any more, the others are as before except for their rectangles, and if it had
      the focus the first open window has it now. */
  predicate Closed(d: Desk, e: Desk, id: int)
    requires Shaped(d) && Shaped(e) && 0 <= id < MAX_WINDOWS
  {
    && !e.windows[id].inUse
    && (forall i | 0 <= i < MAX_WINDOWS && i != id :: e.windows[i].(rect := d.windows[i].rect) == d.windows[i])
    && if d.focus != id then e.focus == d.focus
       else if e.focus == -1 then forall i | 0 <= i < MAX_WINDOWS :: !e.windows[i].inUse
       else e.windows[e.focus].inUse && forall i | 0 <= i < e.focus :: !e.windows[i].inUse
  }

  /** `wm_close_window` closes exactly that window, gives its space back and keeps a window focused
      while one is open; it fails exactly on windows that are not open. */
  lemma CloseKeeps(d: Desk, screen: Rect, id: int)
    requires DeskInv(d, screen)
    ensures var (e, r) := Close(d, screen, id);
      && DeskInv(e, screen)
      && (r == if 0 <= id < MAX_WINDOWS && d.windows[id].inUse then 0 else -1)
      && (r == -1 ==> e == d)
      && (r == 0 ==> Closed(d, e, id) && PlanOf(d.tree).Some? && PlanOf(e.tree) == Without(PlanOf(d.tree).value, id))
  {
    if 0 <= id < MAX_WINDOWS && d.windows[id].inUse { CloseDone(d, screen, id); }
  }

  lemma CloseDone(d: Desk, screen: Rect, id: int)
    requires DeskInv(d, screen) && 0 <= id < MAX_WINDOWS && d.windows[id].inUse
    ensures
      var (e, r) := Close(d, screen, id);
      && r == 0 && DeskInv(e, screen) && Closed(d, e, id)
      && PlanOf(d.tree).Some? && PlanOf(e.tree) == Without(PlanOf(d.tree).value, id)
  {
    hide RemoveWindow, PlanOf, TreeInv, Place, TilesOf, Without, UsedFrom, Placed, FocusInv, LeavesOpen;
    CloseTree(d, screen, id);
    var tree := RemoveWindow(d, id);
    var (e, r) := Close(d, screen, id);
    var windows := d.windows[id := d.windows[id].(inUse := false)];
    var mid := Desk(windows, tree, e.focus);
    assert e == mid.(windows := Place(windows, TilesOf(tree, screen))) && r == 0;
    ClosedFocus(d, screen, id, mid);
    OneFewer(d.windows, id, PlanOf(d.tree), PlanOf(tree));
    Relayout(mid, screen);
    hide DeskInv, Close;
    ClosedIs(d, mid, e, id);
  }

  lemma OneFewer(windows: seq<Window>, id: nat, p: Option<Plan>, q: Option<Plan>)
    requires LeavesOpen(windows, p) && id < |windows| && NamesIn(q) == NamesIn(p) - {id}
    requires q.Some? ==> DistinctNames(q.value)
    ensures LeavesOpen(windows[id := windows[id].(inUse := false)], q)
  {}

  lemma ClosedFocus(d: Desk, screen: Rect, id: int, mid: Desk)
    requires DeskInv(d, screen) && 0 <= id < MAX_WINDOWS && d.windows[id].inUse && Linked(d.tree)
    requires mid.windows == d.windows[id := d.windows[id].(inUse := false)] && mid.tree == RemoveWindow(d, id)
    requires mid.focus == Close(d, screen, id).0.focus
    ensures Shaped(mid) && FocusInv(mid)
    ensures
      if d.focus != id then mid.focus == d.focus
      else if mid.focus == -1 then forall i | 0 <= i < MAX_WINDOWS :: !mid.windows[i].inUse
      else mid.windows[mid.focus].inUse && forall i | 0 <= i < mid.focus :: !mid.windows[i].inUse
  {
    hide RemoveWindow, PlanOf, TreeInv, Place, TilesOf, LeavesOpen, Placed;
  }

  lemma ClosedIs(d: Desk, mid: Desk, e: Desk, id: int)
    requires Shaped(d) && Shaped(mid) && Shaped(e) && 0 <= id < MAX_WINDOWS && e.focus == mid.focus
    requires mid.windows == d.windows[id := d.windows[id].(inUse := false)]
    requires forall i | 0 <= i < MAX_WINDOWS :: e.windows[i].(rect := mid.windows[i].rect) == mid.windows[i]
    requires
      if d.focus != id then mid.focus == d.focus
      else if mid.focus == -1 then forall i | 0 <= i < MAX_WINDOWS :: !mid.windows[i].inUse
      else mid.windows[mid.focus].inUse && forall i | 0 <= i < mid.focus :: !mid.windows[i].inUse
    ensures Closed(d, e, id)
  {
    forall i | 0 <= i < MAX_WINDOWS ensures e.windows[i].inUse == mid.windows[i].inUse {}
  }

  // ---- runs ----

  datatype Op = OpenOp(task: Option<int>) | CloseOp(id: int)

  ghost function Next(d: Desk, screen: Rect, op: Op): Desk
    requires Shaped(d) && Sized(screen) && TreeInv(d.tree)
  {
    match op
    case OpenOp(task) => Open(d, screen, task).0
    case CloseOp(id) => Close(d, screen, id).0
  }

  ghost predicate Runs(d: Desk, screen: Rect, ops: seq<Op>, e: Desk)
    requires Sized(screen)
    decreases |ops|
  {
    if ops == [] then e == d else Shaped(d) && TreeInv(d.tree) && Runs(Next(d, screen, ops[0]), screen, ops[1..], e)
  }

  lemma InitHolds(screen: Rect)
    requires Sized(screen)
    ensures DeskInv(Windows.Init(), screen)
  {
    var d := Windows.Init();
    assert Is(d.tree, None);
    PlanIs(d.tree, None);
  }

  lemma {:induction false} RunKeeps(d: Desk, screen: Rect, ops: seq<Op>, e: Desk)
    requires DeskInv(d, screen) && Runs(d, screen, ops, e)
    ensures DeskInv(e, screen)
    decreases |ops|
  {
    if ops != [] {
      match ops[0]
      case OpenOp(task) =>
        OpenKeeps(d, screen, task);
        RunKeeps(Next(d, screen, ops[0]), screen, ops[1..], e);
      case CloseOp(id) =>
        CloseKeeps(d, screen, id);
        RunKeeps(Next(d, screen, ops[0]), screen, ops[1..], e);
    }
  }

  predicate Shows(d: Desk, i: int, x: int, y: int)
  {
    0 <= i < |d.windows| && d.windows[i].inUse && Inside(d.windows[i].rect, x, y)
  }

  lemma {:induction false} CoveringOne(tiles: seq<(int, Rect)>, x: int, y: int) returns (k: nat)
    requires Covering(tiles, x, y) == 1
    ensures k < |tiles| && Inside(tiles[k].1, x, y)
    ensures forall j | 0 <= j < |tiles| && j != k :: !Inside(tiles[j].1, x, y)
  {
    if Inside(tiles[0].1, x, y) {
      k := 0;
      CoveringNone(tiles[1..], x, y);
      assert forall j | 1 <= j < |tiles| :: tiles[j] == tiles[1..][j - 1];
    } else {
      var m := CoveringOne(tiles[1..], x, y);
      k := m + 1;
      assert forall j | 1 <= j < |tiles| :: tiles[j] == tiles[1..][j - 1];
    }
  }

  lemma {:induction false} CoveringNone(tiles: seq<(int, Rect)>, x: int, y: int)
    requires Covering(tiles, x, y) == 0
    ensures forall j | 0 <= j < |tiles| :: !Inside(tiles[j].1, x, y)
  {
    if tiles != [] {
      CoveringNone(tiles[1..], x, y);
      assert forall j | 1 <= j < |tiles| :: tiles[j] == tiles[1..][j - 1];
    }
  }

  /** While a window is open, every pixel of the screen lies in exactly one open window. */
  lemma ScreenPartition(d: Desk, screen: Rect, x: int, y: int)
    requires DeskInv(d, screen) && d.focus != -1 && Inside(screen, x, y)
    ensures exists i: int :: Shows(d, i, x, y) && forall j: int | Shows(d, j, x, y) :: j == i
  {
    PlanBalanced(d.tree);
    var plan := PlanOf(d.tree);
    assert d.focus in NamesIn(plan);
    var tiles := TilesOf(d.tree, screen);
    TilesPartition(plan.value, screen, x, y);
    TilesNames(plan.value, screen);
    var k := CoveringOne(tiles, x, y);
    var i := tiles[k].0;
    hide PlanOf, TilesOf, Tiles, TreeInv, Covering;
    assert Shows(d, i, x, y);
    forall j: int | Shows(d, j, x, y) ensures j == i {
      assert j in Names(plan.value);
      var m :| 0 <= m < |tiles| && tiles[m].0 == j;
      assert d.windows[j].rect == tiles[m].1;
    }
  }

  /** After any run of opens and closes, failed ones included: the tree's leaves are exactly the
      open windows, one is focused just when one is open, and they tile the screen. */
  lemma AnyRun(screen: Rect, ops: seq<Op>, d: Desk)
    requires Sized(screen) && Runs(Windows.Init(), screen, ops, d)
    ensures DeskInv(d, screen)
    ensures d.focus == -1 <==> forall i | 0 <= i < MAX_WINDOWS :: !d.windows[i].inUse
    ensures d.focus != -1 ==> forall x, y | Inside(screen, x, y) ::
              exists i: int :: Shows(d, i, x, y) && forall j: int | Shows(d, j, x, y) :: j == i
  {
    InitHolds(screen);
    RunKeeps(Windows.Init(), screen, ops, d);
    if d.focus != -1 {
      forall x, y | Inside(screen, x, y)
        ensures exists i: int :: Shows(d, i, x, y) && forall j: int | Shows(d, j, x, y) :: j == i
      {
        ScreenPartition(d, screen, x, y);
      }
    }
  }
}
