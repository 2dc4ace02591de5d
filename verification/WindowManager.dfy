/** The window layer as it runs (kernel/ui/window.c). Task creation is a parameter: its answer. */
module WindowManager {
  import opened Common
  import opened Bsp
  import opened BspSteps
  import opened BspTheorems
  import opened Windows
  import BspTree

  lemma {:induction false} PlaceLast(windows: seq<Window>, tiles: seq<(int, Rect)>, k: nat)
    requires k < |tiles|
    ensures Place(windows, tiles[..k + 1]) == PlaceOne(Place(windows, tiles[..k]), tiles[k].0, tiles[k].1)
    decreases k
  {
    if k > 0 {
      PlaceLast(PlaceOne(windows, tiles[0].0, tiles[0].1), tiles[1..], k - 1);
      assert tiles[..k + 1][1..] == tiles[1..][..k] && tiles[..k][1..] == tiles[1..][..k - 1];
    }
  }

  class WindowManager {
    const windows: array<Window>
    const tree: BspTree.BspTree
    var focus: int

    ghost predicate Valid()
      reads this
    {
      windows.Length == MAX_WINDOWS && tree.Valid() && -1 <= focus < MAX_WINDOWS
    }

    ghost function Abs(): (d: Desk)
      requires Valid()
      reads this, windows, tree, tree.nodes
      ensures Shaped(d)
    {
      Desk(windows[..], tree.Abs(), focus)
    }

    constructor ()
      ensures Valid() && fresh(windows) && fresh(tree) && fresh(tree.nodes) && Abs() == Windows.Init()
    {
      windows := new Window[MAX_WINDOWS](_ => Window(false, 0, 0, Rect(0, 0, 0, 0)));
      tree := new BspTree.BspTree();
      focus := -1;
      new;
      assert windows[..] == Windows.Init().windows;
    }

    /** `wm_relayout`, without the borders it draws. */
    method RelayoutAll(screen: Rect)
      requires Valid() && Sized(screen) && TreeInv(tree.Abs())
      modifies windows
      ensures windows[..] == Place(old(windows[..]), TilesOf(tree.Abs(), screen))
    {
      ghost var s := ShapeOf(tree.Abs());
      PlanIs(tree.Abs(), s);
      var visits := [];
      if tree.root != -1 {
        visits := tree.LayoutFrom(tree.root, screen, s.value, -1);
      }
      assert visits == TilesOf(tree.Abs(), screen);
      assert visits[..0] == [];
      for k := 0 to |visits|
        invariant windows[..] == Place(old(windows[..]), visits[..k])
      {
        PlaceLast(old(windows[..]), visits, k);
        var w := visits[k].0;
        if 0 <= w < MAX_WINDOWS && windows[w].inUse {
          windows[w] := windows[w].(rect := visits[k].1);
        }
      }
      assert visits[..|visits|] == visits;
    }

    method OpenWindow(screen: Rect, task: Option<int>) returns (r: int)
      requires Valid() && Sized(screen) && TreeInv(tree.Abs())
      modifies this`focus, windows, tree`root, tree.nodes
      ensures Valid() && (Abs(), r) == Open(old(Abs()), screen, task)
    {
      hide TreeInv, Insert, Remove, TilesOf, Linked;
      var slot := 0;
      while slot < MAX_WINDOWS && windows[slot].inUse
        invariant slot <= MAX_WINDOWS && Windows.FreeFrom(windows[..], 0) == Windows.FreeFrom(windows[..], slot)
      {
        slot := slot + 1;
      }
      if slot == MAX_WINDOWS {
        return -1;
      }
      var target, rect := -1, screen;
      if focus != -1 && windows[focus].inUse {
        target := tree.Find(focus);
        rect := windows[focus].rect;
      }
      InsertWindowKeeps(Abs(), screen, slot);
      var leaf := tree.InsertAuto(target, rect, slot);
      assert (tree.Abs(), leaf) == InsertWindow(old(Abs()), screen, slot);
      if leaf < 0 {
        return -1;
      }
      windows[slot] := windows[slot].(inUse := true, id := slot, task := -1);
      if task.Some? {
        if task.value < 0 {
          var _ := tree.RemoveLeaf(leaf);
          windows[slot] := windows[slot].(inUse := false);
          assert windows[..] ==
                 old(windows[..])[slot := old(windows[slot]).(inUse := true, id := slot, task := -1).(inUse := false)];
          return -1;
        }
        windows[slot] := windows[slot].(task := task.value);
      }
      ghost var x := old(windows[slot]).(inUse := true, id := slot, task := -1);
      assert windows[..] == old(windows[..])[slot := if task.Some? then x.(task := task.value) else x];
      focus := slot;
      RelayoutAll(screen);
      return slot;
    }

    method CloseWindow(screen: Rect, id: int) returns (r: int)
      requires Valid() && Sized(screen) && TreeInv(tree.Abs())
      requires forall i | 0 <= i < MAX_WINDOWS && windows[i].inUse :: windows[i].id == i
      modifies this`focus, windows, tree`root, tree.nodes
      ensures Valid() && (Abs(), r) == Close(old(Abs()), screen, id)
    {
      hide TreeInv, Remove, TilesOf, Linked;
      if id < 0 || id >= MAX_WINDOWS || !windows[id].inUse {
        return -1;
      }
      RemoveWindowKeeps(Abs(), id);
      var leaf := tree.Find(id);
      if leaf != -1 {
        var _ := tree.RemoveLeaf(leaf);
      }
      assert tree.Abs() == RemoveWindow(old(Abs()), id);
      windows[id] := windows[id].(inUse := false);
      if focus == id {
        focus := NextFocus();
      }
      RelayoutAll(screen);
      return 0;
    }

    /** The first open window, -1 if there is none. */
    method NextFocus() returns (f: int)
      requires windows.Length == MAX_WINDOWS
      ensures f == match UsedFrom(windows[..], 0) case None => -1 case Some(i) => windows[i].id
    {
      f := -1;
      for i := 0 to MAX_WINDOWS
        invariant UsedFrom(windows[..], 0) == UsedFrom(windows[..], i)
      {
        if windows[i].inUse {
          return windows[i].id;
        }
      }
    }
  }
}
