/** Where windows are (kernel/ui/window.c over kernel/bsp.c): what opening and closing do to the rectangle
    of every window, and that none is lost on a screen of any usual size. */
module WindowRects {
  import opened Common
  import opened Bsp
  import opened BspTheorems
  import opened Windows
  import opened WindowRuns

  /** The rectangle of window `w` in a layout. */
  function RectIn(p: Plan, r: Rect, w: int): Option<Rect>
    requires Balanced(p) && Sized(r)
  {
    match p
    case Tile(u) => if u == w then Some(r) else None
    case Cut(d, q, a, b) =>
      if w in Names(a) then RectIn(a, FirstPart(r, d, q), w) else RectIn(b, SecondPart(r, d, q), w)
  }

  lemma {:induction false} TileRect(p: Plan, r: Rect, k: nat)
    requires Balanced(p) && Sized(r) && DistinctNames(p) && k < |Tiles(p, r)|
    ensures RectIn(p, r, Tiles(p, r)[k].0) == Some(Tiles(p, r)[k].1) && Tiles(p, r)[k].0 in Names(p)
  {
    match p
    case Tile(_) =>
    case Cut(d, q, a, b) =>
      var ta := Tiles(a, FirstPart(r, d, q));
      if k < |ta| {
        TileRect(a, FirstPart(r, d, q), k);
      } else {
        TileRect(b, SecondPart(r, d, q), k - |ta|);
      }
  }

  /** An open window has the rectangle of the layout. */
  lemma DeskRect(d: Desk, screen: Rect, i: int)
    requires DeskInv(d, screen) && 0 <= i < MAX_WINDOWS && d.windows[i].inUse
    ensures
      var p := PlanOf(d.tree);
      && p.Some? && Balanced(p.value) && DistinctNames(p.value) && i in Names(p.value)
      && RectIn(p.value, screen, i) == Some(d.windows[i].rect)
  {
    PlanBalanced(d.tree);
    var p := PlanOf(d.tree);
    assert i in NamesIn(p);
    var tiles := TilesOf(d.tree, screen);
    hide PlanOf, TreeInv;
    TilesNames(p.value, screen);
    var k :| 0 <= k < |tiles| && tiles[k].0 == i;
    TileRect(p.value, screen, k);
  }

  // ---- opening ----

  /** Halving a window splits its rectangle and moves no other. */
  lemma {:induction false} HalvedRect(p: Plan, r: Rect, w: int, dir: SplitDir, v: int, u: int)
    requires Balanced(p) && Sized(r) && DistinctNames(p) && w in Names(p) && v !in Names(p)
    requires u in Names(p) || u == v
    ensures Balanced(Halved(p, w, dir, v)) && Names(Halved(p, w, dir, v)) == Names(p) + {v}
    ensures RectIn(p, r, w).Some? && Sized(RectIn(p, r, w).value)
    ensures
      RectIn(Halved(p, w, dir, v), r, u) ==
        if u == w then Some(FirstPart(RectIn(p, r, w).value, dir, 0.5))
        else if u == v then Some(SecondPart(RectIn(p, r, w).value, dir, 0.5))
        else RectIn(p, r, u)
  {
    match p
    case Tile(_) =>
    case Cut(d, q, a, b) =>
      if w in Names(a) {
        HalvedElsewhere(b, w, dir, v);
        HalvedRect(a, FirstPart(r, d, q), w, dir, v, if u in Names(b) then v else u);
      } else {
        HalvedElsewhere(a, w, dir, v);
        HalvedRect(b, SecondPart(r, d, q), w, dir, v, if u in Names(a) then v else u);
      }
  }

  /** The two halves of a rectangle across its longer side, an odd pixel to the first. */
  ghost predicate Halves(r: Rect, a: Rect, b: Rect)
  {
    if r.w >= r.h then
      && (a.w == b.w || a.w == b.w + 1) && a.w + b.w == r.w && a == r.(w := a.w) && b == r.(x := r.x + a.w, w := b.w)
    else
      && (a.h == b.h || a.h == b.h + 1) && a.h + b.h == r.h && a == r.(h := a.h) && b == r.(y := r.y + a.h, h := b.h)
  }

  lemma HalfParts(r: Rect)
    requires Sized(r)
    ensures
      var dir := if r.w >= r.h then Vertical else Horizontal;
      Halves(r, FirstPart(r, dir, 0.5), SecondPart(r, dir, 0.5))
  {
    var dir := if r.w >= r.h then Vertical else Horizontal;
    PartsAre(r, dir, 0.5);
    hide FirstPart, SecondPart;
    var a := FirstPart(r, dir, 0.5);
    if r.w >= r.h { HalfIs(a.w, r.w); } else { HalfIs(a.h, r.h); }
  }

  lemma HalfIs(n: int, len: int)
    requires Nearest(n, len, 0.5)
    ensures 2 * n == len || 2 * n == len + 1
  {
    assert (2 * n - 1) as real <= len as real < (2 * n + 1) as real;
  }

  /** A window that is opened takes the second half of the focused window's rectangle, cut across its
      longer side; the focused window keeps the first half and every other window its rectangle. The first
      window takes the screen. */
  lemma OpenHalves(d: Desk, screen: Rect, task: Option<int>)
    requires DeskInv(d, screen) && Open(d, screen, task).1 >= 0
    ensures
      var (e, r) := Open(d, screen, task);
      && Shaped(e) && 0 <= r < MAX_WINDOWS
      && if d.focus == -1 then e.windows[r].rect == screen
         else
           && Halves(d.windows[d.focus].rect, e.windows[d.focus].rect, e.windows[r].rect)
           && forall i | 0 <= i < MAX_WINDOWS && d.windows[i].inUse && i != d.focus ::
                e.windows[i].rect == d.windows[i].rect
  {
    OpenKeeps(d, screen, task);
    hide Open, TreeInv, TilesOf, PlanOf;
    var (e, r) := Open(d, screen, task);
    DeskRect(e, screen, r);
    if d.focus == -1 {
      NoPlan(d, screen);
    } else {
      var f, p := d.focus, PlanOf(d.tree).value;
      var dir := if d.windows[f].rect.w >= d.windows[f].rect.h then Vertical else Horizontal;
      DeskRect(d, screen, f);
      assert r !in Names(p);
      HalvedRect(p, screen, f, dir, r, r);
      HalvedRect(p, screen, f, dir, r, f);
      HalfParts(d.windows[f].rect);
      DeskRect(e, screen, f);
      forall i | 0 <= i < MAX_WINDOWS && d.windows[i].inUse && i != f ensures e.windows[i].rect == d.windows[i].rect {
        DeskRect(d, screen, i);
        DeskRect(e, screen, i);
        HalvedRect(p, screen, f, dir, r, i);
      }
    }
  }

  lemma NoPlan(d: Desk, screen: Rect)
    requires DeskInv(d, screen) && d.focus == -1
    ensures PlanOf(d.tree).None?
  {
    hide TilesOf, Placed, PlanOf, LeavesOpen;
    NoLeaves(d.windows, PlanOf(d.tree));
  }

  lemma NoLeaves(windows: seq<Window>, p: Option<Plan>)
    requires LeavesOpen(windows, p) && forall i | 0 <= i < |windows| :: !windows[i].inUse
    ensures p.None?
  {
    assert forall i: int :: i !in NamesIn(p);
    if p.Some? { var _ := NamedTile(p.value); }
  }

  lemma NamedTile(p: Plan) returns (w: int)
    ensures w in Names(p)
  {
    if p.Tile? { w := p.window; } else { w := NamedTile(p.first); }
  }

  // ---- closing ----

  lemma {:induction false} WithoutHalved(p: Plan, w: int, dir: SplitDir, v: int)
    requires v !in Names(p) && w in Names(p) && DistinctNames(p)
    ensures Without(Halved(p, w, dir, v), v) == Some(p)
  {
    match p
    case Tile(_) =>
    case Cut(_, _, a, b) =>
      WithoutElsewhere(a, v);
      WithoutElsewhere(b, v);
      if w in Names(a) {
        HalvedElsewhere(b, w, dir, v);
        WithoutHalved(a, w, dir, v);
      } else {
        HalvedElsewhere(a, w, dir, v);
        WithoutHalved(b, w, dir, v);
      }
  }

  /** Closing the window just opened gives every window back the rectangle it had. */
  lemma CloseUndoesOpen(d: Desk, screen: Rect, task: Option<int>)
    requires DeskInv(d, screen) && Open(d, screen, task).1 >= 0
    ensures
      var (e, r) := Open(d, screen, task);
      && DeskInv(e, screen)
      && var (c, ok) := Close(e, screen, r);
         && ok == 0 && DeskInv(c, screen) && PlanOf(c.tree) == PlanOf(d.tree) && SameWindows(d, c)
  {
    hide Open, Close, TreeInv, TilesOf, PlanOf, Placed, LeavesOpen, FocusInv;
    OpenKeeps(d, screen, task);
    var (e, r) := Open(d, screen, task);
    CloseKeeps(e, screen, r);
    var c := Close(e, screen, r).0;
    BackAgain(d, e, screen, r);
    hide DeskInv, Grown, Without;
    Restored(d, c, screen);
  }

  /** The same windows open under the same plan have the same rectangles. */
  lemma Restored(d: Desk, c: Desk, screen: Rect)
    requires DeskInv(d, screen) && DeskInv(c, screen) && PlanOf(c.tree) == PlanOf(d.tree)
    requires forall i | 0 <= i < MAX_WINDOWS :: c.windows[i].inUse == d.windows[i].inUse
    requires forall i | 0 <= i < MAX_WINDOWS && d.windows[i].inUse ::
               c.windows[i].(rect := d.windows[i].rect) == d.windows[i]
    ensures SameWindows(d, c)
  {
    hide PlanOf, TreeInv, TilesOf, Placed, LeavesOpen, FocusInv;
    forall i | 0 <= i < MAX_WINDOWS && d.windows[i].inUse ensures c.windows[i] == d.windows[i] {
      DeskRect(d, screen, i);
      DeskRect(c, screen, i);
    }
  }

  lemma BackAgain(d: Desk, e: Desk, screen: Rect, r: nat)
    requires DeskInv(d, screen) && r < MAX_WINDOWS && !d.windows[r].inUse
    requires TreeInv(e.tree) && PlanOf(e.tree) == Some(Grown(d, r))
    ensures Without(PlanOf(e.tree).value, r) == PlanOf(d.tree)
  {
    hide TreeInv, TilesOf, PlanOf, Placed;
    if d.focus == -1 {
      NoPlan(d, screen);
    } else {
      var f := d.focus;
      var dir := if d.windows[f].rect.w >= d.windows[f].rect.h then Vertical else Horizontal;
      assert f in NamesIn(PlanOf(d.tree)) && r !in NamesIn(PlanOf(d.tree));
      WithoutHalved(PlanOf(d.tree).value, f, dir, r);
    }
  }

  predicate NoSmaller(a: Rect, b: Rect) { a.w <= b.w && a.h <= b.h }

  /** More pixels to share, no part gets fewer. */
  lemma SplitMonotone(len: nat, more: nat, q: real)
    requires MIN_RATIO <= q <= MAX_RATIO && len <= more
    ensures SplitAt(len, q) <= SplitAt(more, q) && len - SplitAt(len, q) <= more - SplitAt(more, q)
    decreases more
  {
    if len < more {
      SplitMonotone(len, more - 1, q);
      SplitStep(more - 1, q);
    }
  }

  lemma SplitStep(len: nat, q: real)
    requires MIN_RATIO <= q <= MAX_RATIO
    ensures SplitAt(len, q) <= SplitAt(len + 1, q) <= SplitAt(len, q) + 1
  {
    var a := len as real * q + 0.5;
    assert (len + 1) as real * q + 0.5 == a + q;
    FloorStep(a, q);
  }

  lemma FloorStep(a: real, q: real)
    requires 0.0 <= q <= 1.0
    ensures a.Floor <= (a + q).Floor <= a.Floor + 1
  {}

  lemma PartsMonotone(r: Rect, s: Rect, d: SplitDir, q: real)
    requires Sized(r) && Sized(s) && MIN_RATIO <= q <= MAX_RATIO && NoSmaller(r, s)
    ensures NoSmaller(FirstPart(r, d, q), FirstPart(s, d, q)) && NoSmaller(SecondPart(r, d, q), SecondPart(s, d, q))
    ensures NoSmaller(FirstPart(r, d, q), r) && NoSmaller(SecondPart(r, d, q), r)
  {
    hide SplitAt;
    SplitMonotone(r.w, s.w, q);
    SplitMonotone(r.h, s.h, q);
  }

  lemma {:induction false} RectMonotone(p: Plan, r: Rect, s: Rect, w: int)
    requires Balanced(p) && Sized(r) && Sized(s) && NoSmaller(r, s) && w in Names(p)
    ensures RectIn(p, r, w).Some? && RectIn(p, s, w).Some?
    ensures NoSmaller(RectIn(p, r, w).value, RectIn(p, s, w).value)
  {
    match p
    case Tile(_) =>
    case Cut(d, q, a, b) =>
      PartsMonotone(r, s, d, q);
      hide FirstPart, SecondPart;
      if w in Names(a) {
        RectMonotone(a, FirstPart(r, d, q), FirstPart(s, d, q), w);
      } else {
        RectMonotone(b, SecondPart(r, d, q), SecondPart(s, d, q), w);
      }
  }

  /** Taking a window out makes no other smaller. */
  lemma {:induction false} WithoutRect(p: Plan, r: Rect, w: int, u: int)
    requires Balanced(p) && Sized(r) && DistinctNames(p) && w in Names(p) && u in Names(p) && u != w
    ensures Without(p, w).Some? && Balanced(Without(p, w).value) && Names(Without(p, w).value) == Names(p) - {w}
    ensures RectIn(p, r, u).Some? && RectIn(Without(p, w).value, r, u).Some?
    ensures NoSmaller(RectIn(p, r, u).value, RectIn(Without(p, w).value, r, u).value)
    decreases p, 0
  {
    var d, q, a, b := p.dir, p.ratio, p.first, p.second;
    PartsMonotone(r, r, d, q);
    hide FirstPart, SecondPart;
    var r0, r1 := FirstPart(r, d, q), SecondPart(r, d, q);
    if w in Names(a) {
      WithoutElsewhere(b, w);
      WithoutPart(a, r0, w, u);
      if u in Names(b) { RectMonotone(b, r1, r, u); }
    } else {
      WithoutElsewhere(a, w);
      WithoutPart(b, r1, w, u);
      if u in Names(a) { RectMonotone(a, r0, r, u); }
    }
  }

  /** The part that window `w` lies in: gone if it was all of it. */
  lemma {:induction false} WithoutPart(p: Plan, r: Rect, w: int, u: int)
    requires Balanced(p) && Sized(r) && DistinctNames(p) && w in Names(p) && u != w
    ensures Without(p, w).None? ==> p == Tile(w)
    ensures Without(p, w).Some? ==> Balanced(Without(p, w).value) && Names(Without(p, w).value) == Names(p) - {w}
    ensures Without(p, w).Some? && u in Names(p) ==>
              && RectIn(p, r, u).Some? && RectIn(Without(p, w).value, r, u).Some?
              && NoSmaller(RectIn(p, r, u).value, RectIn(Without(p, w).value, r, u).value)
    decreases p, 1
  {
    if p.Cut? {
      var v := AnotherName(p, w);
      WithoutRect(p, r, w, if u in Names(p) then u else v);
    }
  }

  lemma AnotherName(p: Plan, w: int) returns (v: int)
    requires p.Cut? && DistinctNames(p)
    ensures v in Names(p) && v != w
  {
    if w in Names(p.first) { v := NamedTile(p.second); } else { v := NamedTile(p.first); }
  }

  /** Closing a window makes no other smaller. */
  lemma CloseShrinksNone(d: Desk, screen: Rect, id: int, i: int)
    requires DeskInv(d, screen) && 0 <= id < MAX_WINDOWS && d.windows[id].inUse
    requires 0 <= i < MAX_WINDOWS && i != id && d.windows[i].inUse
    ensures Shaped(Close(d, screen, id).0)
    ensures NoSmaller(d.windows[i].rect, Close(d, screen, id).0.windows[i].rect)
  {
    CloseKeeps(d, screen, id);
    hide Close, TreeInv, TilesOf, PlanOf, Without;
    var e := Close(d, screen, id).0;
    DeskRect(d, screen, id);
    DeskRect(d, screen, i);
    DeskRect(e, screen, i);
    WithoutRect(PlanOf(d.tree).value, screen, id, i);
  }

  // ---- every window shows ----

  /** Every cut is in the middle. */
  predicate AllHalf(p: Plan) { p.Cut? ==> p.ratio == 0.5 && AllHalf(p.first) && AllHalf(p.second) }

  lemma {:induction false} HalvedIsHalf(p: Plan, w: int, dir: SplitDir, v: int)
    requires AllHalf(p)
    ensures AllHalf(Halved(p, w, dir, v))
  {
    if p.Cut? {
      HalvedIsHalf(p.first, w, dir, v);
      HalvedIsHalf(p.second, w, dir, v);
    }
  }

  lemma {:induction false} WithoutIsHalf(p: Plan, w: int)
    requires AllHalf(p)
    ensures Without(p, w).Some? ==> AllHalf(Without(p, w).value)
  {
    if p.Cut? {
      WithoutIsHalf(p.first, w);
      WithoutIsHalf(p.second, w);
    }
  }

  function Power(k: nat): (n: nat)
    ensures n > 0
  {
    if k == 0 then 1 else 2 * Power(k - 1)
  }

  lemma {:induction false} PowerGrows(j: nat, k: nat)
    requires j <= k
    ensures Power(j) <= Power(k)
  {
    if j < k { PowerGrows(j, k - 1); }
  }

  /** Halving `k - 1` times leaves a pixel of `2^(k-1)`. */
  lemma {:induction false} HalvesShow(p: Plan, r: Rect)
    requires Balanced(p) && AllHalf(p) && r.w >= Power(Count(p) - 1) && r.h >= Power(Count(p) - 1)
    ensures AllShow(Tiles(p, r))
  {
    match p
    case Tile(_) =>
    case Cut(d, q, a, b) =>
      PowerGrows(Count(a) - 1, Count(p) - 2);
      PowerGrows(Count(b) - 1, Count(p) - 2);
      PartsAre(r, d, q);
      var r0, r1 := FirstPart(r, d, q), SecondPart(r, d, q);
      if d == Vertical { HalfIs(r0.w, r.w); } else { HalfIs(r0.h, r.h); }
      HalvesShow(a, r0);
      HalvesShow(b, r1);
  }

  ghost predicate HalfDesk(d: Desk)
    requires TreeInv(d.tree)
  {
    PlanOf(d.tree).Some? ==> AllHalf(PlanOf(d.tree).value)
  }

  lemma NextHalf(d: Desk, screen: Rect, op: WindowRuns.Op)
    requires DeskInv(d, screen) && HalfDesk(d)
    ensures DeskInv(WindowRuns.Next(d, screen, op), screen) && HalfDesk(WindowRuns.Next(d, screen, op))
  {
    match op
    case OpenOp(task) =>
      OpenKeeps(d, screen, task);
      hide Open, TreeInv, TilesOf, PlanOf;
      if PlanOf(d.tree).Some? && d.focus != -1 {
        var r := d.windows[d.focus].rect;
        var dir := if r.w >= r.h then Vertical else Horizontal;
        forall v: int ensures AllHalf(Halved(PlanOf(d.tree).value, d.focus, dir, v)) {
          HalvedIsHalf(PlanOf(d.tree).value, d.focus, dir, v);
        }
      }
    case CloseOp(id) =>
      CloseKeeps(d, screen, id);
      hide Close, TreeInv, TilesOf, PlanOf;
      if PlanOf(d.tree).Some? { WithoutIsHalf(PlanOf(d.tree).value, id); }
  }

  lemma {:induction false} RunHalf(d: Desk, screen: Rect, ops: seq<WindowRuns.Op>, e: Desk)
    requires DeskInv(d, screen) && HalfDesk(d) && WindowRuns.Runs(d, screen, ops, e)
    ensures DeskInv(e, screen) && HalfDesk(e)
    decreases |ops|
  {
    hide WindowRuns.Next, Placed, LeavesOpen, FocusInv, TilesOf, PlanOf, HalfDesk;
    if ops != [] {
      NextHalf(d, screen, ops[0]);
      RunHalf(WindowRuns.Next(d, screen, ops[0]), screen, ops[1..], e);
    }
  }

  lemma {:induction false} CountIsNames(p: Plan)
    requires DistinctNames(p)
    ensures Count(p) == |Names(p)|
  {
    if p.Cut? {
      CountIsNames(p.first);
      CountIsNames(p.second);
    }
  }

  /** After any run of opens and closes on a screen of at least 128 by 128 pixels, every open window has a
      pixel. */
  lemma NoneIsLost(screen: Rect, ops: seq<WindowRuns.Op>, d: Desk, i: int)
    requires screen.w >= 128 && screen.h >= 128 && WindowRuns.Runs(Windows.Init(), screen, ops, d)
    requires 0 <= i < |d.windows| && d.windows[i].inUse
    ensures d.windows[i].rect.w > 0 && d.windows[i].rect.h > 0
  {
    hide WindowRuns.Runs, HalfDesk;
    InitHolds(screen);
    InitHalf();
    RunHalf(Windows.Init(), screen, ops, d);
    WindowShows(d, screen, i);
  }

  lemma WindowShows(d: Desk, screen: Rect, i: int)
    requires DeskInv(d, screen) && HalfDesk(d) && screen.w >= 128 && screen.h >= 128
    requires 0 <= i < MAX_WINDOWS && d.windows[i].inUse
    ensures d.windows[i].rect.w > 0 && d.windows[i].rect.h > 0
  {
    hide PlanOf, TreeInv, TilesOf, Placed, FocusInv, AllHalf;
    DeskRect(d, screen, i);
    var p := PlanOf(d.tree).value;
    assert forall w | w in Names(p) :: w in NamesIn(PlanOf(d.tree)) && 0 <= w < MAX_WINDOWS;
    CountIsNames(p);
    BoundedSize(Names(p), MAX_WINDOWS);
    PlanShows(p, screen, i);
  }

  lemma PlanShows(p: Plan, screen: Rect, i: int)
    requires Balanced(p) && AllHalf(p) && DistinctNames(p) && i in Names(p) && Count(p) <= 8
    requires screen.w >= 128 && screen.h >= 128
    ensures RectIn(p, screen, i).Some? && RectIn(p, screen, i).value.w > 0 && RectIn(p, screen, i).value.h > 0
  {
    PowerGrows(Count(p) - 1, 7);
    assert Power(7) == 128;
    HalvesShow(p, screen);
    TilesNames(p, screen);
    var tiles := Tiles(p, screen);
    hide Tiles, RectIn, Names;
    var k :| 0 <= k < |tiles| && tiles[k].0 == i;
    TileRect(p, screen, k);
  }

  lemma InitHalf()
    ensures TreeInv(Windows.Init().tree) && HalfDesk(Windows.Init())
  {
    assert Is(Windows.Init().tree, None);
    PlanIs(Windows.Init().tree, None);
  }
}
