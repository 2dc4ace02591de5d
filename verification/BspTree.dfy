/** The tiling tree as it runs (kernel/bsp.c): the node pool changed in place. */
module BspTree {
  import opened Common
  import opened Bsp
  import opened BspSteps
  import opened BspTheorems

  class BspTree {
    const nodes: array<Node>
    var root: int

    ghost predicate Valid()
    {
      nodes.Length == MAX_NODES
    }

    /** The pool as a value. */
    ghost function Abs(): (t: Pool)
      reads this, nodes
    {
      Pool(nodes[..], root)
    }

    constructor ()
      ensures Valid() && fresh(nodes) && Abs() == Bsp.Init()
    {
      nodes := new Node[MAX_NODES](_ => EMPTY_NODE);
      root := -1;
    }

    method AllocNode() returns (r: int)
      requires Valid()
      modifies nodes
      ensures match FreeFrom(old(nodes[..]), 0)
        case None => r == -1 && nodes[..] == old(nodes[..])
        case Some(i) => r == i && nodes[..] == Claim(old(nodes[..]), i)
    {
      for i := 0 to MAX_NODES
        invariant nodes[..] == old(nodes[..])
        invariant FreeFrom(nodes[..], 0) == FreeFrom(nodes[..], i)
      {
        if !nodes[i].inUse {
          nodes[i] := nodes[i].(inUse := true, parent := -1, child0 := -1, child1 := -1);
          return i;
        }
      }
      return -1;
    }

    method FreeNode(i: int)
      requires Valid()
      modifies nodes
      ensures nodes[..] == if 0 <= i < MAX_NODES then Release(old(nodes[..]), i) else old(nodes[..])
    {
      if i < 0 || i >= MAX_NODES {
        return;
      }
      nodes[i] := nodes[i].(inUse := false);
    }

    method InsertLeaf(target: int, dir: SplitDir, newSecond: bool, window: int) returns (r: int)
      requires Valid()
      modifies this`root, nodes
      ensures (Abs(), r) == Insert(old(Abs()), target, dir, newSecond, window)
    {
      if target == -1 {
        if root != -1 {
          return -1;
        }
        r := AllocNode();
        if r < 0 {
          return -1;
        }
        nodes[r] := nodes[r].(isLeaf := true, parent := -1, window := window);
        root := r;
        return;
      }
      if !(0 <= target < MAX_NODES && nodes[target].inUse && nodes[target].isLeaf) {
        return -1;
      }
      var o := AllocNode();
      if o < 0 {
        return -1;
      }
      r := AllocNode();
      if r < 0 {
        FreeNode(o);
        return;
      }
      ghost var claimed := nodes[..];
      nodes[o] := nodes[o].(isLeaf := true, parent := target, window := nodes[target].window);
      nodes[r] := nodes[r].(isLeaf := true, parent := target, window := window);
      nodes[target] := nodes[target].(isLeaf := false, dir := dir, ratio := 0.5);
      if newSecond {
        nodes[target] := nodes[target].(child0 := o, child1 := r);
      } else {
        nodes[target] := nodes[target].(child0 := r, child1 := o);
      }
      assert nodes[..] == SplitLeaf(claimed, target, o, r, dir, newSecond, window);
    }

    method InsertAuto(target: int, rect: Rect, window: int) returns (r: int)
      requires Valid()
      modifies this`root, nodes
      ensures (Abs(), r) == Insert(old(Abs()), target, AutoDir(rect), true, window)
    {
      var dir := if rect.w >= rect.h then Vertical else Horizontal;
      r := InsertLeaf(target, dir, true, window);
    }

    method RemoveLeaf(leaf: int) returns (r: int)
      requires Valid() && Linked(Abs())
      modifies this`root, nodes
      ensures (Abs(), r) == Remove(old(Abs()), leaf)
    {
      if !(0 <= leaf < MAX_NODES && nodes[leaf].inUse && nodes[leaf].isLeaf) {
        return -1;
      }
      var parent := nodes[leaf].parent;
      if parent == -1 {
        FreeNode(leaf);
        root := -1;
        return 0;
      }
      assert ValidSplit(Abs(), parent);
      var sibling := if nodes[parent].child0 == leaf then nodes[parent].child1 else nodes[parent].child0;
      var grand := nodes[parent].parent;
      assert grand == -1 || ValidSplit(Abs(), grand);
      nodes[sibling] := nodes[sibling].(parent := grand);
      if grand == -1 {
        root := sibling;
      } else if nodes[grand].child0 == parent {
        nodes[grand] := nodes[grand].(child0 := sibling);
      } else {
        nodes[grand] := nodes[grand].(child1 := sibling);
      }
      FreeNode(leaf);
      FreeNode(parent);
      return 0;
    }

    method FlipNode(i: int)
      requires Valid()
      modifies nodes
      ensures Abs() == Flip(old(Abs()), i)
    {
      if !(0 <= i < MAX_NODES && nodes[i].inUse && !nodes[i].isLeaf) {
        return;
      }
      var tmp := nodes[i].child0;
      nodes[i] := nodes[i].(child0 := nodes[i].child1);
      nodes[i] := nodes[i].(child1 := tmp);
    }

    method RotateNode(i: int)
      requires Valid()
      modifies nodes
      ensures Abs() == Rotate(old(Abs()), i)
    {
      if !(0 <= i < MAX_NODES && nodes[i].inUse && !nodes[i].isLeaf) {
        return;
      }
      nodes[i] := nodes[i].(dir := if nodes[i].dir == Vertical then Horizontal else Vertical);
      FlipNode(i);
    }

    method ResizeNode(i: int, delta: real)
      requires Valid()
      modifies nodes
      ensures Abs() == Resize(old(Abs()), i, delta)
    {
      if !(0 <= i < MAX_NODES && nodes[i].inUse && !nodes[i].isLeaf) {
        return;
      }
      var ratio := nodes[i].ratio + delta;
      if ratio < MIN_RATIO {
        ratio := MIN_RATIO;
      }
      if ratio > MAX_RATIO {
        ratio := MAX_RATIO;
      }
      nodes[i] := nodes[i].(ratio := ratio);
    }

    method Find(window: int) returns (r: int)
      requires Valid()
      ensures r == FindFrom(Abs(), window, 0)
    {
      for i := 0 to MAX_NODES
        invariant FindFrom(Abs(), window, 0) == FindFrom(Abs(), window, i)
      {
        if nodes[i].inUse && nodes[i].isLeaf && nodes[i].window == window {
          return i;
        }
      }
      return -1;
    }

    /** `layout_recurse`: the calls of the visitor, in order. */
    method LayoutFrom(node: int, rect: Rect, ghost s: Shape, ghost parent: int) returns (visits: seq<(int, Rect)>)
      requires Valid() && node == s.at && Holds(nodes[..], s, parent) && Sized(rect)
      ensures Balanced(Erase(s)) && visits == Tiles(Erase(s), rect)
      decreases s
    {
      HeldBalanced(nodes[..], s, parent);
      if node < 0 || !nodes[node].inUse {
        return [];
      }
      if nodes[node].isLeaf {
        return [(nodes[node].window, rect)];
      }
      var rect0, rect1 := rect, rect;
      if nodes[node].dir == Vertical {
        var width0 := (rect.w as real * nodes[node].ratio + 0.5).Floor;
        rect0 := rect.(w := width0);
        rect1 := rect.(x := rect.x + width0, w := rect.w - width0);
      } else {
        var height0 := (rect.h as real * nodes[node].ratio + 0.5).Floor;
        rect0 := rect.(h := height0);
        rect1 := rect.(y := rect.y + height0, h := rect.h - height0);
      }
      assert rect0 == FirstPart(rect, s.dir, s.ratio) && rect1 == SecondPart(rect, s.dir, s.ratio);
      var visits0 := LayoutFrom(nodes[node].child0, rect0, s.first, s.at);
      var visits1 := LayoutFrom(nodes[node].child1, rect1, s.second, s.at);
      return visits0 + visits1;
    }
  }
}
