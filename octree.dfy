/** The sparse voxel octree: an append-only arena of nodes whose element 0 is
    the root. `Insert` first regrows the root until the point fits, then
    descends from the root, appending a node wherever the slot on the way
    is empty, and writes the colour into slot 0 of the leaf. */
module Octree {
  import opened Nodes
  import opened Descent
  import opened Tree
  import opened Growth
  import opened Insertion

  class Octree {
    /** The arena; index 0 is the root. */
    var nodes: seq<Node>
    /** The depth of every node below the root (root at 0). */
    ghost var depth: seq<nat>

    /** The arena is well formed by depth, the root level is between 1 and
        `MaxLevel`, the stored sizes never exceed the true levels, and no
        node hangs in two slots. */
    ghost predicate Valid()
      reads this
    {
      |nodes| >= 1 && 1 <= nodes[0].size <= MaxLevel &&
      Shaped(nodes, depth, nodes[0].size) && Sized(nodes, depth, nodes[0].size) &&
      Unique(nodes, depth, nodes[0].size)
    }

    /** `Octree(size)`: an arena holding only the root, with every octant empty. */
    constructor (size: uchar)
      requires 1 <= size <= MaxLevel
      ensures Valid()
      ensures nodes == [Node(size, NoChildren)]
    {
      var root := MakeBareNode(size);
      assert root.children == NoChildren;
      nodes := [root];
      depth := [0];
    }

    /** The `for` loop of one round of `resizeToFit`: every occupied root
        slot, in order, gets the index of a new wrapper of stored size `size`
        that holds the old child in the opposite octant. */
    method WrapRootChildren(size: uchar)
      requires |nodes| >= 1 && |nodes| + 8 < 0x1_0000_0000
      modifies this
      ensures depth == old(depth)
      ensures nodes == WrapFrom(old(nodes), 0, size)
    {
      for i := 0 to 8
        invariant |old(nodes)| <= |nodes| <= |old(nodes)| + i
        invariant WrapFrom(nodes, i, size) == WrapFrom(old(nodes), 0, size) && depth == old(depth)
      {
        var globalChildIndex := nodes[0].children[i];
        if globalChildIndex != Empty {
          ghost var prev := nodes;
          var node := MakeBareNode(size);
          assert node == Node(size, NoChildren);
          node := node.(children := node.children[7 - i := globalChildIndex]);
          nodes := nodes[0 := nodes[0].(children := nodes[0].children[i := |nodes|])];
          nodes := nodes + [node];
          assert nodes == WrapSlot(prev, i, size);
        }
      }
    }

    /** One round of the growth loop of `resizeToFit`: wrap the root's
        children, then raise the root one level. */
    method GrowRound(size: uchar)
      requires |nodes| >= 1 && |nodes| + 8 < 0x1_0000_0000 && nodes[0].size < 0xFF
      modifies this
      ensures depth == old(depth)
      ensures nodes == Round(old(nodes), size)
    {
      WrapRootChildren(size);
      nodes := nodes[0 := nodes[0].(size := nodes[0].size + 1)];
    }

    /** The `while` loop of `resizeToFit`: while the point lies outside the
        root's cube, run a round of regrowth. The arena becomes `Regrow` of the
        old one by the `n` levels gained, every wrapper getting the root level
        the call started with, and the root rises no further than the point
        needs. */
    method GrowUntilFits(x: int, y: int, z: int) returns (ghost n: nat)
      requires |nodes| >= 1 && 1 <= nodes[0].size <= MaxLevel
      requires InRange(Point(x, y, z)) && |nodes| + MaxAppend < 0x1_0000_0000
      modifies this
      ensures depth == old(depth) && old(nodes[0].size) + n <= MaxLevel
      ensures nodes == Regrow(old(nodes), old(nodes[0].size), n)
      ensures FirstFit(Point(x, y, z), old(nodes[0].size), nodes[0].size)
    {
      var size := nodes[0].size;
      var halfSize: int := Pow2(size - 1);
      ghost var level: nat := size;
      n := 0;
      while x < -halfSize || halfSize <= x || y < -halfSize || halfSize <= y || z < -halfSize || halfSize <= z
        invariant |nodes| >= 1 && size == old(nodes[0].size) && level == nodes[0].size
        invariant level == size + n <= MaxLevel && halfSize == Half(level)
        invariant n > 0 ==> !Fits(Point(x, y, z), level - 1)
        invariant nodes == Regrow(old(nodes), size, n) && depth == old(depth)
        decreases MaxLevel - n
      {
        ghost var lo := level;
        assert !Fits(Point(x, y, z), lo);
        OutsideBelowMax(Point(x, y, z), lo);
        ghost var k := n;
        GrowRound(size);
        n, level := n + 1, level + 1;
        RegrowUnfold(old(nodes), size, k, n);
        LevelUp(Point(x, y, z), lo, level);
        halfSize := halfSize * 2;
      }
      assert FirstFit(Point(x, y, z), size, level);
    }

    /** `resizeToFit`: the root is raised `n` levels, to the first level
        whose cube holds the point, and the arena stays well formed with
        every old node `n` levels deeper. Every node appended is a wrapper
        whose stored size is the root level the call started with, every
        voxel of the old cube keeps its colour, and a point that already fit
        leaves the arena as it was. */
    method ResizeToFit(x: int, y: int, z: int) returns (ghost n: nat)
      requires Valid() && InRange(Point(x, y, z))
      requires |nodes| + MaxAppend < 0x1_0000_0000
      modifies this
      ensures Valid() && nodes[0].size == old(nodes[0].size) + n
      ensures FirstFit(Point(x, y, z), old(nodes[0].size), nodes[0].size)
      ensures nodes == Regrow(old(nodes), old(nodes[0].size), n)
      ensures depth == RegrowDepth(old(nodes), old(depth), old(nodes[0].size), n)
      ensures Fits(Point(x, y, z), old(nodes[0].size)) ==> nodes == old(nodes) && depth == old(depth)
      ensures forall m :: old(|nodes|) <= m < |nodes| ==> nodes[m].size == old(nodes[0].size)
      ensures forall p :: Fits(p, old(nodes[0].size)) ==> Lookup(nodes, p) == Lookup(old(nodes), p)
      ensures forall p :: Fits(p, nodes[0].size) && !Fits(p, old(nodes[0].size)) ==> Lookup(nodes, p) == None
    {
      n := GrowUntilFits(x, y, z);
      depth := RegrowDepth(old(nodes), old(depth), old(nodes[0].size), n);
      RegrowShape(old(nodes), old(depth), old(nodes[0].size), n, nodes[0].size);
      RegrowKeeps(old(nodes), old(depth), old(nodes[0].size), n, Point(x, y, z), nodes[0].size);
    }

    /** One pass of `insert`'s descent loop from node `cur` of stored size
        `size`, the point at `(x, y, z)` relative to its centre: pick the
        octant, append a bare node of size `size - 1` and store its index in
        the slot when the slot is empty, move to the child, lower the size and
        re-centre the point on the child. The descent state moves one level
        down, into that child. */
    method DescendStep(cur: nat, size: uchar, x: int, y: int, z: int, ghost mid: seq<Node>,
                       ghost midDepth: seq<nat>, ghost level: nat, ghost q: Point)
      returns (child: nat, below: uchar, rx: int, ry: int, rz: int)
      requires Descending(nodes, depth, mid, midDepth, level, q, size, cur, Point(x, y, z))
      requires Unique(nodes, depth, level) && Fits(q, level)
      requires size > 0 && |nodes| < 0x8000_0000
      modifies this
      ensures below == size - 1
      ensures Descending(nodes, depth, mid, midDepth, level, q, below, child, Point(rx, ry, rz))
      ensures Unique(nodes, depth, level)
      ensures forall r :: Fits(r, level) && r != q ==> Lookup(nodes, r) == Lookup(old(nodes), r)
      ensures old(nodes[cur].children[Octant(Point(x, y, z))]) == Empty ==>
                nodes == Attach(old(nodes), cur, Octant(Point(x, y, z)), below)
      ensures old(nodes[cur].children[Octant(Point(x, y, z))]) != Empty ==> nodes == old(nodes)
    {
      ghost var p := Point(x, y, z);
      var octant := Octant(Point(x, y, z));
      below := size - 1;
      var childGlobalIndex: int32 := nodes[cur].children[octant];
      ghost var before, beforeDepth := nodes, depth;
      if childGlobalIndex == Empty {
        var newIndex: uint := |nodes|;
        nodes := nodes[cur := nodes[cur].(children := nodes[cur].children[octant := newIndex])];
        var bare := MakeBareNode(below);
        assert bare == Node(below, NoChildren);
        nodes := nodes + [bare];
        depth := depth + [level - below];
        childGlobalIndex := newIndex;
        child := childGlobalIndex;
        DescendAttach(before, beforeDepth, mid, midDepth, level, q, size, below, cur, p, nodes, depth, child);
        AttachKeepsVoxels(before, beforeDepth, level, q, size, below, cur, p, nodes, depth);
      } else {
        child := childGlobalIndex;
        DescendExisting(nodes, depth, mid, midDepth, level, q, size, below, cur, p, child);
      }
      rx, ry, rz := RecentreCoords(x, y, z, below);
    }

    /** The descent loop of `insert`: from the root, step into the point's
        octant until the leaf level, attaching a bare node wherever the slot
        is empty. It ends at a leaf of the arena that the descent state of
        `Descending` ties to the arena it started from. */
    method DescendToLeaf(x: int, y: int, z: int) returns (cur: nat, ghost p: Point)
      requires Valid() && Fits(Point(x, y, z), nodes[0].size)
      requires |nodes| + MaxLevel < 0x8000_0000
      modifies this
      ensures Descending(nodes, depth, old(nodes), old(depth), old(nodes[0].size), Point(x, y, z), 0, cur, p)
      ensures Unique(nodes, depth, old(nodes[0].size))
      ensures forall r :: Fits(r, old(nodes[0].size)) && r != Point(x, y, z) ==> Lookup(nodes, r) == Lookup(old(nodes), r)
    {
      ghost var mid, midDepth := nodes, depth;
      ghost var q := Point(x, y, z);
      var size := nodes[0].size;
      ghost var level: nat := size;
      cur := 0;
      var px, py, pz := x, y, z;
      StartDescent(mid, midDepth, level, q);
      while size > 0
        invariant 0 <= size <= level && |nodes| <= |mid| + (level - size)
        invariant Descending(nodes, depth, mid, midDepth, level, q, size, cur, Point(px, py, pz))
        invariant Unique(nodes, depth, level)
        invariant forall r :: Fits(r, level) && r != q ==> Lookup(nodes, r) == Lookup(mid, r)
        decreases size
      {
        cur, size, px, py, pz := DescendStep(cur, size, px, py, pz, mid, midDepth, level, q);
      }
      p := Point(px, py, pz);
    }

    /** Lines 15-44 of `insert`, once the root holds the point: descend to
        the leaf and write `color` into its slot 0. The arena is stated
        against `a`, the arena before the `gained` rounds of regrowth that
        brought the root from level `start` to the first level holding the
        point. */
    method DescendAndPaint(x: int, y: int, z: int, color: uint, ghost a: seq<Node>, ghost aDepth: seq<nat>,
                           ghost start: nat, ghost gained: nat)
      requires Valid() && 1 <= |a| && |aDepth| == |a| && start == a[0].size && 1 <= start && start + gained <= MaxLevel
      requires |a| + 8 * gained + MaxLevel < 0x8000_0000
      requires Regrown(a, aDepth, start, gained, nodes, depth)
      requires FirstFit(Point(x, y, z), start, nodes[0].size)
      modifies this
      ensures Valid() && nodes[0].size == old(nodes[0].size) && FirstFit(Point(x, y, z), start, nodes[0].size)
      ensures Lookup(nodes, Point(x, y, z)) == Some(color)
      ensures |a| <= |nodes| <= |a| + 8 * gained + start + gained
      ensures Fits(Point(x, y, z), start) ==> |nodes| == |a| + start - PathLength(a, 0, start, Point(x, y, z))
      ensures forall j :: 0 <= j < 8 ==> nodes[0].children[j] == a[0].children[j] || nodes[0].children[j] >= |a|
      ensures forall m :: 0 < m < |a| ==> Retained(a[m], nodes[m], |a|, m == LeafOf(nodes, Point(x, y, z)))
      ensures forall m :: |a| <= m < |nodes| ==> nodes[m].size == start || nodes[m].size + depth[m] == nodes[0].size
      ensures forall r :: Fits(r, nodes[0].size) && r != Point(x, y, z) ==> Lookup(nodes, r) == Lookup(old(nodes), r)
    {
      ghost var level: nat := nodes[0].size;
      ghost var mid, midDepth := nodes, depth;
      var cur;
      ghost var p;
      cur, p := DescendToLeaf(x, y, z);
      ghost var before := nodes;
      nodes := nodes[cur := nodes[cur].(children := nodes[cur].children[0 := color])];
      InsertOutcome(a, aDepth, start, gained, mid, midDepth, before, depth, level, Point(x, y, z), cur, p, color, nodes);
      PaintKeepsVoxels(before, depth, mid, midDepth, level, Point(x, y, z), cur, p, color, nodes);
    }

    /** `insert(x, y, z, color)`: regrow until the point fits, then descend
        from the root, appending a bare node of the next level down wherever
        the slot on the way is empty, and write `color` into slot 0 of the leaf. */
    method Insert(x: int, y: int, z: int, color: uint)
      requires Valid() && InRange(Point(x, y, z))
      requires |nodes| + MaxAppend < 0x8000_0000
      modifies this
      ensures Valid()
      ensures Lookup(nodes, Point(x, y, z)) == Some(color)
      ensures old(nodes[0].size) <= nodes[0].size
      ensures FirstFit(Point(x, y, z), old(nodes[0].size), nodes[0].size)
      ensures old(|nodes|) <= |nodes| <= old(|nodes|) + MaxAppend
      ensures Fits(Point(x, y, z), old(nodes[0].size)) ==>
                |nodes| == old(|nodes|) + old(nodes[0].size) - PathLength(old(nodes), 0, old(nodes[0].size), Point(x, y, z))
      ensures forall j :: 0 <= j < 8 ==>
                nodes[0].children[j] == old(nodes[0].children[j]) || nodes[0].children[j] >= old(|nodes|)
      ensures forall m :: 0 < m < old(|nodes|) ==>
                Retained(old(nodes[m]), nodes[m], old(|nodes|), m == LeafOf(nodes, Point(x, y, z)))
      ensures forall m :: old(|nodes|) <= m < |nodes| ==>
                nodes[m].size == old(nodes[0].size) || nodes[m].size + depth[m] == nodes[0].size
      ensures forall p :: Fits(p, old(nodes[0].size)) && p != Point(x, y, z) ==>
                Lookup(nodes, p) == Lookup(old(nodes), p)
      ensures forall p :: Fits(p, nodes[0].size) && !Fits(p, old(nodes[0].size)) && p != Point(x, y, z) ==>
                Lookup(nodes, p) == None
    {
      ghost var gained := ResizeToFit(x, y, z);
      ghost var grown := nodes;
      DescendAndPaint(x, y, z, color, old(nodes), old(depth), old(nodes[0].size), gained);
      forall p | Fits(p, old(nodes[0].size)) && p != Point(x, y, z)
        ensures Lookup(nodes, p) == Lookup(old(nodes), p)
      {
        FitsWider(p, old(nodes[0].size), nodes[0].size);
        assert Lookup(nodes, p) == Lookup(grown, p);
      }
      assert forall p :: Fits(p, nodes[0].size) && p != Point(x, y, z) ==> Lookup(nodes, p) == Lookup(grown, p);
    }

    /** `getNodes`: a copy of the whole arena in arena order. Index 0 is the
        root and every non-empty slot above the leaves is an index into the copy. */
    method GetNodes() returns (snapshot: seq<Node>)
      requires Valid()
      ensures snapshot == nodes
      ensures Shaped(snapshot, depth, snapshot[0].size)
      ensures forall k, j :: 0 <= k < |snapshot| && depth[k] < snapshot[0].size && 0 <= j < 8 &&
                             snapshot[k].children[j] != Empty ==>
                0 < snapshot[k].children[j] < |snapshot|
    {
      snapshot := nodes;
    }
  }
}
