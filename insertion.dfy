/** The descent of `insert`, as a state on the arena: how far the descent
    has gone, what it has appended, and why each step keeps the arena well
    formed; and what painting the leaf and a whole insertion leave of the
    arena they started from. */
module Insertion {
  import opened Nodes
  import opened Descent
  import opened Tree
  import opened Growth

  /** The most nodes one `Insert` appends: eight wrappers for each level the
      root gains and one node for each level of the descent. */
  const MaxAppend: nat := 9 * MaxLevel

  /** Node `b` is node `a` with, at most, empty slots filled with indices from
      `firstNew` on, and, when `leaf` holds, its colour slot rewritten. */
  ghost predicate Retained(a: Node, b: Node, firstNew: nat, leaf: bool) {
    b.size == a.size &&
    forall j :: 0 <= j < 8 ==>
      b.children[j] == a.children[j] ||
      (a.children[j] == Empty && b.children[j] >= firstNew) ||
      (leaf && j == 0)
  }

  /** The state of `insert`'s descent loop after `level - size` steps from the
      root of `mid`, the arena as regrowth left it: the arena is well formed,
      `cur` is the node those steps reach, at depth `level - size`; nodes of
      `mid` changed only by having empty slots filled; while the steps stay
      on the path `mid` already has nothing is appended, and past it one bare
      node per step has been appended, the last of them being `cur`. */
  ghost predicate Descending(nodes: seq<Node>, depth: seq<nat>, mid: seq<Node>, midDepth: seq<nat>,
                             level: nat, q: Point, size: nat, cur: nat, p: Point)
  {
    1 <= level <= MaxLevel && size <= level &&
    |mid| >= 1 && |midDepth| == |mid| && |nodes| >= |mid| &&
    Shaped(nodes, depth, level) && Sized(nodes, depth, level) && nodes[0].size == level &&
    cur < |nodes| && depth[cur] == level - size &&
    Walk(nodes, 0, level, q, level - size) == Some(Visit(cur, p)) &&
    (forall m :: 0 <= m < |mid| ==> Retained(mid[m], nodes[m], |mid|, false) && depth[m] == midDepth[m]) &&
    (forall m :: |mid| <= m < |nodes| ==> nodes[m].size + depth[m] == level) &&
    var reach := PathLength(mid, 0, level, q);
    (level - size <= reach ==> nodes == mid && depth == midDepth) &&
    (level - size > reach ==> |nodes| == |mid| + (level - size - reach) && cur == |nodes| - 1 && IsBare(nodes[cur]))
  }

  /** Before the first step the descent stands at the root of `mid`. */
  lemma StartDescent(mid: seq<Node>, midDepth: seq<nat>, level: nat, q: Point)
    requires Shaped(mid, midDepth, level) && Sized(mid, midDepth, level)
    requires 1 <= level <= MaxLevel && mid[0].size == level
    ensures Descending(mid, midDepth, mid, midDepth, level, q, level, 0, q)
  {
    forall m | 0 <= m < |mid|
      ensures Retained(mid[m], mid[m], |mid|, false)
    {
    }
  }

  /** A step into an existing child, from a node of level `size` to one of
      level `below`, appends nothing. */
  lemma DescendExisting(nodes: seq<Node>, depth: seq<nat>, mid: seq<Node>, midDepth: seq<nat>,
                        level: nat, q: Point, size: nat, below: nat, cur: nat, p: Point, next: nat)
    requires Descending(nodes, depth, mid, midDepth, level, q, size, cur, p) && size > 0 && below == size - 1
    requires next == nodes[cur].children[Octant(p)] && next != Empty
    ensures Descending(nodes, depth, mid, midDepth, level, q, below, next, Recentre(p, below))
  {
    WalkSnoc(nodes, 0, level, q, level - size, level - below, size);
    assert Linked(nodes, depth, cur, next);
    ExistingWithinPath(nodes, depth, mid, midDepth, level, q, size, below, cur, p, next);
  }

  /** An existing child lies on the path `mid` already had: the descent has
      not yet left that path. */
  lemma {:induction false} ExistingWithinPath(nodes: seq<Node>, depth: seq<nat>, mid: seq<Node>, midDepth: seq<nat>,
                                              level: nat, q: Point, size: nat, below: nat, cur: nat, p: Point, next: nat)
    requires Descending(nodes, depth, mid, midDepth, level, q, size, cur, p) && size > 0 && below == size - 1
    requires next == nodes[cur].children[Octant(p)] && next != Empty
    ensures level - size < PathLength(mid, 0, level, q)
  {
    var steps := level - size;
    var reach := PathLength(mid, 0, level, q);
    if steps >= reach {
      if steps == reach {
        WalkSnoc(mid, 0, level, q, steps, level - below, size);
        WalkWithinPath(mid, 0, level, q, level - below);
      }
      assert false;
    }
  }

  /** A step into an empty slot appends one bare node one level down. */
  lemma DescendAttach(nodes: seq<Node>, depth: seq<nat>, mid: seq<Node>, midDepth: seq<nat>,
                      level: nat, q: Point, size: nat, below: nat, cur: nat, p: Point,
                      after: seq<Node>, afterDepth: seq<nat>, next: nat)
    requires Descending(nodes, depth, mid, midDepth, level, q, size, cur, p) && size > 0 && below == size - 1
    requires nodes[cur].children[Octant(p)] == Empty && |nodes| < 0x1_0000_0000
    requires after == Attach(nodes, cur, Octant(p), below) && afterDepth == depth + [level - below]
    requires next == |nodes|
    ensures Descending(after, afterDepth, mid, midDepth, level, q, below, next, Recentre(p, below))
  {
    var steps := level - size;
    AttachKeepsShape(nodes, depth, level, cur, Octant(p), q, steps, below, after, afterDepth);
    AttachStep(nodes, level, q, size, below, cur, p, after, next);
    AttachCount(nodes, depth, mid, midDepth, level, q, size, below, cur, p, after, next);
    AttachFrame(nodes, depth, mid, midDepth, level, q, size, below, cur, p, after, afterDepth);
  }

  /** After the attach, the descent takes one more step, into the new node. */
  lemma AttachStep(nodes: seq<Node>, level: nat, q: Point, size: nat, below: nat, cur: nat, p: Point,
                   after: seq<Node>, next: nat)
    requires cur < |nodes| < 0x1_0000_0000 && 1 <= size <= level <= MaxLevel && below == size - 1
    requires nodes[cur].children[Octant(p)] == Empty
    requires after == Attach(nodes, cur, Octant(p), below) && next == |nodes|
    requires Walk(after, 0, level, q, level - size) == Some(Visit(cur, p))
    ensures Walk(after, 0, level, q, level - below) == Some(Visit(next, Recentre(p, below)))
  {
    assert after[cur].children[Octant(p)] == next < |after|;
    WalkSnoc(after, 0, level, q, level - size, level - below, size);
  }

  /** The attach happens past the end of the path `mid` already had, so the
      new node is the last of those appended, one per step past that end. */
  lemma {:induction false} AttachCount(nodes: seq<Node>, depth: seq<nat>, mid: seq<Node>, midDepth: seq<nat>,
                                       level: nat, q: Point, size: nat, below: nat, cur: nat, p: Point,
                                       after: seq<Node>, next: nat)
    requires Descending(nodes, depth, mid, midDepth, level, q, size, cur, p) && size > 0 && below == size - 1
    requires nodes[cur].children[Octant(p)] == Empty && |nodes| < 0x1_0000_0000
    requires after == Attach(nodes, cur, Octant(p), below) && next == |nodes|
    ensures level - below > PathLength(mid, 0, level, q)
    ensures |after| == |mid| + (level - below - PathLength(mid, 0, level, q))
    ensures next == |after| - 1 && IsBare(after[next])
  {
    var steps := level - size;
    var reach := PathLength(mid, 0, level, q);
    if steps < reach {
      WalkSnoc(mid, 0, level, q, steps, level - below, size);
      WalkWithinPath(mid, 0, level, q, level - below);
      assert false;
    }
  }

  /** After the attach, the nodes of `mid` are still retained, and every
      appended node sits where its stored size says. */
  lemma AttachFrame(nodes: seq<Node>, depth: seq<nat>, mid: seq<Node>, midDepth: seq<nat>,
                    level: nat, q: Point, size: nat, below: nat, cur: nat, p: Point,
                    after: seq<Node>, afterDepth: seq<nat>)
    requires Descending(nodes, depth, mid, midDepth, level, q, size, cur, p) && size > 0 && below == size - 1
    requires nodes[cur].children[Octant(p)] == Empty && |nodes| < 0x1_0000_0000
    requires after == Attach(nodes, cur, Octant(p), below) && afterDepth == depth + [level - below]
    ensures forall m :: 0 <= m < |mid| ==> Retained(mid[m], after[m], |mid|, false) && afterDepth[m] == midDepth[m]
    ensures forall m :: |mid| <= m < |after| ==> after[m].size + afterDepth[m] == level
  {
    forall m | 0 <= m < |mid|
      ensures Retained(mid[m], after[m], |mid|, false) && afterDepth[m] == midDepth[m]
    {
      assert Retained(mid[m], nodes[m], |mid|, false);
    }
  }

  /** When the descent has reached the leaf of a point already inside the
      root's cube, it has appended one node for each level below the end of
      the path the arena `a` already had. */
  lemma DescentCount(nodes: seq<Node>, depth: seq<nat>, mid: seq<Node>, midDepth: seq<nat>,
                     level: nat, q: Point, cur: nat, p: Point, a: seq<Node>, start: nat)
    requires Descending(nodes, depth, mid, midDepth, level, q, 0, cur, p)
    requires a == mid && start == level
    ensures |nodes| == |a| + start - PathLength(a, 0, start, q)
  {
  }

  /** A root with every octant empty has no path below it, so the first
      insertion of a point of its cube appends one node per level. */
  lemma FreshPath(size: uchar, p: Point)
    ensures PathLength([Node(size, NoChildren)], 0, size, p) == 0
  {
  }

  /** The arena after the colour is written into slot 0 of leaf `cur`. */
  function Paint(a: seq<Node>, cur: nat, color: uint): seq<Node>
    requires cur < |a|
  {
    a[cur := a[cur].(children := a[cur].children[0 := color])]
  }

  /** When the descent has reached the leaf, writing the colour there makes
      the lookup of the inserted point find it, and keeps the arena well formed. */
  lemma PaintLeaf(nodes: seq<Node>, depth: seq<nat>, mid: seq<Node>, midDepth: seq<nat>,
                  level: nat, q: Point, cur: nat, p: Point, color: uint)
    requires Descending(nodes, depth, mid, midDepth, level, q, 0, cur, p)
    ensures Shaped(Paint(nodes, cur, color), depth, level) && Sized(Paint(nodes, cur, color), depth, level)
    ensures Paint(nodes, cur, color)[0] == nodes[0]
    ensures Walk(Paint(nodes, cur, color), 0, level, q, level) == Some(Visit(cur, p))
    ensures Lookup(Paint(nodes, cur, color), q) == Some(color)
  {
    var b := Paint(nodes, cur, color);
    forall k, j | 0 <= k < |b| && depth[k] < level && 0 <= j < 8
      ensures Linked(b, depth, k, b[k].children[j])
    {
      assert Linked(nodes, depth, k, nodes[k].children[j]);
    }
    WalkAgree(nodes, b, depth, level, level, 0, 0, level, q, level);
  }

  /** Writing the colour into slot 0 of the leaf `cur` that the descent of
      `q` reached changes no slot above the leaves, so the arena stays a
      tree, and changes the lookup of no other voxel of the cube: in a tree
      no other voxel's descent ends at that leaf. */
  lemma PaintKeepsVoxels(nodes: seq<Node>, depth: seq<nat>, mid: seq<Node>, midDepth: seq<nat>,
                         level: nat, q: Point, cur: nat, p: Point, color: uint, b: seq<Node>)
    requires Descending(nodes, depth, mid, midDepth, level, q, 0, cur, p)
    requires Unique(nodes, depth, level) && Fits(q, level)
    requires b == Paint(nodes, cur, color)
    ensures Unique(b, depth, level)
    ensures forall r :: Fits(r, level) && r != q ==> Lookup(b, r) == Lookup(nodes, r)
  {
    forall k1, j1, k2, j2 | 0 <= k1 < |b| && 0 <= k2 < |b| && depth[k1] < level && depth[k2] < level &&
                            0 <= j1 < 8 && 0 <= j2 < 8 &&
                            Holds(b, k1, j1) != Empty && Holds(b, k1, j1) == Holds(b, k2, j2)
      ensures k1 == k2 && j1 == j2
    {
      assert Holds(nodes, k1, j1) == Holds(nodes, k2, j2);
    }
    forall r | Fits(r, level) && r != q
      ensures Lookup(b, r) == Lookup(nodes, r)
    {
      PaintKeepsOther(nodes, depth, level, q, cur, color, b, r);
    }
  }

  /** The lookup of one voxel `r` other than `q` after the paint. */
  lemma PaintKeepsOther(nodes: seq<Node>, depth: seq<nat>, level: nat, q: Point, cur: nat,
                        color: uint, b: seq<Node>, r: Point)
    requires Shaped(nodes, depth, level) && Unique(nodes, depth, level) && nodes[0].size == level >= 1
    requires cur < |nodes| && depth[cur] == level && Fits(q, level)
    requires Walk(nodes, 0, level, q, level).Some? && Walk(nodes, 0, level, q, level).value.index == cur
    requires b == Paint(nodes, cur, color)
    requires Fits(r, level) && r != q
    ensures Lookup(b, r) == Lookup(nodes, r)
  {
    LookupAt(nodes, r, level);
    LookupAt(b, r, level);
    forall m | 0 <= m < |nodes| && depth[m] < level
      ensures b[m].children == nodes[m].children
    {
    }
    WalkAgree(nodes, b, depth, level, level, 0, 0, level, r, level);
    var e := Walk(nodes, 0, level, r, level);
    if e.Some? && e.value.index == cur {
      LeafInjective(nodes, depth, level, r, q);
    }
  }

  /** The re-centring at the end of each step of `insert`'s descent, once
      `size` has been lowered to the child's level: each coordinate moves by
      the child's half edge `1u << (size - 1)` toward the child's centre.
      At a leaf (`size == 0`) the coordinates are left as they are. */
  method RecentreCoords(x: int, y: int, z: int, size: nat) returns (rx: int, ry: int, rz: int)
    ensures Point(rx, ry, rz) == Recentre(Point(x, y, z), size)
  {
    rx, ry, rz := x, y, z;
    if size > 0 {
      var realSize := Pow2(size - 1);
      rx := if x < 0 then x + realSize else x - realSize;
      ry := if y < 0 then y + realSize else y - realSize;
      rz := if z < 0 then z + realSize else z - realSize;
    }
  }

  /** What a whole `insert` leaves of the arena `a` it started from, with
      root level `start`: `gained` rounds of regrowth, then a descent that
      ended at leaf `cur`, whose colour slot was then painted. The arena grew
      by at most eight nodes per round and one per level; every root slot is
      unchanged or points at a new node; every other old node kept its slots
      except that empty ones were filled with new indices (and slot 0 of the
      leaf `cur` was painted); every new node is a wrapper of stored size `start`
      or sits where its stored size says. */
  lemma InsertFrame(a: seq<Node>, aDepth: seq<nat>, start: nat, gained: nat, mid: seq<Node>, midDepth: seq<nat>,
                    nodes: seq<Node>, depth: seq<nat>, level: nat, q: Point, cur: nat, p: Point,
                    color: uint, b: seq<Node>)
    requires 1 <= |a| && |aDepth| == |a| && start == a[0].size && level == start + gained
    requires start + gained < 0x100 && |a| + 8 * gained < 0x1_0000_0000
    requires Regrown(a, aDepth, start, gained, mid, midDepth)
    requires Descending(nodes, depth, mid, midDepth, level, q, 0, cur, p)
    requires b == Paint(nodes, cur, color)
    ensures |a| <= |b| <= |a| + 8 * gained + level
    ensures forall j :: 0 <= j < 8 ==> b[0].children[j] == a[0].children[j] || b[0].children[j] >= |a|
    ensures forall m :: 0 < m < |a| ==> Retained(a[m], b[m], |a|, m == cur)
    ensures forall m :: |a| <= m < |b| ==> b[m].size == start || b[m].size + depth[m] == b[0].size
  {
    RegrowFrame(a, aDepth, start, gained);
    assert Retained(mid[0], nodes[0], |mid|, false);
    forall m | 0 < m < |a|
      ensures Retained(a[m], b[m], |a|, m == cur)
    {
      assert Retained(mid[m], nodes[m], |mid|, false);
    }
    forall m | |a| <= m < |b|
      ensures b[m].size == start || b[m].size + depth[m] == b[0].size
    {
      if m < |mid| {
        assert Retained(mid[m], nodes[m], |mid|, false);
      }
    }
  }

  /** The outcome of `insert` once the descent has reached the leaf and the
      leaf has been painted: the arena is well formed, the point's lookup
      finds the colour, and the frame of `InsertFrame` holds. When the point
      already fit (no regrowth), exactly one node was appended for each level
      below the end of the path the arena already had. */
  lemma InsertOutcome(a: seq<Node>, aDepth: seq<nat>, start: nat, gained: nat, mid: seq<Node>, midDepth: seq<nat>,
                      nodes: seq<Node>, depth: seq<nat>, level: nat, q: Point, cur: nat, p: Point,
                      color: uint, b: seq<Node>)
    requires 1 <= |a| && |aDepth| == |a| && start == a[0].size && level == start + gained
    requires start + gained < 0x100 && |a| + 8 * gained < 0x1_0000_0000
    requires Regrown(a, aDepth, start, gained, mid, midDepth)
    requires Descending(nodes, depth, mid, midDepth, level, q, 0, cur, p)
    requires 1 <= start && FirstFit(q, start, level)
    requires b == Paint(nodes, cur, color)
    ensures |b| >= 1 && b[0].size == level
    ensures Shaped(b, depth, level) && Sized(b, depth, level)
    ensures Lookup(b, q) == Some(color) && LeafOf(b, q) == cur
    ensures |a| <= |b| <= |a| + 8 * gained + level
    ensures Fits(q, start) ==> |b| == |a| + start - PathLength(a, 0, start, q)
    ensures forall j :: 0 <= j < 8 ==> b[0].children[j] == a[0].children[j] || b[0].children[j] >= |a|
    ensures forall m :: 0 < m < |a| ==> Retained(a[m], b[m], |a|, m == LeafOf(b, q))
    ensures forall m :: |a| <= m < |b| ==> b[m].size == start || b[m].size + depth[m] == b[0].size
  {
    PaintLeaf(nodes, depth, mid, midDepth, level, q, cur, p, color);
    InsertFrame(a, aDepth, start, gained, mid, midDepth, nodes, depth, level, q, cur, p, color, b);
    FirstFitAtStart(q, start, level);
    if Fits(q, start) {
      RegrowNone(a, start, gained);
      DescentCount(nodes, depth, mid, midDepth, level, q, cur, p, a, start);
    }
  }
}
