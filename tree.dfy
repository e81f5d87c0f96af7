/** The arena is a tree: no node hangs in two slots. With that, two descents
    that reach the same node at the same place started from the same point,
    and `insert`'s descent can be shown to leave every other voxel alone. */
module Tree {
  import opened Nodes
  import opened Descent

  /** Slot `j` of node `k`. */
  function Holds(nodes: seq<Node>, k: nat, j: nat): uint
    requires k < |nodes| && j < 8
  {
    nodes[k].children[j]
  }

  /** Every occupied slot above the leaves names a node that no other slot
      names: each node below the root has at most one parent slot. */
  ghost predicate Unique(nodes: seq<Node>, depth: seq<nat>, level: nat)
    requires |depth| == |nodes|
  {
    forall k1, j1, k2, j2 {:trigger Holds(nodes, k1, j1), Holds(nodes, k2, j2)} ::
      0 <= k1 < |nodes| && 0 <= k2 < |nodes| && depth[k1] < level && depth[k2] < level &&
      0 <= j1 < 8 && 0 <= j2 < 8 &&
      Holds(nodes, k1, j1) != Empty && Holds(nodes, k1, j1) == Holds(nodes, k2, j2) ==>
      k1 == k2 && j1 == j2
  }

  // ---------------------------------------------------------------------
  // Geometry

  /** The cube of a node of level 1 holds one voxel per octant. */
  lemma OctantAtOne(x: Point, y: Point)
    requires Fits(x, 1) && Fits(y, 1) && Octant(x) == Octant(y)
    ensures x == y
  {
    assert Half(1) == 1;
  }

  /** Within one octant, re-centring is one-to-one. */
  lemma RecentreInjective(x: Point, y: Point, level: nat)
    requires Octant(x) == Octant(y) && Recentre(x, level) == Recentre(y, level)
    ensures x == y
  {
  }

  // ---------------------------------------------------------------------
  // Descents

  /** A descent that has reached node `m` at relative position `x` after
      `s` steps goes on from there: `s + t` steps are `t` more from `m`. */
  lemma {:induction false} WalkSplit(nodes: seq<Node>, n: nat, level: nat, p: Point, s: nat, t: nat, total: nat,
                                     m: nat, x: Point)
    requires n < |nodes| && total == s + t <= level
    requires Walk(nodes, n, level, p, s) == Some(Visit(m, x))
    ensures Walk(nodes, n, level, p, total) == Walk(nodes, m, level - s, x, t)
    decreases s
  {
    if s > 0 {
      var c := nodes[n].children[Octant(p)];
      WalkThrough(nodes, n, level, p, s, c);
      WalkThrough(nodes, n, level, p, total, c);
      WalkSplit(nodes, c, level - 1, Recentre(p, level - 1), s - 1, t, total - 1, m, x);
    }
  }

  /** A descent keeps the point inside the cube of the node it reached. */
  lemma {:induction false} WalkFits(nodes: seq<Node>, n: nat, level: nat, p: Point, s: nat)
    requires n < |nodes| && s < level && Fits(p, level) && Walk(nodes, n, level, p, s).Some?
    ensures Fits(Walk(nodes, n, level, p, s).value.at, level - s)
    decreases s
  {
    if s > 0 {
      var v := Step(nodes, n, level, p).value;
      RecentreFits(p, level - 1);
      WalkFits(nodes, v.index, level - 1, v.at, s - 1);
    }
  }

  /** `WalkDepth` from the root: `steps` steps reach depth `steps`. */
  lemma RootWalkDepth(nodes: seq<Node>, depth: seq<nat>, level: nat, p: Point, steps: nat)
    requires Shaped(nodes, depth, level) && steps <= level && Walk(nodes, 0, level, p, steps).Some?
    ensures depth[Walk(nodes, 0, level, p, steps).value.index] == steps
  {
    WalkDepth(nodes, depth, level, 0, p, steps);
  }

  /** In a tree, one step into a given child at a given place can only
      have come from one node and one relative position. */
  lemma StepInjective(nodes: seq<Node>, depth: seq<nat>, level: nat, m1: nat, x1: Point, m2: nat, x2: Point, size: nat)
    requires Shaped(nodes, depth, level) && Unique(nodes, depth, level)
    requires m1 < |nodes| && m2 < |nodes| && depth[m1] < level && depth[m2] < level && size >= 1
    requires Step(nodes, m1, size, x1).Some? && Step(nodes, m1, size, x1) == Step(nodes, m2, size, x2)
    ensures m1 == m2 && x1 == x2
  {
    assert Holds(nodes, m1, Octant(x1)) == Holds(nodes, m2, Octant(x2));
    RecentreInjective(x1, x2, size - 1);
  }

  /** A descent that takes `more` steps took `steps` steps first, and the
      last one is a `Step` from the node those reached. */
  lemma WalkLast(nodes: seq<Node>, n: nat, level: nat, p: Point, steps: nat, more: nat, size: nat)
    requires n < |nodes| && steps < level && more == steps + 1 && size == level - steps
    requires Walk(nodes, n, level, p, more).Some?
    ensures Walk(nodes, n, level, p, steps).Some?
    ensures Step(nodes, Walk(nodes, n, level, p, steps).value.index, size, Walk(nodes, n, level, p, steps).value.at)
            == Walk(nodes, n, level, p, more)
  {
    WalkSnoc(nodes, n, level, p, steps, more, size);
  }

  /** In a tree, two descents from the root that meet after `s` steps had
      already met one step earlier. */
  lemma WalkStepBack(nodes: seq<Node>, depth: seq<nat>, level: nat, p1: Point, p2: Point, s: nat)
    requires Shaped(nodes, depth, level) && Unique(nodes, depth, level) && 1 <= s <= level
    requires Walk(nodes, 0, level, p1, s).Some? && Walk(nodes, 0, level, p1, s) == Walk(nodes, 0, level, p2, s)
    ensures Walk(nodes, 0, level, p1, s - 1).Some?
    ensures Walk(nodes, 0, level, p1, s - 1) == Walk(nodes, 0, level, p2, s - 1)
  {
    var size := level - s + 1;
    WalkLast(nodes, 0, level, p1, s - 1, s, size);
    WalkLast(nodes, 0, level, p2, s - 1, s, size);
    var v1 := Walk(nodes, 0, level, p1, s - 1).value;
    var v2 := Walk(nodes, 0, level, p2, s - 1).value;
    RootWalkDepth(nodes, depth, level, p1, s - 1);
    RootWalkDepth(nodes, depth, level, p2, s - 1);
    StepInjective(nodes, depth, level, v1.index, v1.at, v2.index, v2.at, size);
  }

  /** In a tree, a descent from the root that reaches a node at a given
      place started from a single point. */
  lemma {:induction false} WalkInjective(nodes: seq<Node>, depth: seq<nat>, level: nat, p1: Point, p2: Point, s: nat)
    requires Shaped(nodes, depth, level) && Unique(nodes, depth, level) && s <= level
    requires Walk(nodes, 0, level, p1, s).Some? && Walk(nodes, 0, level, p1, s) == Walk(nodes, 0, level, p2, s)
    ensures p1 == p2
    decreases s
  {
    if s > 0 {
      WalkStepBack(nodes, depth, level, p1, p2, s);
      WalkInjective(nodes, depth, level, p1, p2, s - 1);
    }
  }

  /** In a tree, two voxels of the root's cube whose descents end at the same
      leaf are the same voxel. */
  lemma {:induction false} LeafInjective(nodes: seq<Node>, depth: seq<nat>, level: nat, p1: Point, p2: Point)
    requires Shaped(nodes, depth, level) && Unique(nodes, depth, level) && level >= 1
    requires Fits(p1, level) && Fits(p2, level)
    requires Walk(nodes, 0, level, p1, level).Some? && Walk(nodes, 0, level, p2, level).Some?
    requires Walk(nodes, 0, level, p1, level).value.index == Walk(nodes, 0, level, p2, level).value.index
    ensures p1 == p2
  {
    WalkLast(nodes, 0, level, p1, level - 1, level, 1);
    WalkLast(nodes, 0, level, p2, level - 1, level, 1);
    var v1 := Walk(nodes, 0, level, p1, level - 1).value;
    var v2 := Walk(nodes, 0, level, p2, level - 1).value;
    RootWalkDepth(nodes, depth, level, p1, level - 1);
    RootWalkDepth(nodes, depth, level, p2, level - 1);
    assert Holds(nodes, v1.index, Octant(v1.at)) == Holds(nodes, v2.index, Octant(v2.at));
    WalkFits(nodes, 0, level, p1, level - 1);
    WalkFits(nodes, 0, level, p2, level - 1);
    OctantAtOne(v1.at, v2.at);
    WalkInjective(nodes, depth, level, p1, p2, level - 1);
  }

  /** A descent that starts no higher than node `cur` and does not leave
      `cur` through slot `i` reads only slots that `b` keeps from `a`. */
  lemma {:induction false} WalkAgreeExcept(a: seq<Node>, b: seq<Node>, depth: seq<nat>, level: nat, cur: nat, i: nat,
                                           n: nat, size: nat, p: Point, steps: nat)
    requires Shaped(a, depth, level) && cur < |a| <= |b| && i < 8
    requires forall m :: 0 <= m < |a| && m != cur ==> b[m].children == a[m].children
    requires forall j :: 0 <= j < 8 && j != i ==> b[cur].children[j] == a[cur].children[j]
    requires n < |a| && depth[cur] <= depth[n] && (n != cur || Octant(p) != i)
    requires depth[n] + steps <= level && size == level - depth[n]
    ensures Walk(b, n, size, p, steps) == Walk(a, n, size, p, steps)
    decreases steps
  {
    if steps > 0 {
      var c := a[n].children[Octant(p)];
      assert Linked(a, depth, n, c);
      assert b[n].children[Octant(p)] == c;
      if c != Empty {
        WalkAgreeExcept(a, b, depth, level, cur, i, c, size - 1, Recentre(p, size - 1), steps - 1);
      }
    }
  }

  // ---------------------------------------------------------------------
  // One attach of insert's descent

  /** Filling an empty slot with the index of a new bare node keeps the
      arena a tree: the new index is named by that slot alone. */
  lemma AttachKeepsUnique(a: seq<Node>, depth: seq<nat>, level: nat, cur: nat, i: nat,
                          steps: nat, below: nat, b: seq<Node>, d: seq<nat>)
    requires Shaped(a, depth, level) && Unique(a, depth, level)
    requires cur < |a| < 0x1_0000_0000 && i < 8 && depth[cur] < level <= MaxLevel
    requires a[cur].children[i] == Empty
    requires steps == depth[cur] && below == level - steps - 1
    requires b == Attach(a, cur, i, below) && d == depth + [steps + 1]
    ensures Unique(b, d, level)
  {
    forall k1, j1, k2, j2 | 0 <= k1 < |b| && 0 <= k2 < |b| && d[k1] < level && d[k2] < level &&
                            0 <= j1 < 8 && 0 <= j2 < 8 &&
                            Holds(b, k1, j1) != Empty && Holds(b, k1, j1) == Holds(b, k2, j2)
      ensures k1 == k2 && j1 == j2
    {
      if k1 < |a| && k2 < |a| && !(k1 == cur && j1 == i) && !(k2 == cur && j2 == i) {
        assert Holds(a, k1, j1) == Holds(a, k2, j2);
      }
    }
  }

  /** A descent that meets an empty slot before depth `steps` meets it in
      both arenas, and reaches no leaf in either. */
  lemma AttachMissed(a: seq<Node>, b: seq<Node>, level: nat, p: Point, steps: nat)
    requires |a| >= 1 && |b| >= 1 && steps <= level
    requires Walk(a, 0, level, p, steps).None? && Walk(b, 0, level, p, steps).None?
    ensures Walk(a, 0, level, p, level).None? && Walk(b, 0, level, p, level).None?
  {
    WalkWithinPath(a, 0, level, p, steps);
    WalkWithinPath(a, 0, level, p, level);
    WalkWithinPath(b, 0, level, p, steps);
    WalkWithinPath(b, 0, level, p, level);
  }

  /** The rest of a descent that does not leave `cur` through slot `i`
      reaches the same leaf, with the same colour, in both arenas. */
  lemma AttachAvoided(a: seq<Node>, b: seq<Node>, depth: seq<nat>, level: nat, cur: nat, i: nat,
                      n: nat, y: Point, rest: nat)
    requires Shaped(a, depth, level) && cur < |a| <= |b| && i < 8 && depth[cur] < level
    requires forall m :: 0 <= m < |a| && m != cur ==> b[m].children == a[m].children
    requires forall j :: 0 <= j < 8 && j != i ==> b[cur].children[j] == a[cur].children[j]
    requires n < |a| && depth[cur] <= depth[n] && (n != cur || Octant(y) != i)
    requires rest == level - depth[n]
    ensures Walk(b, n, rest, y, rest) == Walk(a, n, rest, y, rest)
    ensures LeafColour(b, Walk(b, n, rest, y, rest)) == LeafColour(a, Walk(a, n, rest, y, rest))
  {
    WalkAgreeExcept(a, b, depth, level, cur, i, n, rest, y, rest);
    var e := Walk(a, n, rest, y, rest);
    if e.Some? {
      WalkDepth(a, depth, level, n, y, rest);
      assert b[e.value.index].children == a[e.value.index].children;
    }
  }

  /** A descent of another voxel that reaches `cur` at a position in the
      same octant as `q`'s is not `q`'s descent, so `cur` lies above the
      level-1 nodes: of those, each octant holds one voxel only. */
  lemma AttachEntered(a: seq<Node>, depth: seq<nat>, level: nat, cur: nat, q: Point, x: Point,
                      steps: nat, below: nat, p: Point, y: Point)
    requires Shaped(a, depth, level) && Unique(a, depth, level)
    requires cur < |a| && depth[cur] < level
    requires steps == depth[cur] && below == level - steps - 1
    requires Walk(a, 0, level, q, steps) == Some(Visit(cur, x))
    requires Walk(a, 0, level, p, steps) == Some(Visit(cur, y)) && Octant(y) == Octant(x)
    requires Fits(q, level) && Fits(p, level) && p != q
    ensures below >= 1
  {
    if y == x {
      WalkInjective(a, depth, level, p, q, steps);
      assert false;
    }
    WalkFits(a, 0, level, p, steps);
    WalkFits(a, 0, level, q, steps);
    if below == 0 {
      OctantAtOne(y, x);
      assert false;
    }
  }

  /** Through the filled slot, a descent above the leaves found nothing
      before and now finds the bare node, whose slots are all empty. */
  lemma AttachStops(a: seq<Node>, cur: nat, i: nat, below: uchar, b: seq<Node>, y: Point, rest: nat)
    requires cur < |a| < 0x1_0000_0000 && i < 8 && a[cur].children[i] == Empty && Octant(y) == i
    requires below >= 1 && rest == below + 1 && b == Attach(a, cur, i, below)
    ensures Walk(a, cur, rest, y, rest).None? && Walk(b, cur, rest, y, rest).None?
  {
    var r := Recentre(y, below);
    assert Step(b, cur, rest, y) == Some(Visit(|a|, r));
    assert Step(b, |a|, below, r) == None;
  }

  /** The first `steps` steps of any descent, which stop no deeper than
      `cur`, read none of the slots the attach changed. */
  lemma AttachPrefix(a: seq<Node>, depth: seq<nat>, level: nat, cur: nat, i: nat,
                     steps: nat, below: uchar, b: seq<Node>, p: Point)
    requires Shaped(a, depth, level)
    requires cur < |a| < 0x1_0000_0000 && i < 8 && steps == depth[cur] < level
    requires b == Attach(a, cur, i, below)
    ensures Walk(b, 0, level, p, steps) == Walk(a, 0, level, p, steps)
  {
    forall m | 0 <= m < |a| && depth[m] < steps
      ensures b[m].children == a[m].children
    {
      assert m != cur;
    }
    WalkAgree(a, b, depth, level, steps, 0, 0, level, p, steps);
  }

  /** What the attach changes: slot `i` of `cur` and one node more. */
  lemma AttachSlots(a: seq<Node>, cur: nat, i: nat, below: uchar, b: seq<Node>)
    requires cur < |a| < 0x1_0000_0000 && i < 8 && b == Attach(a, cur, i, below)
    ensures |b| == |a| + 1
    ensures forall m :: 0 <= m < |a| && m != cur ==> b[m].children == a[m].children
    ensures forall j :: 0 <= j < 8 && j != i ==> b[cur].children[j] == a[cur].children[j]
  {
  }

  /** A descent of another voxel that reaches depth `steps`: it either
      avoids the filled slot or is stopped by it in both arenas. */
  lemma AttachReached(a: seq<Node>, depth: seq<nat>, level: nat, cur: nat, i: nat, q: Point, x: Point,
                      steps: nat, below: nat, b: seq<Node>, p: Point, v: Visit)
    requires Shaped(a, depth, level) && Unique(a, depth, level)
    requires cur < |a| < 0x1_0000_0000 && i < 8 && depth[cur] < level <= MaxLevel
    requires a[cur].children[i] == Empty
    requires steps == depth[cur] && below == level - steps - 1
    requires Walk(a, 0, level, q, steps) == Some(Visit(cur, x)) && i == Octant(x)
    requires b == Attach(a, cur, i, below)
    requires Fits(q, level) && Fits(p, level) && p != q
    requires Walk(a, 0, level, p, steps) == Some(v) && Walk(b, 0, level, p, steps) == Some(v)
    ensures LeafColour(b, Walk(b, 0, level, p, level)) == LeafColour(a, Walk(a, 0, level, p, level))
  {
    var rest := level - steps;
    WalkSplit(a, 0, level, p, steps, rest, level, v.index, v.at);
    WalkSplit(b, 0, level, p, steps, rest, level, v.index, v.at);
    RootWalkDepth(a, depth, level, p, steps);
    if v.index != cur || Octant(v.at) != i {
      AttachSlots(a, cur, i, below, b);
      AttachAvoided(a, b, depth, level, cur, i, v.index, v.at, rest);
    } else {
      AttachEntered(a, depth, level, cur, q, x, steps, below, p, v.at);
      AttachStops(a, cur, i, below, b, v.at, rest);
    }
  }

  /** The attach for the point `q`, whose descent stands at `cur` relative
      position `x`, changes the lookup of no other voxel of the cube: a
      descent that does not pass through the filled slot reads the same
      slots as before, and one that does is stopped in both arenas. */
  lemma AttachKeepsOthers(a: seq<Node>, depth: seq<nat>, level: nat, cur: nat, i: nat, q: Point, x: Point,
                          steps: nat, below: nat, b: seq<Node>, p: Point)
    requires Shaped(a, depth, level) && Unique(a, depth, level) && a[0].size == level
    requires cur < |a| < 0x1_0000_0000 && i < 8 && depth[cur] < level <= MaxLevel
    requires a[cur].children[i] == Empty
    requires steps == depth[cur] && below == level - steps - 1
    requires Walk(a, 0, level, q, steps) == Some(Visit(cur, x)) && i == Octant(x)
    requires b == Attach(a, cur, i, below)
    requires Fits(q, level) && Fits(p, level) && p != q
    ensures Lookup(b, p) == Lookup(a, p)
  {
    LookupAt(a, p, level);
    LookupAt(b, p, level);
    AttachPrefix(a, depth, level, cur, i, steps, below, b, p);
    var w := Walk(a, 0, level, p, steps);
    if w.None? {
      AttachMissed(a, b, level, p, steps);
    } else {
      AttachReached(a, depth, level, cur, i, q, x, steps, below, b, p, w.value);
    }
  }

  /** One attach of `insert`'s descent at node `cur`, which the descent of
      `q` reaches after `level - size` steps at relative position `p`:
      the arena stays a tree, and no other voxel of the cube changes. */
  lemma AttachKeepsVoxels(nodes: seq<Node>, depth: seq<nat>, level: nat, q: Point, size: nat, below: nat,
                          cur: nat, p: Point, after: seq<Node>, afterDepth: seq<nat>)
    requires Shaped(nodes, depth, level) && Unique(nodes, depth, level) && nodes[0].size == level
    requires cur < |nodes| < 0x1_0000_0000 && depth[cur] == level - size
    requires 1 <= size <= level <= MaxLevel && below == size - 1
    requires Walk(nodes, 0, level, q, level - size) == Some(Visit(cur, p)) && Fits(q, level)
    requires nodes[cur].children[Octant(p)] == Empty
    requires after == Attach(nodes, cur, Octant(p), below) && afterDepth == depth + [level - below]
    ensures Unique(after, afterDepth, level)
    ensures forall r :: Fits(r, level) && r != q ==> Lookup(after, r) == Lookup(nodes, r)
  {
    var steps := level - size;
    AttachKeepsUnique(nodes, depth, level, cur, Octant(p), steps, below, after, afterDepth);
    forall r | Fits(r, level) && r != q
      ensures Lookup(after, r) == Lookup(nodes, r)
    {
      AttachKeepsOthers(nodes, depth, level, cur, Octant(p), q, p, steps, below, after, r);
    }
  }
}
