/** Addressing inside the octree: the octant a point falls in, the re-centring
    of its coordinates on the chosen child, and the descent from a node that
    `insert` performs, written as functions so that lookups can be specified. */
module Descent {
  import opened Nodes

  datatype Option<T> = None | Some(value: T)

  /** Integer coordinates of a voxel, relative to the centre of some node. */
  datatype Point = Point(x: int, y: int, z: int)

  /** A node reached by a descent, with the point expressed relative to its centre. */
  datatype Visit = Visit(index: nat, at: Point)

  /** Largest root level for which the half extent `2^(level-1)` is an `int`. */
  const MaxLevel: nat := 31

  function Pow2(n: nat): (r: nat)
    ensures r >= 1
  {
    if n == 0 then 1 else 2 * Pow2(n - 1)
  }

  /** Half the edge of a node of logarithmic size `level`: `1u << (level - 1)`. */
  function Half(level: nat): int
    requires level >= 1
  {
    Pow2(level - 1)
  }

  /** `c` lies in `[-half, half)` of a node of logarithmic size `level`. */
  predicate Within(c: int, level: nat)
    requires level >= 1
  {
    -Half(level) <= c < Half(level)
  }

  /** The point lies in the cube of a node of logarithmic size `level`. */
  predicate Fits(p: Point, level: nat)
    requires level >= 1
  {
    Within(p.x, level) && Within(p.y, level) && Within(p.z, level)
  }

  /** Coordinates the arithmetic of the source keeps inside `int`. */
  predicate InRange(p: Point) {
    Fits(p, MaxLevel)
  }

  function Bit(b: bool): nat {
    if b then 1 else 0
  }

  /** The octant of a point: start from `0b111` and clear the bit of every
      axis whose coordinate is negative. */
  function Octant(p: Point): (i: nat)
    ensures i == 4 * Bit(p.x >= 0) + 2 * Bit(p.y >= 0) + Bit(p.z >= 0)
  {
    var all: bv8 := 7;
    var withX := if p.x < 0 then all ^ 4 else all;
    var withY := if p.y < 0 then withX ^ 2 else withX;
    var withZ := if p.z < 0 then withY ^ 1 else withY;
    withZ as nat
  }

  /** The sub-cube of octant `i` of a node of logarithmic size `level`, given
      independently of `Octant`: bit 2 picks the half of x, bit 1 of y, bit 0 of z. */
  predicate InOctant(p: Point, i: nat, level: nat)
    requires level >= 1
  {
    InHalf(p.x, i / 4 % 2 == 1, level) &&
    InHalf(p.y, i / 2 % 2 == 1, level) &&
    InHalf(p.z, i % 2 == 1, level)
  }

  predicate InHalf(c: int, upper: bool, level: nat)
    requires level >= 1
  {
    if upper then 0 <= c < Half(level) else -Half(level) <= c < 0
  }

  /** A coordinate re-expressed relative to the centre of the child of
      logarithmic size `level` it lies in. At a leaf (`level == 0`) the source
      would shift by `1u << -1`, whose result it never uses: the step is skipped. */
  function Shift(c: int, level: nat): int
  {
    if level == 0 then c
    else if c < 0 then c + Half(level)
    else c - Half(level)
  }

  /** The inverse of `Shift` inside one half of the parent: from the
      coordinate relative to the child back to the one relative to the parent. */
  function Unshift(r: int, upper: bool, level: nat): int
    requires level >= 1
  {
    if upper then r + Half(level) else r - Half(level)
  }

  /** Inside the parent's cube, `Shift` lands inside the child's cube and
      `Unshift` takes it back. */
  lemma ShiftWithin(c: int, level: nat)
    requires level >= 1 && Within(c, level + 1)
    ensures Within(Shift(c, level), level) && Unshift(Shift(c, level), c >= 0, level) == c
  {
    assert Half(level + 1) == 2 * Half(level);
  }

  function Recentre(p: Point, level: nat): Point {
    Point(Shift(p.x, level), Shift(p.y, level), Shift(p.z, level))
  }

  /** One step of the descent from node `n` of logarithmic size `level`:
      the child in the point's octant, or None when that slot is empty.
      An index outside the arena also gives None; in a well-formed arena
      there is none. */
  function Step(nodes: seq<Node>, n: nat, level: nat, p: Point): (r: Option<Visit>)
    requires n < |nodes| && level >= 1
    ensures r.Some? ==> 0 < r.value.index < |nodes|
    ensures r.Some? <==> nodes[n].children[Octant(p)] != Empty && nodes[n].children[Octant(p)] < |nodes|
  {
    var c := nodes[n].children[Octant(p)];
    if c == Empty || c >= |nodes| then None
    else Some(Visit(c, Recentre(p, level - 1)))
  }

  /** The node reached after `steps` steps of the descent from node `n`. */
  function Walk(nodes: seq<Node>, n: nat, level: nat, p: Point, steps: nat): (r: Option<Visit>)
    requires n < |nodes| && steps <= level
    ensures r.Some? ==> r.value.index < |nodes|
    ensures r.Some? && n > 0 ==> r.value.index > 0
    decreases steps
  {
    if steps == 0 then Some(Visit(n, p))
    else
      match Step(nodes, n, level, p)
      case None => None
      case Some(v) => Walk(nodes, v.index, level - 1, v.at, steps - 1)
  }

  /** A descent whose first step finds child `c` goes on from `c`. */
  lemma WalkThrough(nodes: seq<Node>, n: nat, level: nat, p: Point, steps: nat, c: nat)
    requires n < |nodes| && 1 <= steps <= level
    requires c == nodes[n].children[Octant(p)] && c != Empty && c < |nodes|
    ensures Walk(nodes, n, level, p, steps) == Walk(nodes, c, level - 1, Recentre(p, level - 1), steps - 1)
  {
  }

  /** The colour stored for the voxel at `p`: descend from the root as many
      steps as its level and read slot 0 of the leaf reached. */
  ghost function Lookup(nodes: seq<Node>, p: Point): Option<uint>
    requires |nodes| >= 1
  {
    LeafColour(nodes, Walk(nodes, 0, nodes[0].size, p, nodes[0].size))
  }

  /** The leaf at which the descent of `p` ends, when `p` has a voxel: the
      one node whose slot 0 holds that voxel's colour. */
  ghost function LeafOf(nodes: seq<Node>, p: Point): (r: nat)
    requires |nodes| >= 1 && Lookup(nodes, p).Some?
    ensures r < |nodes| && Lookup(nodes, p) == Some(nodes[r].children[0])
  {
    Walk(nodes, 0, nodes[0].size, p, nodes[0].size).value.index
  }

  /** Slot 0 of the leaf a descent reached, if it reached one. */
  ghost function LeafColour(nodes: seq<Node>, leaf: Option<Visit>): Option<uint>
    requires leaf.Some? ==> leaf.value.index < |nodes|
  {
    match leaf
    case None => None
    case Some(v) => Some(nodes[v.index].children[0])
  }

  /** `Lookup` with the root level under another name. */
  lemma LookupAt(nodes: seq<Node>, p: Point, level: nat)
    requires |nodes| >= 1 && level == nodes[0].size
    ensures Lookup(nodes, p) == LeafColour(nodes, Walk(nodes, 0, level, p, level))
  {
  }

  /** The number of steps the descent from `n` can take before it meets an
      empty slot (or reaches a leaf). */
  ghost function PathLength(nodes: seq<Node>, n: nat, level: nat, p: Point): (r: nat)
    requires n < |nodes|
    ensures r <= level
    decreases level
  {
    if level == 0 then 0
    else
      match Step(nodes, n, level, p)
      case None => 0
      case Some(v) => 1 + PathLength(nodes, v.index, level - 1, v.at)
  }

  /** Slot `c` of node `k` is empty, or names a node one level deeper. */
  ghost predicate Linked(nodes: seq<Node>, depth: seq<nat>, k: nat, c: uint)
    requires |depth| == |nodes| && k < |nodes|
  {
    c == Empty || (c < |nodes| && depth[c] == depth[k] + 1)
  }

  /** Well-formedness by depth from the root (a node at depth d has level
      `level - d`): the root is at index 0, every other node lies at depth 1
      to `level`, and every slot of a node above the leaves is empty or the
      index of a node one level deeper. Slot 0 of a leaf is a colour. */
  ghost predicate Shaped(nodes: seq<Node>, depth: seq<nat>, level: nat)
  {
    |nodes| >= 1 && |depth| == |nodes| && depth[0] == 0 &&
    (forall k :: 0 < k < |nodes| ==> 1 <= depth[k] <= level) &&
    (forall k, j :: 0 <= k < |nodes| && depth[k] < level && 0 <= j < 8 ==>
       Linked(nodes, depth, k, nodes[k].children[j]))
  }

  /** The stored sizes: never above a node's true level, and 0 exactly for leaves. */
  ghost predicate Sized(nodes: seq<Node>, depth: seq<nat>, level: nat)
    requires |depth| == |nodes|
  {
    forall k :: 0 <= k < |nodes| ==>
      nodes[k].size + depth[k] <= level && (nodes[k].size == 0 <==> depth[k] == level)
  }

  /** In a well-formed arena every occupied slot above the leaves names a
      node inside the arena other than the root: index 0 means "empty", so
      the root is never anyone's child. */
  lemma ChildInArena(nodes: seq<Node>, depth: seq<nat>, level: nat, k: nat, j: nat)
    requires Shaped(nodes, depth, level) && k < |nodes| && depth[k] < level && j < 8
    requires nodes[k].children[j] != Empty
    ensures 0 < nodes[k].children[j] < |nodes|
  {
    assert Linked(nodes, depth, k, nodes[k].children[j]);
  }

  // ---------------------------------------------------------------------
  // Geometry

  /** The eight octants partition the cube of a node: a point of the cube is
      in octant `i` exactly when `Octant` picks `i`. */
  lemma OctantPartition(p: Point, i: nat, level: nat)
    requires level >= 1 && Fits(p, level) && i < 8
    ensures InOctant(p, i, level) <==> Octant(p) == i
  {
  }

  /** Re-centring on the child of logarithmic size `level` keeps a point of
      the parent's cube inside the child's cube. */
  lemma RecentreFits(p: Point, level: nat)
    requires level >= 1 && Fits(p, level + 1)
    ensures Fits(Recentre(p, level), level)
  {
    ShiftWithin(p.x, level);
    ShiftWithin(p.y, level);
    ShiftWithin(p.z, level);
  }

  /** Re-centring a point of a node of size `level` on its child of the same
      size flips every sign: the point lands in the opposite octant. */
  lemma OctantFlip(p: Point, level: nat)
    requires level >= 1 && Fits(p, level)
    ensures Octant(Recentre(p, level)) == 7 - Octant(p)
  {
  }

  /** A point outside the cube of size `level` keeps the sign of some
      coordinate when re-centred on a child of that size, so it does not land
      in the opposite octant: past a wrapper it meets an empty slot. */
  lemma OctantNotFlipped(p: Point, level: nat)
    requires level >= 1 && !Fits(p, level)
    ensures Octant(Recentre(p, level)) != 7 - Octant(p)
  {
  }

  /** Two re-centrings (on a child of size `level`, then on its child of size
      `level - 1`) land where one re-centring on size `level - 1` does. */
  lemma RecentreTwice(p: Point, level: nat)
    requires level >= 2 && Fits(p, level)
    ensures Recentre(Recentre(p, level), level - 1) == Recentre(p, level - 1)
  {
    assert Half(level) == 2 * Half(level - 1);
  }

  /** A larger node's cube contains a smaller one's. */
  lemma {:induction false} FitsWider(p: Point, small: nat, large: nat)
    requires 1 <= small <= large && Fits(p, small)
    ensures Fits(p, large)
    decreases large - small
  {
    if small < large {
      FitsWider(p, small, large - 1);
      assert Half(large) == 2 * Half(large - 1);
    }
  }

  /** A level at which an in-range point does not fit is below `MaxLevel`. */
  lemma OutsideBelowMax(p: Point, level: nat)
    requires 1 <= level <= MaxLevel && InRange(p) && !Fits(p, level)
    ensures level < MaxLevel
  {
  }

  /** Raising a node one level doubles its half edge, and a point that does
      not fit the lower level is outside by one level less than the higher. */
  lemma LevelUp(p: Point, lo: nat, hi: nat)
    requires lo >= 1 && hi == lo + 1 && !Fits(p, lo)
    ensures Half(hi) == 2 * Half(lo) && !Fits(p, hi - 1)
  {
  }

  /** `level` is the first level, counting up from `start`, whose cube
      holds the point. */
  predicate FirstFit(p: Point, start: nat, level: nat)
    requires 1 <= start <= level
  {
    Fits(p, level) && (level > start ==> !Fits(p, level - 1))
  }

  /** A root raised to the first level that holds the point was raised
      only if the point did not fit where it started. */
  lemma {:induction false} FirstFitAtStart(p: Point, start: nat, level: nat)
    requires 1 <= start <= level && FirstFit(p, start, level)
    ensures Fits(p, start) <==> level == start
  {
    if level > start && Fits(p, start) {
      FitsWider(p, start, level - 1);
    }
  }

  // ---------------------------------------------------------------------
  // The descent

  /** Taking one more step (`more` steps in all) is stepping, from node
      level `size`, from where `steps` steps ended. */
  lemma {:induction false} WalkSnoc(nodes: seq<Node>, n: nat, level: nat, p: Point, steps: nat, more: nat, size: nat)
    requires n < |nodes| && steps < level && more == steps + 1 && size == level - steps
    decreases steps
    ensures Walk(nodes, n, level, p, more) ==
            match Walk(nodes, n, level, p, steps)
            case None => None
            case Some(v) => Step(nodes, v.index, size, v.at)
  {
    if steps > 0 {
      match Step(nodes, n, level, p)
      case None =>
      case Some(v) => WalkSnoc(nodes, v.index, level - 1, v.at, steps - 1, more - 1, size);
    }
  }

  /** The descent succeeds for exactly the first `PathLength` steps. */
  lemma {:induction false} WalkWithinPath(nodes: seq<Node>, n: nat, level: nat, p: Point, steps: nat)
    requires n < |nodes| && steps <= level
    ensures Walk(nodes, n, level, p, steps).Some? <==> steps <= PathLength(nodes, n, level, p)
    decreases steps
  {
    if steps > 0 {
      match Step(nodes, n, level, p)
      case None =>
      case Some(v) => WalkWithinPath(nodes, v.index, level - 1, v.at, steps - 1);
    }
  }

  /** In a well-formed arena, `steps` steps from a node at depth d reach a
      node at depth `d + steps`. */
  lemma {:induction false} WalkDepth(nodes: seq<Node>, depth: seq<nat>, level: nat, n: nat, p: Point, steps: nat)
    requires Shaped(nodes, depth, level)
    requires n < |nodes| && depth[n] + steps <= level
    requires Walk(nodes, n, level - depth[n], p, steps).Some?
    ensures depth[Walk(nodes, n, level - depth[n], p, steps).value.index] == depth[n] + steps
    decreases steps
  {
    if steps > 0 {
      var v := Step(nodes, n, level - depth[n], p).value;
      assert Linked(nodes, depth, n, nodes[n].children[Octant(p)]);
      WalkDepth(nodes, depth, level, v.index, v.at, steps - 1);
    }
  }

  /** A descent reads only the slots of the nodes it passes: if every node
      shallower than `bound` (from index `lo` on) keeps its slots, a descent
      from depth d that stops at depth `bound` or above is unchanged, even
      when nodes are appended. */
  lemma {:induction false} WalkAgree(a: seq<Node>, b: seq<Node>, depth: seq<nat>, level: nat,
                                     bound: nat, lo: nat, n: nat, size: nat, p: Point, steps: nat)
    requires Shaped(a, depth, level) && bound <= level
    requires lo <= 1 && lo <= n < |a| <= |b| && depth[n] + steps <= bound && size == level - depth[n]
    requires forall m :: lo <= m < |a| && depth[m] < bound ==> b[m].children == a[m].children
    ensures Walk(b, n, size, p, steps) == Walk(a, n, size, p, steps)
    decreases steps
  {
    if steps > 0 {
      var c := a[n].children[Octant(p)];
      assert Linked(a, depth, n, c);
      if c != Empty {
        WalkAgree(a, b, depth, level, bound, lo, c, size - 1, Recentre(p, size - 1), steps - 1);
      }
    }
  }

  // ---------------------------------------------------------------------
  // One step of insert's descent that meets an empty slot

  /** The arena after `insert` fills empty slot `i` of node `cur` with the
      index of a bare node of stored size `size` appended at the end. */
  function Attach(a: seq<Node>, cur: nat, i: nat, size: uchar): (b: seq<Node>)
    requires cur < |a| < 0x1_0000_0000 && i < 8
  {
    a[cur := a[cur].(children := a[cur].children[i := |a|])] + [Node(size, NoChildren)]
  }

  /** Filling an empty slot above the leaves with a bare node one level down
      keeps the arena well formed and the stored sizes right, and leaves the
      descent to `cur` untouched. */
  lemma AttachKeepsShape(a: seq<Node>, depth: seq<nat>, level: nat, cur: nat, i: nat, q: Point,
                          steps: nat, below: nat, b: seq<Node>, d: seq<nat>)
    requires Shaped(a, depth, level) && Sized(a, depth, level)
    requires cur < |a| < 0x1_0000_0000 && i < 8 && depth[cur] < level <= MaxLevel
    requires a[cur].children[i] == Empty
    requires steps == depth[cur] && below == level - steps - 1
    requires b == Attach(a, cur, i, below) && d == depth + [steps + 1]
    ensures Shaped(b, d, level) && Sized(b, d, level)
    ensures Walk(b, 0, level, q, steps) == Walk(a, 0, level, q, steps)
  {
    forall k, j | 0 <= k < |b| && d[k] < level && 0 <= j < 8
      ensures Linked(b, d, k, b[k].children[j])
    {
      if k < |a| && !(k == cur && j == i) {
        assert Linked(a, depth, k, a[k].children[j]);
      }
    }
    WalkAgree(a, b, depth, level, steps, 0, 0, level, q, steps);
  }
}
