/** Regrowth of the root: one round of `resizeToFit` wraps every occupied
    child of the root in a new node that holds it in the opposite octant,
    then raises the root by one level. This module states what one round
    does to the arena and proves that it keeps the arena well formed and
    every voxel at its place. */
module Growth {
  import opened Nodes
  import opened Descent
  import opened Tree

  /** The number of occupied slots among the first `i` of `s`. */
  function Occupied(s: Slots, i: nat): (r: nat)
    requires i <= 8
    ensures r <= i
  {
    if i == 0 then 0 else Occupied(s, i - 1) + Bit(s[i - 1] != Empty)
  }

  /** The node appended for root slot `i` that held child `k`: `Node(size)`
      with `children[7 - i] = k`. */
  function Wrapper(size: uchar, i: nat, k: uint): Node
    requires i < 8
  {
    Node(size, NoChildren[7 - i := k])
  }

  /** Root slot `i` after the round: still empty if it was empty; otherwise
      the index of its wrapper, which is appended after the wrappers of the
      occupied slots before `i`. */
  ghost predicate SlotWrapped(a: seq<Node>, b: seq<Node>, size: uchar, i: nat)
    requires |a| >= 1 && |b| >= 1 && i < 8
  {
    var k := a[0].children[i];
    if k == Empty then b[0].children[i] == Empty
    else
      var w := |a| + Occupied(a[0].children, i);
      b[0].children[i] == w && w < |b| && b[w] == Wrapper(size, i, k)
  }

  /** Node `w` of `b` was appended by the round, among the first `i` passes
      of its slot loop: it has the given stored size, and each of its slots
      is empty or holds the old root child of the opposite octant `7 - j`,
      whose root slot (one of the first `i`) now points back at `w`. */
  ghost predicate WrapsRootChild(a: seq<Node>, b: seq<Node>, w: nat, size: uchar, i: nat)
    requires |a| >= 1 && |b| >= 1 && w < |b|
  {
    b[w].size == size &&
    forall j :: 0 <= j < 8 ==>
      b[w].children[j] == Empty ||
      (7 - j < i && b[w].children[j] == a[0].children[7 - j] && b[0].children[7 - j] == w)
  }

  /** `b` is `a` after one round of the growth loop whose wrappers are given
      stored size `size`: one node appended per occupied root slot and none
      for an empty one, the root rewired to the wrappers and one level
      higher, every other node untouched. */
  ghost predicate WrappedRound(a: seq<Node>, b: seq<Node>, size: uchar)
  {
    |a| >= 1 &&
    |b| == |a| + Occupied(a[0].children, 8) &&
    b[0].size == a[0].size + 1 &&
    (forall m :: 0 < m < |a| ==> b[m] == a[m]) &&
    (forall i :: 0 <= i < 8 ==> SlotWrapped(a, b, size, i)) &&
    (forall w :: |a| <= w < |b| ==> WrapsRootChild(a, b, w, size, 8))
  }

  /** The depths after a round: the root stays at depth 0, every old node
      goes one level deeper and the wrappers sit at depth 1. */
  ghost function GrowDepth(depth: seq<nat>, newLen: nat): (d: seq<nat>)
    requires 1 <= |depth| <= newLen
    ensures |d| == newLen && d[0] == 0
    ensures forall k :: 0 < k < |depth| ==> d[k] == depth[k] + 1
    ensures forall k :: |depth| <= k < newLen ==> d[k] == 1
  {
    seq(newLen, k requires 0 <= k < newLen => if k == 0 then 0 else if k < |depth| then depth[k] + 1 else 1)
  }

  /** A round keeps the arena well formed, one level higher, and keeps the
      stored sizes at or below the true levels, 0 exactly at the leaves. */
  lemma GrowKeepsShape(a: seq<Node>, b: seq<Node>, depth: seq<nat>, d: seq<nat>, size: uchar, level: nat, up: nat)
    requires |a| >= 1 && level == a[0].size && level == up - 1
    requires Shaped(a, depth, level) && Sized(a, depth, level)
    requires WrappedRound(a, b, size) && 1 <= size <= level
    requires d == GrowDepth(depth, |b|)
    ensures Shaped(b, d, up) && Sized(b, d, up)
  {
    forall k, j | 0 <= k < |b| && d[k] < up && 0 <= j < 8
      ensures Linked(b, d, k, b[k].children[j])
    {
      if k == 0 {
        assert SlotWrapped(a, b, size, j);
      } else if k < |a| {
        assert b[k] == a[k];
        assert Linked(a, depth, k, a[k].children[j]);
      } else {
        assert WrapsRootChild(a, b, k, size, 8);
        assert Linked(a, depth, 0, a[0].children[7 - j]);
      }
    }
    forall k | 0 <= k < |b|
      ensures b[k].size + d[k] <= up && (b[k].size == 0 <==> d[k] == up)
    {
      if 0 < k < |a| {
        assert b[k] == a[k];
      } else if k >= |a| {
        assert WrapsRootChild(a, b, k, size, 8);
      }
    }
  }

  /** An occupied slot counts itself: the wrappers of two different
      occupied root slots get different indices. */
  lemma {:induction false} OccupiedGrows(s: Slots, i1: nat, i2: nat)
    requires i1 < i2 <= 8 && s[i1] != Empty
    ensures Occupied(s, i1) < Occupied(s, i2)
    decreases i2
  {
    if i2 > i1 + 1 {
      OccupiedGrows(s, i1, i2 - 1);
    }
  }

  /** A round keeps the arena a tree: the root's slots name distinct
      wrappers, every wrapper names the old root child it was made for, and
      nothing else moved. */
  lemma GrowKeepsUnique(a: seq<Node>, b: seq<Node>, depth: seq<nat>, d: seq<nat>, size: uchar, level: nat, up: nat)
    requires |a| >= 1 && level == a[0].size && level == up - 1
    requires Shaped(a, depth, level) && Unique(a, depth, level)
    requires WrappedRound(a, b, size)
    requires d == GrowDepth(depth, |b|)
    ensures Unique(b, d, up)
  {
    forall k1, j1, k2, j2 | 0 <= k1 < |b| && 0 <= k2 < |b| && d[k1] < up && d[k2] < up &&
                            0 <= j1 < 8 && 0 <= j2 < 8 &&
                            Holds(b, k1, j1) != Empty && Holds(b, k1, j1) == Holds(b, k2, j2)
      ensures k1 == k2 && j1 == j2
    {
      GrowSlotsMeet(a, b, depth, d, size, level, up, k1, j1, k2, j2);
    }
  }

  /** Where a slot of the round's result points: a root slot at a wrapper,
      any other slot at an old node (below the root), as before. */
  lemma GrowSlot(a: seq<Node>, b: seq<Node>, depth: seq<nat>, d: seq<nat>, size: uchar, level: nat, up: nat,
                 k: nat, j: nat)
    requires |a| >= 1 && level == a[0].size && level == up - 1
    requires Shaped(a, depth, level) && WrappedRound(a, b, size)
    requires d == GrowDepth(depth, |b|)
    requires k < |b| && j < 8 && d[k] < up && Holds(b, k, j) != Empty
    ensures k == 0 ==> Holds(b, k, j) == |a| + Occupied(a[0].children, j) && a[0].children[j] != Empty
    ensures 0 < k < |a| ==> Holds(b, k, j) == Holds(a, k, j) && depth[k] < level && Holds(b, k, j) < |a|
    ensures k >= |a| ==> Holds(b, k, j) == Holds(a, 0, 7 - j) && b[0].children[7 - j] == k && Holds(b, k, j) < |a|
  {
    if k == 0 {
      assert SlotWrapped(a, b, size, j);
    } else if k < |a| {
      assert b[k] == a[k];
      assert Linked(a, depth, k, a[k].children[j]);
    } else {
      assert WrapsRootChild(a, b, k, size, 8);
      assert Linked(a, depth, 0, a[0].children[7 - j]);
    }
  }

  /** Two slots of the round's result that name the same node are one slot. */
  lemma GrowSlotsMeet(a: seq<Node>, b: seq<Node>, depth: seq<nat>, d: seq<nat>, size: uchar, level: nat, up: nat,
                      k1: nat, j1: nat, k2: nat, j2: nat)
    requires |a| >= 1 && level == a[0].size && level == up - 1
    requires Shaped(a, depth, level) && Unique(a, depth, level) && WrappedRound(a, b, size)
    requires d == GrowDepth(depth, |b|)
    requires k1 < |b| && j1 < 8 && d[k1] < up && k2 < |b| && j2 < 8 && d[k2] < up
    requires Holds(b, k1, j1) != Empty && Holds(b, k1, j1) == Holds(b, k2, j2)
    ensures k1 == k2 && j1 == j2
  {
    GrowSlot(a, b, depth, d, size, level, up, k1, j1);
    GrowSlot(a, b, depth, d, size, level, up, k2, j2);
    if k1 == 0 && k2 == 0 {
      if j1 < j2 {
        OccupiedGrows(a[0].children, j1, j2);
      } else if j2 < j1 {
        OccupiedGrows(a[0].children, j2, j1);
      }
    } else if k1 >= |a| && k2 >= |a| {
      assert Holds(a, 0, 7 - j1) == Holds(a, 0, 7 - j2);
    } else if 0 < k1 < |a| && 0 < k2 < |a| {
      assert Holds(a, k1, j1) == Holds(a, k2, j2);
    }
  }

  /** The first two steps of the descent after a round: from the raised
      root into the wrapper of the point's octant, and from the wrapper, in
      the opposite octant, back to the old child `k`. */
  lemma {:induction false} WrapperDetour(a: seq<Node>, b: seq<Node>, size: uchar, level: nat, p: Point, k: nat)
    requires |a| >= 1 && |a| <= |b| && level == a[0].size && level >= 1 && Fits(p, level)
    requires k == a[0].children[Octant(p)] && k != Empty && k < |a|
    requires SlotWrapped(a, b, size, Octant(p))
    ensures Walk(b, 0, level + 1, p, level + 1) ==
            Walk(b, k, level - 1, Recentre(Recentre(p, level), level - 1), level - 1)
  {
    var i := Octant(p);
    var w := |a| + Occupied(a[0].children, i);
    var p1 := Recentre(p, level);
    OctantFlip(p, level);
    assert b[w].children[7 - i] == k;
    assert Step(b, 0, level + 1, p) == Some(Visit(w, p1));
    assert Step(b, w, level, p1) == Some(Visit(k, Recentre(p1, level - 1)));
  }

  /** Below an old child of the root nothing changed in a round, so the
      descent from it reaches the same leaf and reads the same colour. */
  lemma {:induction false} BelowRootChild(a: seq<Node>, b: seq<Node>, depth: seq<nat>,
                                          level: nat, k: nat, q: Point)
    requires Shaped(a, depth, level) && level >= 2
    requires 0 < k < |a| <= |b| && depth[k] == 1
    requires forall m :: 0 < m < |a| ==> b[m] == a[m]
    ensures LeafColour(b, Walk(b, k, level - 1, q, level - 1)) == LeafColour(a, Walk(a, k, level - 1, q, level - 1))
  {
    WalkAgree(a, b, depth, level, level, 1, k, level - 1, q, level - 1);
    var m := Walk(a, k, level - 1, q, level - 1);
    if m.Some? {
      assert b[m.value.index] == a[m.value.index];
    }
  }

  /** The descent through an occupied root slot after a round: the wrapper
      leads back to the old child, below which nothing changed, so the same
      leaf is reached. */
  lemma {:induction false} DetourLookup(a: seq<Node>, b: seq<Node>, depth: seq<nat>, size: uchar,
                                        level: nat, p: Point, k: nat)
    requires |a| >= 1 && |a| <= |b| && level == a[0].size && level >= 1 && Fits(p, level)
    requires Shaped(a, depth, level) && forall m :: 0 < m < |a| ==> b[m] == a[m]
    requires k == a[0].children[Octant(p)] && k != Empty && k < |a|
    requires SlotWrapped(a, b, size, Octant(p))
    ensures LeafColour(b, Walk(b, 0, level + 1, p, level + 1)) == LeafColour(a, Walk(a, 0, level, p, level))
  {
    var p2 := Recentre(p, level - 1);
    WrapperDetour(a, b, size, level, p, k);
    WalkThrough(a, 0, level, p, level, k);
    if level >= 2 {
      RecentreTwice(p, level);
      assert Linked(a, depth, 0, k);
      BelowRootChild(a, b, depth, level, k, p2);
    } else {
      assert b[k] == a[k];
    }
  }

  /** A round keeps every voxel of the old cube: the descent for a point of
      the old cube ends at the same leaf as before (a wrapper and the
      opposite octant lead back to the old child), so it finds the same colour,
      or finds nothing in both arenas. */
  lemma GrowKeepsLookup(a: seq<Node>, b: seq<Node>, depth: seq<nat>, size: uchar, level: nat, p: Point)
    requires |a| >= 1 && level == a[0].size && level >= 1
    requires Shaped(a, depth, level) && WrappedRound(a, b, size) && Fits(p, level)
    ensures Lookup(b, p) == Lookup(a, p)
  {
    var i := Octant(p);
    var k := a[0].children[i];
    LookupAt(a, p, level);
    LookupAt(b, p, level + 1);
    assert Linked(a, depth, 0, k);
    assert SlotWrapped(a, b, size, i);
    if k != Empty {
      DetourLookup(a, b, depth, size, level, p, k);
    } else {
      assert Step(b, 0, level + 1, p) == None && Step(a, 0, level, p) == None;
    }
  }

  /** A round adds no voxel: a point of the new cube outside the old one
      either meets an empty root slot, or enters a wrapper whose only
      occupied slot is the opposite octant, which the point is not in. */
  lemma GrowAddsNothing(a: seq<Node>, b: seq<Node>, size: uchar, level: nat, p: Point)
    requires |a| >= 1 && level == a[0].size && level >= 1
    requires WrappedRound(a, b, size) && !Fits(p, level)
    ensures Lookup(b, p) == None
  {
    var i := Octant(p);
    var k := a[0].children[i];
    LookupAt(b, p, level + 1);
    assert SlotWrapped(a, b, size, i);
    if k == Empty {
      assert Step(b, 0, level + 1, p) == None;
    } else {
      var w := |a| + Occupied(a[0].children, i);
      var p1 := Recentre(p, level);
      OctantNotFlipped(p, level);
      assert Step(b, 0, level + 1, p) == Some(Visit(w, p1));
      assert b[w].children[Octant(p1)] == Empty;
      assert Step(b, w, level, p1) == None;
    }
  }

  // ---------------------------------------------------------------------
  // The for loop of one round, slot by slot

  /** `b` is `a` after the first `i` passes of the loop over the root's slots
      (the root's level not yet raised). */
  ghost predicate PartlyWrapped(a: seq<Node>, b: seq<Node>, size: uchar, i: nat)
    requires i <= 8
  {
    |a| >= 1 &&
    |b| == |a| + Occupied(a[0].children, i) &&
    b[0].size == a[0].size &&
    (forall m :: 0 < m < |a| ==> b[m] == a[m]) &&
    (forall j :: 0 <= j < i ==> SlotWrapped(a, b, size, j)) &&
    (forall j :: i <= j < 8 ==> b[0].children[j] == a[0].children[j]) &&
    (forall w :: |a| <= w < |b| ==> WrapsRootChild(a, b, w, size, i))
  }

  /** The pass for an occupied slot `i`: the root's slot `i` gets the index
      the wrapper is about to take, and the wrapper is appended. */
  function WrapSlot(b: seq<Node>, i: nat, size: uchar): seq<Node>
    requires 1 <= |b| < 0x1_0000_0000 && i < 8
  {
    b[0 := b[0].(children := b[0].children[i := |b|])] + [Wrapper(size, i, b[0].children[i])]
  }

  /** One pass of the loop over the root's slots. */
  lemma WrapNext(a: seq<Node>, b: seq<Node>, size: uchar, i: nat)
    requires i < 8 && PartlyWrapped(a, b, size, i) && |b| < 0x1_0000_0000
    ensures b[0].children[i] == Empty ==> PartlyWrapped(a, b, size, i + 1)
    ensures b[0].children[i] != Empty ==> PartlyWrapped(a, WrapSlot(b, i, size), size, i + 1)
  {
    var c, next := WrapSlot(b, i, size), i + 1;
    if b[0].children[i] != Empty {
      forall j | 0 <= j < i
        ensures SlotWrapped(a, c, size, j)
      {
        assert SlotWrapped(a, b, size, j);
      }
      forall w | |a| <= w < |c|
        ensures WrapsRootChild(a, c, w, size, next)
      {
        if w < |b| {
          assert WrapsRootChild(a, b, w, size, i);
        }
      }
    } else {
      forall w | |a| <= w < |b|
        ensures WrapsRootChild(a, b, w, size, next)
      {
        assert WrapsRootChild(a, b, w, size, i);
      }
    }
  }

  /** After the eighth pass, raising the root one level completes the round. */
  lemma WrapDone(a: seq<Node>, b: seq<Node>, size: uchar)
    requires PartlyWrapped(a, b, size, 8) && a[0].size < 0xFF
    ensures WrappedRound(a, b[0 := b[0].(size := b[0].size + 1)], size)
  {
    var c := b[0 := b[0].(size := b[0].size + 1)];
    forall j | 0 <= j < 8
      ensures SlotWrapped(a, c, size, j)
    {
      assert SlotWrapped(a, b, size, j);
    }
    forall w | |a| <= w < |c|
      ensures WrapsRootChild(a, c, w, size, 8)
    {
      assert WrapsRootChild(a, b, w, size, 8);
    }
  }

  // ---------------------------------------------------------------------
  // Whole rounds and repeated rounds, as functions of the arena

  /** The loop over the root's slots from slot `i` on, applied to `b`. */
  function WrapFrom(b: seq<Node>, i: nat, size: uchar): (r: seq<Node>)
    requires 1 <= |b| && i <= 8 && |b| + (8 - i) < 0x1_0000_0000
    ensures |b| <= |r| <= |b| + (8 - i) && r[0].size == b[0].size
    decreases 8 - i
  {
    if i == 8 then b
    else if b[0].children[i] == Empty then WrapFrom(b, i + 1, size)
    else WrapFrom(WrapSlot(b, i, size), i + 1, size)
  }

  /** Running the rest of the slot loop finishes the wrapping. */
  lemma {:induction false} WrapFromWrapped(a: seq<Node>, b: seq<Node>, size: uchar, i: nat)
    requires i <= 8 && PartlyWrapped(a, b, size, i) && |b| + (8 - i) < 0x1_0000_0000
    ensures PartlyWrapped(a, WrapFrom(b, i, size), size, 8)
    decreases 8 - i
  {
    if i < 8 {
      WrapNext(a, b, size, i);
      if b[0].children[i] == Empty {
        WrapFromWrapped(a, b, size, i + 1);
      } else {
        WrapFromWrapped(a, WrapSlot(b, i, size), size, i + 1);
      }
    }
  }

  /** One round of the growth loop: wrap the root's children, then raise the
      root one level. */
  function Round(a: seq<Node>, size: uchar): (b: seq<Node>)
    requires 1 <= |a| && |a| + 8 < 0x1_0000_0000 && a[0].size < 0xFF
    ensures |a| <= |b| <= |a| + 8 && b[0].size == a[0].size + 1
  {
    var w := WrapFrom(a, 0, size);
    w[0 := w[0].(size := w[0].size + 1)]
  }

  /** A round does what `WrappedRound` describes. */
  lemma RoundWrapped(a: seq<Node>, size: uchar, b: seq<Node>)
    requires 1 <= |a| && |a| + 8 < 0x1_0000_0000 && a[0].size < 0xFF
    requires b == Round(a, size)
    ensures WrappedRound(a, b, size)
  {
    WrapFromWrapped(a, a, size, 0);
    WrapDone(a, WrapFrom(a, 0, size), size);
  }

  /** `n` rounds whose wrappers all get stored size `size`. */
  function Regrow(a: seq<Node>, size: uchar, n: nat): (b: seq<Node>)
    requires 1 <= |a| && a[0].size + n < 0x100 && |a| + 8 * n < 0x1_0000_0000
    ensures |a| <= |b| <= |a| + 8 * n && b[0].size == a[0].size + n
    decreases n
  {
    if n == 0 then a else Round(Regrow(a, size, n - 1), size)
  }

  /** One more round on top of `k` rounds: the count is named twice, as
      `n` and as `k`, so that callers holding either term can use it. */
  lemma RegrowUnfold(a: seq<Node>, size: uchar, k: nat, n: nat)
    requires 1 <= n && k == n - 1
    requires 1 <= |a| && a[0].size + n < 0x100 && |a| + 8 * n < 0x1_0000_0000
    ensures Regrow(a, size, n) == Round(Regrow(a, size, k), size)
  {
  }

  /** No rounds leave the arena as it was. */
  lemma RegrowNone(a: seq<Node>, size: uchar, n: nat)
    requires n == 0 && 1 <= |a| < 0x1_0000_0000 && a[0].size < 0x100
    ensures Regrow(a, size, n) == a
  {
  }

  /** The depths after `n` rounds. */
  ghost function RegrowDepth(a: seq<Node>, depth: seq<nat>, size: uchar, n: nat): (d: seq<nat>)
    requires 1 <= |a| && a[0].size + n < 0x100 && |a| + 8 * n < 0x1_0000_0000 && |depth| == |a|
    ensures |d| == |Regrow(a, size, n)|
    decreases n
  {
    if n == 0 then depth else GrowDepth(RegrowDepth(a, depth, size, n - 1), |Regrow(a, size, n)|)
  }

  /** `nodes` with depths `depth` is what `n` rounds with wrappers of stored
      size `size` make of `a` with depths `aDepth`. */
  ghost predicate Regrown(a: seq<Node>, aDepth: seq<nat>, size: uchar, n: nat, nodes: seq<Node>, depth: seq<nat>)
  {
    1 <= |a| && a[0].size + n < 0x100 && |a| + 8 * n < 0x1_0000_0000 && |aDepth| == |a| &&
    nodes == Regrow(a, size, n) && depth == RegrowDepth(a, aDepth, size, n)
  }

  /** The depths after `n` rounds are those after `n - 1`, one round on. */
  lemma RegrowDepthUnfold(a: seq<Node>, depth: seq<nat>, size: uchar, n: nat)
    requires 1 <= n && |depth| == |a|
    requires 1 <= |a| && a[0].size + n < 0x100 && |a| + 8 * n < 0x1_0000_0000
    ensures RegrowDepth(a, depth, size, n) == GrowDepth(RegrowDepth(a, depth, size, n - 1), |Regrow(a, size, n)|)
  {
  }

  /** Well formed at `level`: the arena's invariant, a tree of the right
      shape whose stored sizes are right. */
  ghost predicate Formed(nodes: seq<Node>, depth: seq<nat>, level: nat)
  {
    Shaped(nodes, depth, level) && Sized(nodes, depth, level) && Unique(nodes, depth, level)
  }

  /** The shape half of `Formed`. */
  lemma FormedShaped(nodes: seq<Node>, depth: seq<nat>, level: nat)
    requires Formed(nodes, depth, level)
    ensures Shaped(nodes, depth, level)
  {
  }

  /** Repeated rounds keep the arena well formed, and a tree, at the raised level. */
  lemma {:induction false} RegrowShape(a: seq<Node>, depth: seq<nat>, size: uchar, n: nat, level: nat)
    requires 1 <= |a| && a[0].size + n < 0x100 && |a| + 8 * n < 0x1_0000_0000 && |depth| == |a|
    requires 1 <= size <= a[0].size && level == a[0].size + n
    requires Formed(a, depth, a[0].size)
    ensures Formed(Regrow(a, size, n), RegrowDepth(a, depth, size, n), level)
    decreases n
  {
    if n > 0 {
      RegrowShape(a, depth, size, n - 1, level - 1);
      RegrowUnfold(a, size, n - 1, n);
      RegrowDepthUnfold(a, depth, size, n);
      RoundKeepsShape(Regrow(a, size, n - 1), RegrowDepth(a, depth, size, n - 1), size, level,
                      Regrow(a, size, n), RegrowDepth(a, depth, size, n));
    }
  }

  /** One round keeps the arena well formed, and a tree, one level up. */
  lemma RoundKeepsShape(a: seq<Node>, depth: seq<nat>, size: uchar, up: nat, b: seq<Node>, d: seq<nat>)
    requires |a| >= 1 && |a| + 8 < 0x1_0000_0000 && a[0].size < 0xFF && up == a[0].size + 1
    requires 1 <= size <= a[0].size
    requires Formed(a, depth, up - 1)
    requires b == Round(a, size) && d == GrowDepth(depth, |b|)
    ensures Formed(b, d, up)
  {
    RoundWrapped(a, size, b);
    GrowKeepsShape(a, b, depth, d, size, up - 1, up);
    GrowKeepsUnique(a, b, depth, d, size, up - 1, up);
  }

  /** What repeated rounds leave in place: every old node below the root is
      unchanged and `n` levels deeper, every appended node has stored size
      `size`, and every root slot is unchanged or points at an appended node. */
  lemma {:induction false} RegrowFrame(a: seq<Node>, depth: seq<nat>, size: uchar, n: nat)
    requires 1 <= |a| && a[0].size + n < 0x100 && |a| + 8 * n < 0x1_0000_0000 && |depth| == |a|
    ensures forall m :: 0 < m < |a| ==>
              Regrow(a, size, n)[m] == a[m] && RegrowDepth(a, depth, size, n)[m] == depth[m] + n
    ensures forall m :: |a| <= m < |Regrow(a, size, n)| ==> Regrow(a, size, n)[m].size == size
    ensures forall j :: 0 <= j < 8 ==>
              Regrow(a, size, n)[0].children[j] == a[0].children[j] || Regrow(a, size, n)[0].children[j] >= |a|
    decreases n
  {
    if n > 0 {
      var k := n - 1;
      var prev, b := Regrow(a, size, k), Regrow(a, size, n);
      RegrowUnfold(a, size, k, n);
      RegrowDepthUnfold(a, depth, size, n);
      RegrowFrame(a, depth, size, k);
      RoundWrapped(prev, size, b);
      forall m | |a| <= m < |b|
        ensures b[m].size == size
      {
        if m >= |prev| {
          assert WrapsRootChild(prev, b, m, size, 8);
        }
      }
      forall j | 0 <= j < 8
        ensures b[0].children[j] == a[0].children[j] || b[0].children[j] >= |a|
      {
        assert SlotWrapped(prev, b, size, j);
      }
    }
  }

  /** Repeated rounds keep every voxel of the old cube. */
  lemma {:induction false} RegrowLookup(a: seq<Node>, depth: seq<nat>, size: uchar, n: nat, p: Point)
    requires 1 <= |a| && a[0].size + n < 0x100 && |a| + 8 * n < 0x1_0000_0000 && |depth| == |a|
    requires 1 <= size <= a[0].size
    requires Formed(a, depth, a[0].size)
    requires Fits(p, a[0].size)
    ensures Lookup(Regrow(a, size, n), p) == Lookup(a, p)
    decreases n
  {
    if n > 0 {
      var prev, level := Regrow(a, size, n - 1), a[0].size + n - 1;
      var d := RegrowDepth(a, depth, size, n - 1);
      RegrowUnfold(a, size, n - 1, n);
      RegrowLookup(a, depth, size, n - 1, p);
      RegrowShape(a, depth, size, n - 1, level);
      FormedShaped(prev, d, level);
      FitsWider(p, a[0].size, level);
      RoundWrapped(prev, size, Regrow(a, size, n));
      GrowKeepsLookup(prev, Regrow(a, size, n), d, size, level, p);
    }
  }

  /** Every voxel of the cube of size `level` outside the cube of size
      `start` is empty. */
  ghost predicate EmptyBeyond(nodes: seq<Node>, start: nat, level: nat)
    requires |nodes| >= 1 && 1 <= start <= level
  {
    forall p :: Fits(p, level) && !Fits(p, start) ==> Lookup(nodes, p) == None
  }

  /** A round keeps the voxels beyond the starting cube empty, one level up:
      those of the old cube keep their lookup, the new ones are empty. */
  lemma RoundEmptyBeyond(a: seq<Node>, depth: seq<nat>, size: uchar, start: nat, level: nat, b: seq<Node>)
    requires 1 <= |a| && |a| + 8 < 0x1_0000_0000 && level == a[0].size && 1 <= start <= level < 0xFF
    requires Formed(a, depth, level) && b == Round(a, size) && EmptyBeyond(a, start, level)
    ensures EmptyBeyond(b, start, level + 1)
  {
    FormedShaped(a, depth, level);
    RoundWrapped(a, size, b);
    forall p | Fits(p, level + 1) && !Fits(p, start)
      ensures Lookup(b, p) == None
    {
      if Fits(p, level) {
        GrowKeepsLookup(a, b, depth, size, level, p);
      } else {
        GrowAddsNothing(a, b, size, level, p);
      }
    }
  }

  /** Repeated rounds add no voxel: every voxel of the raised root's cube
      outside the old cube is empty. */
  lemma {:induction false} RegrowAddsNothing(a: seq<Node>, depth: seq<nat>, size: uchar, n: nat, level: nat)
    requires 1 <= |a| && a[0].size + n < 0x100 && |a| + 8 * n < 0x1_0000_0000 && |depth| == |a|
    requires 1 <= size <= a[0].size && level == a[0].size + n
    requires Formed(a, depth, a[0].size)
    ensures EmptyBeyond(Regrow(a, size, n), a[0].size, level)
    decreases n
  {
    if n > 0 {
      RegrowAddsNothing(a, depth, size, n - 1, level - 1);
      RegrowShape(a, depth, size, n - 1, level - 1);
      RegrowUnfold(a, size, n - 1, n);
      RoundEmptyBeyond(Regrow(a, size, n - 1), RegrowDepth(a, depth, size, n - 1), size, a[0].size, level - 1,
                       Regrow(a, size, n));
    }
  }

  /** What `n` rounds started at root level `start` keep: the appended nodes
      all have stored size `start`, every voxel of the old cube keeps its
      colour, every voxel the rounds add to the cube is empty, and when the point already fit at `start` (so that `n` is 0)
      nothing changes. */
  lemma RegrowKeeps(a: seq<Node>, depth: seq<nat>, start: uchar, n: nat, q: Point, level: nat)
    requires 1 <= |a| && start == a[0].size && 1 <= start && start + n < 0x100
    requires |a| + 8 * n < 0x1_0000_0000 && |depth| == |a|
    requires Formed(a, depth, start)
    requires level == start + n && FirstFit(q, start, level)
    ensures Fits(q, start) ==> Regrow(a, start, n) == a && RegrowDepth(a, depth, start, n) == depth
    ensures forall m :: |a| <= m < |Regrow(a, start, n)| ==> Regrow(a, start, n)[m].size == start
    ensures forall p :: Fits(p, start) ==> Lookup(Regrow(a, start, n), p) == Lookup(a, p)
    ensures forall p :: Fits(p, level) && !Fits(p, start) ==> Lookup(Regrow(a, start, n), p) == None
  {
    RegrowFrame(a, depth, start, n);
    FirstFitAtStart(q, start, level);
    forall p | Fits(p, start)
      ensures Lookup(Regrow(a, start, n), p) == Lookup(a, p)
    {
      RegrowLookup(a, depth, start, n, p);
    }
    RegrowAddsNothing(a, depth, start, n, level);
  }
}
