# Sparse voxel octree, modelled in Dafny

This project models the sparse voxel octree of the voxel ray tracer
(`src/Octree.h`, `src/Octree.cpp`). The octree is an append-only arena
`std::vector<Node> nodes` whose element 0 is the root. A node stores its
logarithmic edge length `size` (a `uchar`) and eight `uint` slots. A slot
holds the index of a child, or 0 for an empty octant. At a leaf (`size` 0),
slot 0 holds the voxel's colour.

It models four operations:

- **`Octree(size)`** creates the root alone.
- **`insert(x, y, z, color)`** first calls `resizeToFit`. It then walks down
  from the root. At each level it picks the octant from the signs of the
  coordinates, appends a bare node wherever the slot on the way is 0, and
  re-centres the coordinates on the child. At the leaf it writes the colour
  into slot 0.
- **`resizeToFit`** regrows the root while the point lies outside its cube.
  Each round wraps every occupied root child `i` in a new node that holds the
  child in the opposite octant `7 - i`, then raises the root by one level.
  The wrappers all get the root level the call *started* with, which is
  captured once at `src/Octree.cpp:78`.
- **`getNodes`** returns a copy of the arena.

Modules:

- `node.dfy` (`Nodes`): the node record and its constructor loop.
- `descent.dfy` (`Descent`): the geometry of octants and re-centring, the
  descent (`Step`, `Walk`, `PathLength`) and the lookup it defines
  (`Lookup`). It also holds well-formedness *by depth from the root*
  (`Shaped`, `Sized`): a node at depth d has true level `root.size - d`,
  whatever its stored `size` says.
- `tree.dfy` (`Tree`): the arena is a tree (`Unique`): no node is named by
  two slots. From this it follows that a node reached by the descent from
  the root at a given place was reached from one point only
  (`WalkInjective`, `LeafInjective`). It also proves that one attach of the
  descent keeps the tree and every other voxel.
- `growth.dfy` (`Growth`): one round of regrowth as a relation
  (`WrappedRound`) and as a function (`Round`, `Regrow`). It proves that
  rounds keep the arena well formed and a tree, keep every voxel of the
  old cube, and add no voxel outside it.
- `insertion.dfy` (`Insertion`): the descent state of `insert` (`Descending`)
  and the lemmas for each step and for the whole insertion.
- `octree.dfy` (`Octree`): the class, with the arena as `nodes: seq<Node>`
  and a ghost `depth` sequence. Each loop of the source is a method with a
  loop and its invariants.

`Lookup(nodes, p)` is the ghost counterpart of `insert`'s descent. It takes
`root.size` steps with the same octant and re-centring rule, then reads
slot 0 of the leaf it reaches. It is `None` when the path stops at an empty
slot.

## Model

| member | source | states |
|---|---|---|
| Nodes.MakeNode | src/Octree.h:22-26 | the node gets the given size, and slots 0..7 are the first eight entries of the vector, which must hold at least eight |
| Nodes.MakeBareNode | src/Octree.h:22-27 | `Node(size)` with the default argument has the given size and all eight slots empty |
| Descent.Octant | src/Octree.cpp:19-23 | clearing bit 2/1/0 of `0b111` for a negative x/y/z gives `4*(x>=0) + 2*(y>=0) + (z>=0)` |
| Descent.OctantNotFlipped | src/Octree.cpp:89-91 | a point outside the cube of a node keeps the sign of some coordinate when re-centred on a child of the same size, so it does not land in the opposite octant `7 - i` where the wrapper holds the old child |
| Descent.OctantPartition | src/Octree.cpp:19-23 | a point of a node's cube lies in the geometric sub-cube of octant `i` if and only if the sign rule picks `i` |
| Descent.ShiftWithin | src/Octree.cpp:38-41 | `Shift`, moving a coordinate of the parent's cube by the child's half edge toward the child's centre lands in the child's cube, and is undone by moving back (`Unshift`) |
| Descent.RecentreFits | src/Octree.cpp:36-41 | re-centring on the child (`Recentre`) keeps a point of the parent's cube inside the child's cube |
| Descent.OctantFlip | src/Octree.cpp:89-91 | re-centring a point on a child of the same size flips every sign, so the point lands in octant `7 - i`, where each wrapper puts the old child |
| Descent.RecentreTwice | src/Octree.cpp:36-41 | two re-centrings, on sizes `l` and `l - 1`, equal one re-centring on `l - 1`, which is what the detour through a wrapper does |
| Descent.FitsWider | src/Octree.cpp:81-83 | the cube test of the growth loop (`Fits`, against the half edge `Half`) is monotone: a point inside a smaller root's cube is inside every larger one |
| Descent.FirstFitAtStart | src/Octree.cpp:81-83 | the root was raised above its starting level if and only if the point did not fit at the starting level |
| Descent.ChildInArena | src/Octree.h:17-19 | in a well-formed arena every non-zero slot above the leaves is an index in `(0, |nodes|)`, so the root is never a child |
| Descent.Step | src/Octree.cpp:19-34 | one step of the descent (`Step`) succeeds if and only if the slot of the point's octant is non-zero and inside the arena, and then moves to a node other than the root |
| Descent.LeafOf | src/Octree.cpp:18-44 | the leaf at which the descent of a point with a voxel ends is a node of the arena whose slot 0 holds that voxel's colour; it names the one node line 44 writes |
| Descent.Walk | src/Octree.cpp:18-42 | the node reached after `k` steps (`Walk`) is inside the arena, and is never the root when the descent starts below it |
| Descent.WalkSnoc | src/Octree.cpp:18-42 | `k + 1` steps of the descent are `k` steps followed by one step from the node reached |
| Descent.WalkWithinPath | src/Octree.cpp:18-42 | the descent succeeds for `k` steps if and only if `k` is at most the length of the existing path |
| Descent.WalkDepth | src/Octree.cpp:18-42 | in a well-formed arena, `k` steps from a node at depth d reach a node at depth `d + k` |
| Descent.WalkAgree | src/Octree.cpp:18-42 | a descent reads only the slots of nodes it passes: arenas that agree on them, even with nodes appended, give the same descent |
| Descent.AttachKeepsShape | src/Octree.cpp:25-32 | filling an empty slot above the leaves with a new bare node one level down keeps the arena well formed and leaves the descent up to that node unchanged |
| Tree.OctantAtOne | src/Octree.cpp:19-23 | in the cube of a level-1 node each octant holds exactly one voxel, so two voxels of that cube in the same octant are equal |
| Tree.RecentreInjective | src/Octree.cpp:36-41 | within one octant, re-centring on the child is one-to-one |
| Tree.WalkSplit | src/Octree.cpp:18-42 | a descent that has reached node `m` at position `x` after `s` steps continues from there: `s + t` steps are `t` more steps from `m` |
| Tree.WalkFits | src/Octree.cpp:18-42 | every step of the descent keeps the point inside the cube of the node it has reached |
| Tree.StepInjective | src/Octree.cpp:19-25 | in a tree, a step that reaches a given child at a given place came from one node and one position |
| Tree.WalkLast | src/Octree.cpp:18-42 | a descent that succeeds for `k + 1` steps succeeded for `k`, and its last step is one step from the node reached |
| Tree.WalkStepBack | src/Octree.cpp:18-42 | in a tree, two descents from the root that meet after `s` steps had already met one step earlier |
| Tree.WalkInjective | src/Octree.cpp:18-42 | in a tree, two descents from the root that reach the same node at the same place started from the same point |
| Tree.LeafInjective | src/Octree.cpp:18-44 | in a tree, two voxels of the root's cube whose descents end at the same leaf are the same voxel |
| Tree.WalkAgreeExcept | src/Octree.cpp:25-32 | a descent that never leaves the attached node through the filled slot reads the same slots before and after the attach |
| Tree.AttachKeepsUnique | src/Octree.cpp:25-32 | filling an empty slot with the index of the new node keeps the arena a tree |
| Tree.AttachMissed | src/Octree.cpp:25-32 | a descent that meets an empty slot above the attached node meets it before and after the attach, and reaches no leaf |
| Tree.AttachAvoided | src/Octree.cpp:25-32 | a descent that does not go through the filled slot reaches the same leaf, with the same colour, before and after the attach |
| Tree.AttachEntered | src/Octree.cpp:19-34 | another voxel whose descent reaches the attached node in the same octant as the inserted point is still above the level-1 nodes there |
| Tree.AttachStops | src/Octree.cpp:25-32 | through the filled slot, a descent above the leaves found nothing before and now stops at the bare new node |
| Tree.AttachSlots | src/Octree.cpp:25-32 | `Attach` changes only the one slot of the current node and appends one node |
| Tree.AttachPrefix | src/Octree.cpp:25-32 | the attach does not change a descent for as many steps as lead to the current node |
| Tree.AttachReached | src/Octree.cpp:25-32 | another voxel whose descent reaches the depth of the attach keeps its colour (or absence) |
| Tree.AttachKeepsOthers | src/Octree.cpp:25-32 | an attach changes the lookup of no voxel of the cube other than the inserted point |
| Tree.AttachKeepsVoxels | src/Octree.cpp:25-32 | an attach keeps the arena a tree and keeps the lookup of every other voxel of the cube |
| Growth.OccupiedGrows | src/Octree.cpp:85-96 | the wrappers of two different occupied root slots are appended at different indices |
| Growth.GrowSlot | src/Octree.cpp:85-96 | after a round, an occupied root slot names its wrapper, and any other occupied slot names an old node below the root |
| Growth.GrowSlotsMeet | src/Octree.cpp:85-96 | after a round, two slots that name the same node are the same slot |
| Growth.GrowKeepsUnique | src/Octree.cpp:85-98 | a round keeps the arena a tree |
| Growth.GrowKeepsShape | src/Octree.cpp:85-98 | after a round, at one level higher, the arena is well formed and the stored sizes are at or below the true levels, 0 exactly at the leaves, despite the stale wrapper sizes |
| Growth.WrapperDetour | src/Octree.cpp:85-96 | after a round, the descent for a point of the old cube goes root, then the wrapper of its octant, then the old child through the opposite octant |
| Growth.BelowRootChild | src/Octree.cpp:85-96 | below an old root child nothing changes in a round, so the descent below it reads the same colour |
| Growth.DetourLookup | src/Octree.cpp:85-98 | through an occupied root slot, the descent after a round reaches the leaf it reached before |
| Growth.GrowKeepsLookup | src/Octree.cpp:85-98 | one round keeps the colour (or absence) of every voxel of the old cube |
| Growth.GrowAddsNothing | src/Octree.cpp:85-98 | one round adds no voxel: a point of the new cube outside the old one meets an empty root slot, or a wrapper whose only occupied slot is the opposite octant, which the point is not in |
| Growth.WrapNext | src/Octree.cpp:85-96 | one pass of the slot loop wraps slot `i` if occupied (`WrapSlot`: one `Wrapper` node appended, holding the child at `7 - i`, slot rewired to it) and changes nothing if empty |
| Growth.WrapDone | src/Octree.cpp:98 | after the eight passes, raising the root level completes the round |
| Growth.WrapFrom | src/Octree.cpp:85-96 | running the slot loop from slot `i` (`WrapFrom`) appends at most one node per remaining slot and leaves the root's size alone |
| Growth.WrapFromWrapped | src/Octree.cpp:85-96 | running the slot loop to the end wraps every occupied root slot, in slot order |
| Growth.Round | src/Octree.cpp:85-98 | a round appends at most eight nodes and raises the root level by one |
| Growth.RoundWrapped | src/Octree.cpp:85-98 | a round appends exactly one wrapper per occupied root slot and none for an empty one, rewires those slots, leaves the other nodes alone and raises the root |
| Growth.Regrow | src/Octree.cpp:81-100 | `n` rounds append at most `8n` nodes and raise the root by `n` |
| Growth.RoundKeepsShape | src/Octree.cpp:85-98 | one round keeps the arena well formed and a tree, one level up |
| Growth.RegrowShape | src/Octree.cpp:81-100 | any number of rounds keeps the arena well formed and a tree at the raised level |
| Growth.RegrowFrame | src/Octree.cpp:78-98 | after `n` rounds every old node below the root is unchanged and `n` levels deeper, every appended node has the starting root level as its size, and every root slot is unchanged or points at an appended node |
| Growth.RegrowLookup | src/Octree.cpp:81-100 | any number of rounds keeps the colour (or absence) of every voxel of the old cube |
| Growth.RoundEmptyBeyond | src/Octree.cpp:85-98 | a round keeps every voxel between the starting cube and the current one empty, one level up |
| Growth.RegrowAddsNothing | src/Octree.cpp:81-100 | any number of rounds add no voxel: every point of the raised cube outside the old cube finds nothing |
| Growth.RegrowKeeps | src/Octree.cpp:77-101 | when the point already fits no round runs and nothing changes; the appended nodes have the starting size; voxels of the old cube are kept; voxels the rounds add to the cube are empty |
| Insertion.StartDescent | src/Octree.cpp:15-16 | the descent starts at the root of the regrown arena with nothing appended |
| Insertion.DescendExisting | src/Octree.cpp:25-41 | a step into an existing child appends nothing and moves the descent state one level down, into that child |
| Insertion.ExistingWithinPath | src/Octree.cpp:25-34 | an existing child is met only while the descent is still on the path the arena already had |
| Insertion.DescendAttach | src/Octree.cpp:25-41 | a step into an empty slot appends one bare node, stores its index in the slot and moves the descent state into it |
| Insertion.AttachStep | src/Octree.cpp:27-34 | after the attach, one more step of the descent reaches the new node with the re-centred point |
| Insertion.AttachCount | src/Octree.cpp:27-32 | an attach happens only past the end of the existing path, and the appended nodes are exactly one per step past it |
| Insertion.AttachFrame | src/Octree.cpp:27-32 | an attach changes no old node except by filling an empty slot with a new index, and the new node's stored size is its true level |
| Insertion.DescentCount | src/Octree.cpp:18-42 | when no regrowth happened, the descent appended `size - PathLength` nodes, one for each level below the end of the existing path |
| Insertion.FreshPath | src/Octree.cpp:7-9 | a fresh root has no path below it, so a first insertion appends exactly `size` nodes |
| Insertion.PaintLeaf | src/Octree.cpp:44 | writing the colour into slot 0 of the leaf reached (`Paint`) leaves the point's descent ending at that same leaf, makes the lookup of the inserted point return that colour, and keeps the arena well formed |
| Insertion.PaintKeepsVoxels | src/Octree.cpp:44 | writing the colour into the leaf keeps the arena a tree and changes the lookup of no other voxel of the cube, because no other voxel's descent ends at that leaf |
| Insertion.PaintKeepsOther | src/Octree.cpp:44 | the lookup of one voxel other than the inserted point is the same after the paint |
| Insertion.RecentreCoords | src/Octree.cpp:36-41 | the three coordinate updates are the re-centring on the child of the lowered size |
| Insertion.InsertFrame | src/Octree.cpp:11-45 | after regrowth, descent and painting, the arena grew by at most eight nodes per round plus one per level. Root slots are unchanged or point at new nodes. Other old nodes changed only by filling empty slots with new indices, or, for the one leaf `cur` the descent ended at, by a new colour in slot 0. New nodes are wrappers of the starting size or sit at their true level |
| Insertion.InsertOutcome | src/Octree.cpp:11-45 | the whole insertion leaves a well-formed arena in which the point's descent ends at the painted leaf `cur` and its lookup returns the colour, with the counts and frame of `InsertFrame`, the colour slot being rewritten at that leaf only |
| Octree.Octree.constructor | src/Octree.cpp:7-9 | the arena is exactly one root of the given size with all slots empty, and is well formed and a tree |
| Octree.Octree.WrapRootChildren | src/Octree.cpp:85-96 | the slot loop leaves the arena as `WrapFrom` describes, slot by slot |
| Octree.Octree.GrowRound | src/Octree.cpp:85-98 | one pass of the growth loop is one `Round` |
| Octree.Octree.GrowUntilFits | src/Octree.cpp:78-100 | the growth loop runs `n` rounds, all with the starting size, and stops at the first level whose cube holds the point |
| Octree.Octree.ResizeToFit | src/Octree.cpp:77-101 | the root rises to the first level that holds the point, never lowers, and stays well formed and a tree. Nothing changes if the point already fit. Wrappers get the starting size. Every voxel of the old cube keeps its colour, and every voxel of the new cube outside the old one is empty |
| Octree.Octree.DescendStep | src/Octree.cpp:19-41 | one pass of the descent loop attaches a bare node of size `size - 1` if and only if the slot is empty, otherwise leaves the arena alone, and moves the descent state one level down. The arena stays a tree and every other voxel of the cube keeps its lookup |
| Octree.Octree.DescendToLeaf | src/Octree.cpp:15-42 | the descent loop ends at the leaf of the point, having appended one node per level past the existing path. The arena stays a tree and every other voxel of the cube keeps its lookup |
| Octree.Octree.DescendAndPaint | src/Octree.cpp:15-44 | after the descent and the paint, the point's lookup returns the colour, the arena is well formed and a tree, every other voxel of the cube keeps its lookup, and the counts and frame hold relative to the arena before regrowth; of the old nodes only the leaf the point's descent now ends at (`LeafOf`) may have a new colour |
| Octree.Octree.Insert | src/Octree.cpp:11-45 | after `insert` the point's lookup returns the colour and the arena is well formed. The root level is the first from the old one that holds the point. At most `9 * 31` nodes are appended; for a point already inside, exactly `size - PathLength`. Old nodes change only as `InsertFrame` allows, and only the leaf the point's descent ends at (`LeafOf`) may have a new colour. Every other voxel of the old cube keeps its colour (or absence), and every other voxel of the new cube outside the old one is empty |
| Octree.Octree.GetNodes | src/Octree.cpp:103-105 | the copy is the arena, and every non-zero slot above the leaves is an index into the copy other than 0 |

## Left out

- Overflow and undefined behaviour are excluded by preconditions, not modelled:
  - the root level stays between 1 and 31, so `1u << (size - 1)` and `halfSize *= 2` stay inside `int` and the `uchar` size never wraps;
  - coordinates lie in `[-2^30, 2^30)` (`InRange`);
  - `insert` keeps the child index it follows in an `int` (`src/Octree.cpp:25` and `:31`). An index of `2^31` or more would read back negative there and index `nodes` out of bounds at line 34. `Insert` therefore requires room for `9 * 31` more nodes below `2^31`, and `DescendStep` holds the index in an `int32`. Below that bound the `uint` casts of `nodes.size()` never truncate either;
  - `resizeToFit` keeps indices in `uint` only, so `ResizeToFit` requires room for `9 * 31` more nodes below `2^32`.
- The last re-centring of the descent, when `size` reaches 0, is skipped. In C++ it is an undefined shift by -1, and its result is never used.
- The `currentNode` pointer is modelled as an index. Pointer invalidation by `emplace_back` and allocation failure are not modelled, because the arena is a growing sequence.
- The three loops (the `while` of `insert`, and the `while` and `for` of `resizeToFit`) are split into helper methods, one per loop or loop body: `DescendStep`, `DescendToLeaf`, `DescendAndPaint`, `WrapRootChildren`, `GrowRound` and `GrowUntilFits`.
- `getNodes` returns a sequence value. A snapshot therefore cannot be affected by later inserts, and the model has no aliasing to show it.
- Privacy is not modelled: a Dafny field is public, and so are the helper methods that hold the loops. The helpers work on the states inside a loop, where the ghost `depth` field is not yet updated, so they neither require nor keep `Valid()` unless their contract says so; `GrowRound` called on its own, for instance, raises the root without updating `depth`. The constructor establishes `Valid()`; `ResizeToFit`, `DescendAndPaint` and `Insert` require and keep it; `DescendToLeaf` and `GetNodes` require it.
- `Walk` treats an out-of-range slot index as an empty slot. In a well-formed arena there is none (`Descent.ChildInArena`).
- The renderer's overwrite of root children 0..6 in the exported copy, the `.vox` file loader, the OpenCL/OpenGL plumbing and logging in `src/main.cpp` and `src/Log.cpp` are not part of this model. They are I/O and foreign calls.
