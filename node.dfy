/** The node record of the octree arena: a logarithmic edge length and eight
    slots that hold child indices (inner nodes) or a colour (slot 0 of a leaf). */
module Nodes {

  /** An `unsigned char`: the node's logarithmic size is stored in one byte. */
  type uchar = x: int | 0 <= x < 0x100

  /** An `unsigned int`: a child index or a packed 32-bit colour. */
  type uint = x: int | 0 <= x < 0x1_0000_0000

  /** An `int`: `insert` holds the child index it follows in one, so an index
      must stay below `2^31` to read back unchanged. */
  type int32 = x: int | -0x8000_0000 <= x < 0x8000_0000

  /** The fixed array `children[8]`. */
  type Slots = s: seq<uint> | |s| == 8 witness [0, 0, 0, 0, 0, 0, 0, 0]

  /** The slot value meaning "this octant is empty". */
  const Empty: uint := 0

  /** The default argument of the node constructor: eight empty slots. */
  const NoChildren: Slots := [0, 0, 0, 0, 0, 0, 0, 0]

  datatype Node = Node(size: uchar, children: Slots)

  /** A node whose eight slots are all empty. */
  predicate IsBare(n: Node) {
    forall j :: 0 <= j < 8 ==> n.children[j] == Empty
  }

  /** `Node(size, children)`: copies the first eight entries of `children`,
      one at a time, into the node's slots. */
  method MakeNode(size: uchar, children: seq<uint>) returns (n: Node)
    requires |children| >= 8
    ensures n.size == size
    ensures forall j :: 0 <= j < 8 ==> n.children[j] == children[j]
  {
    var slots: Slots := NoChildren;
    for i := 0 to 8
      invariant forall j :: 0 <= j < i ==> slots[j] == children[j]
    {
      slots := slots[i := children[i]];
    }
    n := Node(size, slots);
  }

  /** `Node(size)` with the default argument: a node of the given size with
      every slot empty. */
  method MakeBareNode(size: uchar) returns (n: Node)
    ensures n.size == size && IsBare(n)
  {
    n := MakeNode(size, NoChildren);
  }
}
