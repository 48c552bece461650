/**
 * The recursive partition record of src/types/index.ts.
 *
 * Every node carries a numeric id; the split axis, the ratio and the colour are
 * optional; `children`, when present, is an ordered pair of exactly two nodes, so
 * the type is a binary tree.
 */
module PartitionTypes {
  import opened Wrappers

  /** The split axis: the source's string literals "h" and "v". */
  datatype Axis = H | V

  /** A child slot of a split node: the source's `0 | 1`. */
  type Index = i: int | 0 <= i < 2

  /** One node; `axis` is the source's `type` field. */
  datatype PartitionData = PartitionData(
    id: int,
    axis: Option<Axis>,
    ratio: Option<real>,
    color: Option<string>,
    children: Option<(PartitionData, PartitionData)>)

  /** The renderer's test: a node without `children` is a leaf. */
  predicate IsLeaf(d: PartitionData)
    ensures WellFormed(d) ==> (IsLeaf(d) <==> d.axis.None?)
  {
    d.children.None?
  }

  predicate IsSplit(d: PartitionData) {
    d.children.Some?
  }

  /** The slot that is not `i`. */
  function Other(i: Index): (j: Index)
    ensures j != i
  {
    1 - i
  }

  /** The child in slot `i` of a split node. */
  function Child(d: PartitionData, i: Index): PartitionData
    requires IsSplit(d)
  {
    if i == 0 then d.children.value.0 else d.children.value.1
  }

  /**
   * The shape invariant: a node has an axis exactly when it has children, and
   * every node below it satisfies the same.
   */
  predicate WellFormed(d: PartitionData) {
    (d.axis.Some? <==> d.children.Some?) &&
    (d.children.Some? ==> WellFormed(d.children.value.0) && WellFormed(d.children.value.1))
  }

  /** Colour is a leaf-only field: no node with children carries one. */
  predicate ColorOnLeaves(d: PartitionData) {
    (d.children.Some? ==> d.color.None?) &&
    (d.children.Some? ==> ColorOnLeaves(d.children.value.0) && ColorOnLeaves(d.children.value.1))
  }

  /** The number of leaf regions of a tree: never zero. */
  function Leaves(d: PartitionData): (n: nat)
    ensures n >= 1
    ensures IsLeaf(d) <==> n == 1
  {
    match d.children
    case None => 1
    case Some(c) => Leaves(c.0) + Leaves(c.1)
  }
}
