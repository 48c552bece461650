/**
 * The node-local tree transforms of the Partition component
 * (src/components/Partition.tsx): the three leaf gestures, the ratio commit of a
 * split node, and the way a split node turns a child's report into its own.
 *
 * A report is an `Option<PartitionData>`: `None` is the source's `onChange(null)`
 * ("remove me"), `Some(n)` is `onChange(n)` ("replace me by n").
 */
module Partition {
  import opened Wrappers
  import opened PartitionTypes

  /** The ratio a split node shows when its `ratio` field is absent. */
  const DefaultRatio: real := 0.5

  /** The bounds a dragged ratio is clamped to. */
  const MinRatio: real := 0.05
  const MaxRatio: real := 0.95

  predicate InRange(r: real) {
    MinRatio <= r <= MaxRatio
  }

  /** A split ratio (a fraction of the extent): every ratio present in the tree is in range. */
  predicate RatiosIn(d: PartitionData) {
    (d.ratio.Some? ==> InRange(d.ratio.value)) &&
    (d.children.Some? ==> RatiosIn(d.children.value.0) && RatiosIn(d.children.value.1))
  }

  /** The initial local ratio of a node: its `ratio`, or the default. */
  function RatioOrDefault(d: PartitionData): (r: real)
    ensures d.ratio.Some? ==> r == d.ratio.value
    ensures d.ratio.None? ==> r == DefaultRatio
    ensures RatiosIn(d) ==> InRange(r)
  {
    d.ratio.GetOr(DefaultRatio)
  }

  /** The renderer's test for a vertical split; anything else lays out horizontally. */
  predicate IsVertical(d: PartitionData)
    ensures !IsVertical(d) <==> d.axis.None? || d.axis == Some(H)
  {
    d.axis.Some? && d.axis.value.V?
  }

  /** The colours of the two leaves a split creates, first then second. */
  function LeafColors(axis: Axis): (string, string) {
    match axis
    case H => ("bg-blue-100", "bg-blue-200")
    case V => ("bg-green-100", "bg-green-200")
  }

  /** A fresh leaf with an id and a colour, and nothing else. */
  function NewLeaf(id: int, color: string): PartitionData {
    PartitionData(id, None, None, Some(color), None)
  }

  /**
   * The node a leaf reports when split along `axis`. `t1` and `t2` are the two
   * clock readings the source takes, one per new leaf; the second leaf's id is
   * the second reading plus one.
   */
  function SplitLeaf(d: PartitionData, axis: Axis, t1: int, t2: int): (r: PartitionData)
    ensures IsSplit(r) && WellFormed(r) && Leaves(r) == 2
    ensures r.id == d.id && r.axis == Some(axis) && r.ratio == Some(DefaultRatio) && r.color.None?
    ensures forall i: Index :: IsLeaf(Child(r, i)) && Child(r, i).axis.None? && Child(r, i).ratio.None?
    ensures Child(r, 0).id == t1 && Child(r, 1).id == t2 + 1
    ensures Child(r, 0).color == Some(LeafColors(axis).0) && Child(r, 1).color == Some(LeafColors(axis).1)
    ensures t1 <= t2 ==> Child(r, 0).id != Child(r, 1).id
  {
    var colors := LeafColors(axis);
    PartitionData(d.id, Some(axis), Some(DefaultRatio), None,
                  Some((NewLeaf(t1, colors.0), NewLeaf(t2 + 1, colors.1))))
  }

  /** `{...d, ratio: r}`: the node a split reports when a drag is released. */
  function WithRatio(d: PartitionData, r: real): (n: PartitionData)
    ensures n.ratio == Some(r)
    ensures n.id == d.id && n.axis == d.axis && n.color == d.color && n.children == d.children
    ensures WellFormed(d) ==> WellFormed(n)
    ensures ColorOnLeaves(d) ==> ColorOnLeaves(n)
    ensures RatiosIn(d) && InRange(r) ==> RatiosIn(n)
  {
    d.(ratio := Some(r))
  }

  /** The user's gestures on one node. */
  datatype Gesture =
    | SplitH(t1: int, t2: int)   // leaf: button "H"
    | SplitV(t1: int, t2: int)   // leaf: button "V"
    | Delete                     // leaf: button "D"
    | CommitRatio(value: real)   // split node: release of a divider drag

  predicate IsSplitGesture(g: Gesture) {
    g.SplitH? || g.SplitV?
  }

  /** Leaf gestures exist only on leaves, the divider only on split nodes. */
  predicate Applicable(d: PartitionData, g: Gesture) {
    if g.CommitRatio? then IsSplit(d) else IsLeaf(d)
  }

  /** What a node reports to its owner for a gesture on itself. */
  function Report(d: PartitionData, g: Gesture): (rep: Option<PartitionData>)
    requires Applicable(d, g)
    ensures rep.None? <==> g.Delete?
    ensures rep.Some? ==> rep.value.id == d.id
    ensures IsSplitGesture(g) ==> IsSplit(rep.value) && Leaves(rep.value) == Leaves(d) + 1
    ensures g.CommitRatio? ==> rep.value.children == d.children && Leaves(rep.value) == Leaves(d)
    ensures g.CommitRatio? ==> rep.value.ratio == Some(g.value)
    ensures WellFormed(d) && rep.Some? ==> WellFormed(rep.value)
    ensures ColorOnLeaves(d) && rep.Some? ==> ColorOnLeaves(rep.value)
    ensures RatiosIn(d) && (g.CommitRatio? ==> InRange(g.value)) && rep.Some? ==> RatiosIn(rep.value)
  {
    match g
    case SplitH(t1, t2) => Some(SplitLeaf(d, H, t1, t2))
    case SplitV(t1, t2) => Some(SplitLeaf(d, V, t1, t2))
    case Delete => None
    case CommitRatio(r) => Some(WithRatio(d, r))
  }

  /** The leaves a report stands for: none for a deletion. */
  function ReportLeaves(rep: Option<PartitionData>): nat {
    match rep
    case None => 0
    case Some(n) => Leaves(n)
  }

  /**
   * `updateChild`: what split node `d` reports when its child in slot `i`
   * reports `next`. A deletion splices the sibling up in place of `d`; any
   * other report yields a copy of `d` with only slot `i` replaced.
   */
  function UpdateChild(d: PartitionData, i: Index, next: Option<PartitionData>): (r: PartitionData)
    requires IsSplit(d)
    ensures next.None? ==> r == Child(d, Other(i))
    ensures next.Some? ==>
      IsSplit(r) && Child(r, i) == next.value && Child(r, Other(i)) == Child(d, Other(i)) &&
      r.id == d.id && r.axis == d.axis && r.ratio == d.ratio && r.color == d.color
    ensures WellFormed(d) && (next.Some? ==> WellFormed(next.value)) ==> WellFormed(r)
    ensures Leaves(r) == Leaves(d) - Leaves(Child(d, i)) + ReportLeaves(next)
    ensures ColorOnLeaves(d) && (next.Some? ==> ColorOnLeaves(next.value)) ==> ColorOnLeaves(r)
    ensures RatiosIn(d) && (next.Some? ==> RatiosIn(next.value)) ==> RatiosIn(r)
  {
    match next
    case None => Child(d, Other(i))
    case Some(n) =>
      d.(children := Some(if i == 0 then (n, Child(d, 1)) else (Child(d, 0), n)))
  }

  /** A child that reports itself unchanged leaves its parent exactly as it was. */
  lemma UpdateChildUnchanged(d: PartitionData, i: Index)
    requires IsSplit(d)
    ensures UpdateChild(d, i, Some(Child(d, i))) == d
  {
  }
}
