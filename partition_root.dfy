/**
 * The root state holder (src/components/PartitionRoot.tsx): it owns the whole
 * tree, seeds it with one leaf, and applies the root component's reports,
 * ignoring the null report (deleting the last leaf is a no-op).
 */
module PartitionRoot {
  import opened Wrappers
  import opened PartitionTypes
  import opened Partition
  import opened PartitionTree
  import opened PartitionDrag

  /** The seed: one purple leaf with id 1. */
  const InitialTree: PartitionData := PartitionData(1, None, None, Some("bg-purple-200"), None)

  /** What `handleChange(next)` leaves as the tree: `next`, unless it is null. */
  function Resolve(t: PartitionData, next: Option<PartitionData>): (r: PartitionData)
    ensures next.None? ==> r == t
    ensures next.Some? ==> r == next.value
  {
    next.GetOr(t)
  }

  /** The shape every held tree keeps: well formed, ratios in range, colours on leaves only. */
  predicate Shaped(t: PartitionData) {
    WellFormed(t) && RatiosIn(t) && ColorOnLeaves(t)
  }

  class Root {
    var tree: PartitionData

    ghost predicate Valid()
      reads this
    {
      Shaped(tree)
    }

    constructor()
      ensures Valid() && tree == InitialTree
      ensures IsLeaf(tree) && Leaves(tree) == 1
    {
      tree := InitialTree;
    }

    /** `handleChange`: a null report changes nothing, any other replaces the tree. */
    method HandleChange(next: Option<PartitionData>)
      requires Valid() && (next.Some? ==> Shaped(next.value))
      modifies this
      ensures Valid()
      ensures tree == Resolve(old(tree), next)
    {
      if next.None? {
        return;
      }
      tree := next.value;
    }

    /**
     * A gesture at the node `path` reaches: the root component's report goes to
     * `HandleChange`. The tree keeps its shape; it is never null, since
     * the type has no null. A committed ratio is one a drag can produce.
     */
    method Dispatch(path: seq<Index>, g: Gesture)
      requires Valid() && Targets(tree, path, g)
      requires g.CommitRatio? ==> InRange(g.value)
      modifies this
      ensures Valid()
      ensures tree == Resolve(old(tree), ApplyAt(old(tree), path, g))
      ensures path == [] && g.Delete? ==> tree == old(tree)
    {
      ApplyAtPreservesWellFormed(tree, path, g);
      ApplyAtPreservesRatios(tree, path, g);
      ApplyAtPreservesColorOnLeaves(tree, path, g);
      HandleChange(ApplyAt(tree, path, g));
    }

    /**
     * One divider drag on the split node at `path`, as written: a press, one
     * move to the normalised position (`x`, `y`), and a release whose report
     * travels up to `HandleChange`. `local` is the mounted view's local ratio
     * state: `RatioOrDefault` of the node on the first drag after a mount, the
     * previous drag's last preview afterwards. The release commits `local`, so
     * the tree lags one drag behind the preview; the returned `preview` is the
     * view's local ratio for the next drag.
     */
    method DragDivider(path: seq<Index>, local: real, boxMeasured: bool, x: real, y: real)
      returns (preview: real)
      requires Valid() && ValidPath(tree, path) && IsSplit(NodeAt(tree, path)) && InRange(local)
      modifies this
      ensures Valid() && InRange(preview)
      ensures boxMeasured ==> tree == Resolve(old(tree), ApplyAt(old(tree), path, CommitRatio(local)))
      ensures !boxMeasured ==> tree == old(tree) && preview == local
      ensures boxMeasured ==> preview == Clamp(if IsVertical(NodeAt(old(tree), path)) then y else x)
    {
      var view := new SplitView.Rendered(NodeAt(tree, path), local);
      view.StartDrag(boxMeasured);
      view.Move(x, y);
      var report := view.Release();
      preview := view.ratio;
      if report.Some? {
        Dispatch(path, CommitRatio(report.value.ratio.value));
      }
    }
  }

  /**
   * Two drags on the root split of one mounted view: from 0.5 to 0.8, then to
   * 0.3. The first release commits 0.5, the second commits the first drag's
   * preview 0.8; the view then shows 0.3.
   */
  method TwoDragsLagScenario() returns (afterFirst: Option<real>, afterSecond: Option<real>, shown: real)
    ensures afterFirst == Some(0.5) && afterSecond == Some(0.8) && shown == 0.3
  {
    var root := new Root();
    root.Dispatch([], SplitH(1, 2));
    var local := RatioOrDefault(root.tree);
    local := root.DragDivider([], local, true, 0.8, 0.0);
    afterFirst := root.tree.ratio;
    shown := root.DragDivider([], local, true, 0.3, 0.0);
    afterSecond := root.tree.ratio;
  }

  /**
   * From the seed, split horizontally and then delete the first new leaf: the
   * tree becomes the former second leaf, unchanged.
   */
  method SplitThenDeleteFirst(t1: int, t2: int) returns (afterSplit: PartitionData, final: PartitionData)
    ensures IsSplit(afterSplit) && afterSplit.id == 1 && afterSplit.axis == Some(H)
    ensures afterSplit.ratio == Some(DefaultRatio)
    ensures final == Child(afterSplit, 1) && final == NewLeaf(t2 + 1, "bg-blue-200")
    ensures Leaves(final) == 1
  {
    var root := new Root();
    root.Dispatch([], SplitH(t1, t2));
    afterSplit := root.tree;
    root.Dispatch([0], Delete);
    final := root.tree;
  }

  /**
   * Split the root horizontally, split its first child vertically, delete that
   * child's first leaf: the root stays a horizontal split whose first child is
   * the deleted leaf's sibling and whose second child is untouched.
   */
  method NestedDeleteScenario(t1: int, t2: int, t3: int, t4: int)
    returns (before: PartitionData, final: PartitionData)
    ensures IsSplit(before) && IsSplit(Child(before, 0))
    ensures IsSplit(final) && final.id == 1 && final.axis == Some(H) && Leaves(final) == 2
    ensures Child(final, 0) == Child(Child(before, 0), 1) == NewLeaf(t4 + 1, "bg-green-200")
    ensures Child(final, 1) == Child(before, 1) == NewLeaf(t2 + 1, "bg-blue-200")
  {
    var root := new Root();
    root.Dispatch([], SplitH(t1, t2));
    root.Dispatch([0], SplitV(t3, t4));
    before := root.tree;
    root.Dispatch([0, 0], Delete);
    final := root.tree;
  }
}
