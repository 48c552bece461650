/**
 * A gesture on one node, seen from the root. The Partition component renders
 * itself for each child and hands the child an `onChange` that forwards through
 * `updateChild`; so a gesture at the node reached by `path` (a sequence of child
 * slots from the root) produces the report of every ancestor in turn, and the
 * root component's report is `ApplyAt`.
 */
module PartitionTree {
  import opened Wrappers
  import opened PartitionTypes
  import opened Partition

  /** Every step of `path` descends from a split node into one of its children. */
  predicate ValidPath(t: PartitionData, path: seq<Index>)
    decreases |path|
  {
    path == [] || (IsSplit(t) && ValidPath(Child(t, path[0]), path[1..]))
  }

  /** The node that `path` reaches. */
  function NodeAt(t: PartitionData, path: seq<Index>): PartitionData
    requires ValidPath(t, path)
    decreases |path|
  {
    if path == [] then t else NodeAt(Child(t, path[0]), path[1..])
  }

  /** `path` reaches a node on which gesture `g` exists. */
  predicate Targets(t: PartitionData, path: seq<Index>, g: Gesture) {
    ValidPath(t, path) && Applicable(NodeAt(t, path), g)
  }

  /**
   * Reference definition: the tree with the node at `path` replaced by `n`, and
   * every node not on the path kept.
   */
  function ReplaceAt(t: PartitionData, path: seq<Index>, n: PartitionData): (r: PartitionData)
    requires ValidPath(t, path)
    ensures ValidPath(r, path) && NodeAt(r, path) == n
    decreases |path|
  {
    if path == [] then n
    else
      var sub := ReplaceAt(Child(t, path[0]), path[1..], n);
      t.(children := Some(if path[0] == 0 then (sub, Child(t, 1)) else (Child(t, 0), sub)))
  }

  /** The two paths part ways at some step: neither is a prefix of the other. */
  predicate Diverges(p: seq<Index>, q: seq<Index>)
    decreases |p|
  {
    p != [] && q != [] && (p[0] != q[0] || Diverges(p[1..], q[1..]))
  }

  /** Every node off the replaced path is kept: a diverging path reaches the same node. */
  lemma {:induction false} ReplaceAtKeepsOffPath(t: PartitionData, path: seq<Index>, n: PartitionData, q: seq<Index>)
    requires ValidPath(t, path) && ValidPath(t, q) && Diverges(path, q)
    ensures ValidPath(ReplaceAt(t, path, n), q) && NodeAt(ReplaceAt(t, path, n), q) == NodeAt(t, q)
    decreases |path|
  {
    var r := ReplaceAt(t, path, n);
    assert Child(r, Other(path[0])) == Child(t, Other(path[0]));
    if path[0] == q[0] {
      ReplaceAtKeepsOffPath(Child(t, path[0]), path[1..], n, q[1..]);
    }
  }

  /** Every ancestor of the replaced node keeps its id, axis, ratio and colour. */
  lemma {:induction false} ReplaceAtKeepsAncestors(t: PartitionData, path: seq<Index>, n: PartitionData, k: nat)
    requires ValidPath(t, path) && k < |path|
    ensures ValidPath(t, path[..k]) && ValidPath(ReplaceAt(t, path, n), path[..k])
    ensures var a, b := NodeAt(t, path[..k]), NodeAt(ReplaceAt(t, path, n), path[..k]);
      IsSplit(a) && IsSplit(b) &&
      a.id == b.id && a.axis == b.axis && a.ratio == b.ratio && a.color == b.color
    decreases |path|
  {
    if k > 0 {
      assert path[..k][0] == path[0];
      assert path[..k][1..] == path[1..][..k - 1];
      ReplaceAtKeepsAncestors(Child(t, path[0]), path[1..], n, k - 1);
    }
  }

  /**
   * The report of the root component for gesture `g` at the node `path` reaches:
   * the node's own report, forwarded through `UpdateChild` by each ancestor.
   */
  function ApplyAt(t: PartitionData, path: seq<Index>, g: Gesture): (r: Option<PartitionData>)
    requires Targets(t, path, g)
    ensures path != [] ==> r.Some?
    decreases |path|
  {
    if path == [] then Report(t, g)
    else Some(UpdateChild(t, path[0], ApplyAt(Child(t, path[0]), path[1..], g)))
  }

  /**
   * A gesture whose node reports a replacement `n` yields the whole tree with
   * that one node replaced and nothing else changed.
   */
  lemma {:induction false} ApplyAtReplaces(t: PartitionData, path: seq<Index>, g: Gesture)
    requires Targets(t, path, g) && !g.Delete?
    ensures ApplyAt(t, path, g) == Some(ReplaceAt(t, path, Report(NodeAt(t, path), g).value))
    decreases |path|
  {
    if path != [] {
      ApplyAtReplaces(Child(t, path[0]), path[1..], g);
    }
  }

  /**
   * Splice-up seen from the root: deleting the leaf in slot `i` of the node at
   * `p` replaces that node, and only it, by the leaf's sibling.
   */
  lemma {:induction false} ApplyAtDeleteSplices(t: PartitionData, p: seq<Index>, i: Index)
    requires Targets(t, p + [i], Delete)
    ensures ValidPath(t, p) && IsSplit(NodeAt(t, p))
    ensures ApplyAt(t, p + [i], Delete) == Some(ReplaceAt(t, p, Child(NodeAt(t, p), Other(i))))
    decreases |p|
  {
    if p != [] {
      assert (p + [i])[0] == p[0];
      assert (p + [i])[1..] == p[1..] + [i];
      ApplyAtDeleteSplices(Child(t, p[0]), p[1..], i);
    }
  }

  /** Every report the root can receive keeps the shape invariant. */
  lemma {:induction false} ApplyAtPreservesWellFormed(t: PartitionData, path: seq<Index>, g: Gesture)
    requires Targets(t, path, g) && WellFormed(t)
    ensures ApplyAt(t, path, g).Some? ==> WellFormed(ApplyAt(t, path, g).value)
    decreases |path|
  {
    if path != [] {
      ApplyAtPreservesWellFormed(Child(t, path[0]), path[1..], g);
    }
  }

  /** No report gives a colour to a node with children. */
  lemma {:induction false} ApplyAtPreservesColorOnLeaves(t: PartitionData, path: seq<Index>, g: Gesture)
    requires Targets(t, path, g) && ColorOnLeaves(t)
    ensures ApplyAt(t, path, g).Some? ==> ColorOnLeaves(ApplyAt(t, path, g).value)
    decreases |path|
  {
    if path != [] {
      ApplyAtPreservesColorOnLeaves(Child(t, path[0]), path[1..], g);
    }
  }

  /** Committing an in-range ratio keeps every ratio of the tree in range. */
  lemma {:induction false} ApplyAtPreservesRatios(t: PartitionData, path: seq<Index>, g: Gesture)
    requires Targets(t, path, g) && RatiosIn(t) && (g.CommitRatio? ==> InRange(g.value))
    ensures ApplyAt(t, path, g).Some? ==> RatiosIn(ApplyAt(t, path, g).value)
    decreases |path|
  {
    if path != [] {
      ApplyAtPreservesRatios(Child(t, path[0]), path[1..], g);
    }
  }

  /** Every subtree of a tree whose ratios are in range has its ratios in range. */
  lemma {:induction false} RatiosInAt(t: PartitionData, path: seq<Index>)
    requires ValidPath(t, path) && RatiosIn(t)
    ensures RatiosIn(NodeAt(t, path))
    decreases |path|
  {
    if path != [] {
      RatiosInAt(Child(t, path[0]), path[1..]);
    }
  }

  /**
   * Below the root, the leaf count changes by what the gesture's node reports
   * instead of itself.
   */
  lemma {:induction false} ApplyAtLeaves(t: PartitionData, path: seq<Index>, g: Gesture)
    requires Targets(t, path, g) && path != []
    ensures Leaves(ApplyAt(t, path, g).value)
         == Leaves(t) - Leaves(NodeAt(t, path)) + ReportLeaves(Report(NodeAt(t, path), g))
    decreases |path|
  {
    if path[1..] != [] {
      ApplyAtLeaves(Child(t, path[0]), path[1..], g);
    }
  }

  /** Splitting any leaf adds exactly one leaf to the tree. */
  lemma SplitAddsLeaf(t: PartitionData, path: seq<Index>, g: Gesture)
    requires Targets(t, path, g) && IsSplitGesture(g)
    ensures ApplyAt(t, path, g).Some?
    ensures Leaves(ApplyAt(t, path, g).value) == Leaves(t) + 1
  {
    if path != [] {
      ApplyAtLeaves(t, path, g);
    }
  }

  /** Deleting a leaf below the root removes exactly one leaf from the tree. */
  lemma DeleteRemovesLeaf(t: PartitionData, path: seq<Index>)
    requires Targets(t, path, Delete) && path != []
    ensures ApplyAt(t, path, Delete).Some?
    ensures Leaves(ApplyAt(t, path, Delete).value) == Leaves(t) - 1
  {
    ApplyAtLeaves(t, path, Delete);
  }

  /** Committing a ratio anywhere keeps the leaf count. */
  lemma CommitKeepsLeaves(t: PartitionData, path: seq<Index>, c: real)
    requires Targets(t, path, CommitRatio(c))
    ensures ApplyAt(t, path, CommitRatio(c)).Some?
    ensures Leaves(ApplyAt(t, path, CommitRatio(c)).value) == Leaves(t)
  {
    if path != [] {
      ApplyAtLeaves(t, path, CommitRatio(c));
    }
  }
}
