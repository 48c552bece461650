# Partition tree: a Dafny model

This project models the tree-update core of a recursively splittable panel
layout. A rectangular area is a binary tree of `PartitionData` nodes. A leaf is a
coloured region with three buttons: split horizontally, split vertically and
delete. A split node divides its area between two children along an axis,
according to a ratio. The user resizes a split by dragging a divider.

Each node component reports a change to its owner. `onChange(next)` means
"replace me by `next`"; `onChange(null)` means "remove me". A split node turns
a child's report into its own:

- when the child removes itself, the node splices the surviving sibling up in its own place;
- otherwise the node reports a copy of itself with only that child slot replaced.

The root holder keeps the whole tree. It ignores the null report, so deleting
the last leaf does nothing. It replaces the tree with any other report.

Modules, one per source file or concern:

- `Wrappers`: `Option`, the source's optional fields and `null`.
- `PartitionTypes` (`src/types/index.ts`): the `PartitionData` datatype; the
  shape invariant `WellFormed` (an axis exactly when there are children, at
  every level); `ColorOnLeaves` (colour is a leaf-only field); `Leaves`, the
  number of leaf regions.
- `Partition` (`src/components/Partition.tsx`): the leaf gestures, the ratio
  commit, and `UpdateChild`, all as pure copy-on-write functions; `RatiosIn`
  (every ratio present lies in the drag range [0.05, 0.95]).
- `PartitionDrag` (`src/components/Partition.tsx`): the drag lifecycle as a class
  `SplitView` holding the node's props, its local preview ratio and a phase
  `Idle | Dragging`.
- `PartitionTree`: the recursive rendering, in which every child's `onChange`
  goes through its parent's `updateChild`. It becomes `ApplyAt`, the root
  component's report for a gesture at the node a path of child slots reaches.
  `ReplaceAt` is an independent reference definition of "replace one subtree".
- `PartitionRoot` (`src/components/PartitionRoot.tsx`): the class `Root` with the
  `tree` field, `HandleChange`, and `Dispatch`, which sends a gesture's root report
  to `HandleChange`. The root keeps all three shape rules (`Shaped`). A
  committed ratio always comes from a drag release, so `Root.Dispatch` accepts
  only in-range commits. `Root.DragDivider` runs one drag of a mounted view and
  dispatches its release. The module also holds three end-to-end scenarios.

The source's field `type` is called `axis`, because `type` is a Dafny keyword.
Clock readings (`Date.now()`) are parameters of the split gestures. The second
new leaf gets the second reading plus one, so the two ids differ whenever the
clock does not go backwards (`t1 <= t2`). Ids are distinct only within one new
pair: a later split may reuse an id already in the tree (for example
`SplitH(100, 100)` at the root, then `SplitV(101, 101)` at its first child,
gives two leaves with id 101), so the model does not claim ids are unique
across the tree.

Drag-release semantics. As written, the release handler is a closure created
when the divider is pressed. The preview updates made during the drag cause
new renders, but that closure never sees them. So the committed ratio is the
local ratio from the moment of the press, not the last preview.
`SplitView.Release` models this as-written behaviour. `SplitView.ReleaseLatest`
commits the last preview, which is what the code comment "persist ratio to
parent" (src/components/Partition.tsx:111) promises. `ApplyAt`'s `CommitRatio(c)` gesture
accepts the value produced by either one.

A deep deletion splices out only the deleted leaf's parent. Every higher
ancestor clone-updates its slot with the spliced result (`ApplyAtDeleteSplices`).

## Model

| member | source | states |
|---|---|---|
| `PartitionTypes.Leaves` | src/types/index.ts:1-7 | a tree always has at least one leaf region, and has exactly one exactly when it is a leaf |
| `PartitionTypes.Other` | src/components/Partition.tsx:20 | the sibling slot of slot `i` is the other of the two slots |
| `Partition.SplitLeaf` | src/components/Partition.tsx:46-73 | a split keeps the leaf's id and sets the chosen axis with ratio 0.5 and no colour. It creates two well-formed leaves with no axis or ratio, ids `t1` and `t2+1` (distinct when `t1 <= t2`), and the axis' blue or green colours. The new node has exactly two leaves |
| `Partition.Report` | src/components/Partition.tsx:46-85 | a node's own report is null exactly for Delete. Otherwise it keeps the id. A split adds one leaf. A ratio commit changes the ratio to the committed value and keeps the children. Well-formedness and colours-on-leaves are preserved, and so are in-range ratios when a committed ratio is in range |
| `Partition.UpdateChild` | src/components/Partition.tsx:17-33 | a null report from slot `i` yields the sibling unchanged (splice-up). A non-null report yields the node with only slot `i` replaced: id, axis, ratio, colour and sibling are kept. Well-formedness, colours-on-leaves and in-range ratios are kept when the report keeps them, and the leaf count changes by the difference |
| `Partition.UpdateChildUnchanged` | src/components/Partition.tsx:24-31 | a child reporting itself unchanged leaves the parent identical |
| `PartitionTypes.IsLeaf` | src/components/Partition.tsx:10 | a leaf exactly when there are no children; on a well-formed node, exactly when there is no axis |
| `Partition.IsVertical` | src/components/Partition.tsx:11 | vertical exactly for axis V; a node with axis H or no axis lays out horizontally |
| `Partition.RatioOrDefault` | src/components/Partition.tsx:14 | the node's ratio, or 0.5 when it has none; in range when the node's ratios are |
| `Partition.WithRatio` | src/components/Partition.tsx:112 | the node with only `ratio` set to the committed value; id, axis, colour and children kept, so shape and in-range ratios are kept |
| `PartitionDrag.Clamp` | src/components/Partition.tsx:97-105 | the preview lies in [0.05, 0.95]. It equals the raw position when that is in range, 0.05 below the range and 0.95 above it |
| `PartitionDrag.SplitView.constructor` | src/components/Partition.tsx:14 | the local ratio starts as the node's ratio, or 0.5 when it has none; no drag is active |
| `PartitionDrag.SplitView.Rendered` | src/components/Partition.tsx:14 | a mounted view re-rendered with new props keeps its local ratio; no drag is active |
| `PartitionDrag.SplitView.StartDrag` | src/components/Partition.tsx:92-96 | without a measurable box nothing changes. Otherwise the drag starts and captures the current local ratio |
| `PartitionDrag.SplitView.Move` | src/components/Partition.tsx:97-105 | while dragging, the preview becomes the clamped pointer position along the y axis for a vertical split and the x axis otherwise. When idle, nothing changes |
| `PartitionDrag.SplitView.Release` | src/components/Partition.tsx:107-113 | as written: the drag ends and the report is the node with only `ratio` replaced by the ratio captured at the press. When idle, nothing is reported |
| `PartitionDrag.SplitView.ReleaseLatest` | src/components/Partition.tsx:107-113 | corrected: the report is the node with only `ratio` replaced by the last preview, which lies in range after any move, or when the node's own ratio does |
| `PartitionDrag.StaleCommitWitness` | src/components/Partition.tsx:92-113 | a drag from 0.5 to 0.8 previews 0.8 but commits 0.5 as written |
| `PartitionDrag.LatestCommitWitness` | src/components/Partition.tsx:107-113 | the same drag commits 0.8 with the corrected release |
| `PartitionTree.ReplaceAt` | src/components/Partition.tsx:24-31 | after replacing the node at a path by `n`, the path is still valid and reaches `n` |
| `PartitionTree.ReplaceAtKeepsOffPath` | src/components/Partition.tsx:24-31 | every node reached by a path that parts from the replaced path is the same as before |
| `PartitionTree.ReplaceAtKeepsAncestors` | src/components/Partition.tsx:24-31 | every ancestor of the replaced node stays a split node with its id, axis, ratio and colour |
| `PartitionTree.ApplyAt` | src/components/Partition.tsx:139-151 | a gesture below the root always makes the root component report a non-null tree |
| `PartitionTree.ApplyAtReplaces` | src/components/Partition.tsx:24-31 | a split or a ratio commit anywhere yields the old tree with exactly that one node replaced by its report |
| `PartitionTree.ApplyAtDeleteSplices` | src/components/Partition.tsx:18-21 | deleting the leaf in slot `i` under node `p` replaces just that node by the leaf's sibling, with everything else kept |
| `PartitionTree.ApplyAtPreservesWellFormed` | src/components/Partition.tsx:17-33 | every non-null root report for a gesture on a well-formed tree is well formed |
| `PartitionTree.ApplyAtPreservesColorOnLeaves` | src/components/Partition.tsx:17-33 | no root report gives a colour to a node with children |
| `PartitionTree.ApplyAtPreservesRatios` | src/components/Partition.tsx:17-33 | when the committed ratio is in range, every ratio of the reported tree is in range |
| `PartitionTree.RatiosInAt` | src/components/Partition.tsx:139-151 | each subtree handed to a child component keeps its ratios in range |
| `PartitionTree.ApplyAtLeaves` | src/components/Partition.tsx:17-33 | below the root, the leaf count changes by the leaves of the node's report minus the node's own leaves |
| `PartitionTree.SplitAddsLeaf` | src/components/Partition.tsx:46-73 | splitting any leaf raises the tree's leaf count by exactly one |
| `PartitionTree.DeleteRemovesLeaf` | src/components/Partition.tsx:18-21 | deleting a leaf below the root lowers the leaf count by exactly one |
| `PartitionTree.CommitKeepsLeaves` | src/components/Partition.tsx:112 | a ratio commit anywhere keeps the leaf count |
| `PartitionRoot.Resolve` | src/components/PartitionRoot.tsx:14-19 | a null report leaves the tree unchanged. Any other report becomes the tree exactly |
| `PartitionRoot.Root.constructor` | src/components/PartitionRoot.tsx:6-12 | the held tree starts as the single leaf `{id: 1, color: "bg-purple-200"}`, which is well formed, has no ratio and colours only a leaf |
| `PartitionRoot.Root.HandleChange` | src/components/PartitionRoot.tsx:14-19 | the new tree is the report, or the old tree when the report is null; a well-shaped report keeps the tree well shaped |
| `PartitionRoot.Root.Dispatch` | src/components/PartitionRoot.tsx:14-23 | after any gesture, the tree is what `handleChange` makes of the root report. It stays well formed, with ratios in range and colours on leaves only. Deleting the root leaf is a no-op. The tree is never null, because the type has no null value |
| `PartitionRoot.Root.DragDivider` | src/components/Partition.tsx:92-113 | a press, one move and a release on the split at `path`: with a measured box the tree becomes the root report of committing `local`, the view's local ratio at the press. That is the node's ratio on the first drag after a mount and the previous drag's last preview afterwards. The returned preview is the clamped position, which is the local ratio for the next drag. Without a measured box nothing changes. The tree keeps its shape |
| `PartitionRoot.TwoDragsLagScenario` | src/components/Partition.tsx:14-113 | on one mounted view, a drag from 0.5 to 0.8 commits 0.5, and a second drag to 0.3 commits 0.8: the tree lags one drag behind the preview |
| `PartitionRoot.SplitThenDeleteFirst` | src/components/PartitionRoot.tsx:18-23 | from the seed, a horizontal split followed by deleting child 0 makes the root the former child 1 leaf, unchanged |
| `PartitionRoot.NestedDeleteScenario` | src/components/PartitionRoot.tsx:18-23 | splitting the root H, splitting its first child V and deleting that child's first leaf leaves a two-leaf H root. Its first child is the promoted sibling and its second child is untouched |

## Left out

- Rendering: the JSX, the Tailwind class strings, the default leaf colour `bg-gray-200` and the percentage size styles. These are presentation only.
- DOM listener registration and removal, `preventDefault` and `getBoundingClientRect`. These are host I/O. The box is a boolean "measured or not".
- The pixel-to-ratio division. `SplitView.Move` takes the pointer position already normalised to the box along each axis. The source's division has no guard for a zero-sized box.
- Floating point: ratios are exact `real`s and ids are unbounded integers. In the source both are JavaScript doubles.
- `Date.now()` is a clock read. The split gestures take the two readings as parameters.
- React runtime: re-render scheduling, `useState` reading its initial value only on mount, and component instances reused without keys.
- `PartitionDrag.SplitView`: keeps one `data` for the life of one view object. A re-render with new props is a new object built by `SplitView.Rendered` with the same local ratio. `ApplyAt`'s `CommitRatio` gesture acts on the node currently in the tree. Props that arrive during a drag are not modelled; in the source, the release would still report the props of the render in which the press happened.
- `PartitionDrag.SplitView.StartDrag`: requires an idle view. In the source, a second press during a drag would register a second pair of listeners; that case is not modelled.
- `Partition.UpdateChild`: requires a split node. The source calls it only from the split branch. On a leaf it would throw, when indexing the missing `children` (src/components/Partition.tsx:21) or spreading it (src/components/Partition.tsx:26).

## Findings

| source | as written | input that shows it | evidently intended | confidence | as-written member | corrected member |
|---|---|---|---|---|---|---|
| src/components/Partition.tsx:112 | the release handler commits `ratio` from the render in which the drag started | a split at ratio 0.5: press, move to 0.8, release. The preview shows 0.8, the tree gets 0.5 | commit the last previewed ratio | high; not executed | `PartitionDrag.SplitView.Release` (shown by `PartitionDrag.StaleCommitWitness`) | `PartitionDrag.SplitView.ReleaseLatest` (shown by `PartitionDrag.LatestCommitWitness`) |
