/**
 * The divider drag of a split node (src/components/Partition.tsx, `startDrag`,
 * `onMove`, `onUp`): a node-local preview ratio that pointer moves update, and
 * one report to the owner when the pointer is released.
 *
 * As the source is written, the release handler reports the ratio that was
 * current when the drag STARTED: the handler is a closure over the render in
 * which the drag began, and the preview updates made during the drag schedule
 * new renders that this closure never sees. `SplitView.Release` models that;
 * `SplitView.ReleaseLatest` is a release that reports the last preview.
 */
module PartitionDrag {
  import opened Wrappers
  import opened PartitionTypes
  import opened Partition

  function Min(a: real, b: real): real {
    if a <= b then a else b
  }

  function Max(a: real, b: real): real {
    if a <= b then b else a
  }

  /** `Math.min(0.95, Math.max(0.05, r))`: the nearest ratio in range. */
  function Clamp(r: real): (c: real)
    ensures InRange(c)
    ensures InRange(r) ==> c == r
    ensures r < MinRatio ==> c == MinRatio
    ensures r > MaxRatio ==> c == MaxRatio
  {
    Min(MaxRatio, Max(MinRatio, r))
  }

  /** Idle, or dragging with the local ratio as it was when the press happened. */
  datatype DragPhase = Idle | Dragging(ratioAtStart: real)

  /**
   * One rendered split node: its props (`data`), its local `ratio` state and
   * the drag listeners' lifecycle (`phase`).
   */
  class SplitView {
    const data: PartitionData
    var ratio: real
    var phase: DragPhase

    /** The node is a split node, and a ratio that starts in range stays in range. */
    ghost predicate Valid()
      reads this
    {
      IsSplit(data) &&
      (InRange(RatioOrDefault(data)) ==>
        InRange(ratio) && (phase.Dragging? ==> InRange(phase.ratioAtStart)))
    }

    /** Mount: the local ratio starts at `data.ratio ?? 0.5` and no drag is active. */
    constructor(data: PartitionData)
      requires IsSplit(data)
      ensures Valid()
      ensures this.data == data && ratio == RatioOrDefault(data) && phase == Idle
    {
      this.data := data;
      ratio := RatioOrDefault(data);
      phase := Idle;
    }

    /**
     * A mounted view re-rendered with props `data`: the local ratio state
     * `local` survives the re-render (it is read from the props only on mount).
     */
    constructor Rendered(data: PartitionData, local: real)
      requires IsSplit(data) && InRange(local)
      ensures Valid()
      ensures this.data == data && ratio == local && phase == Idle
    {
      this.data := data;
      ratio := local;
      phase := Idle;
    }

    /**
     * Press on the divider. Without a measurable container box the press is
     * ignored; otherwise the drag starts and remembers the current ratio.
     */
    method StartDrag(boxMeasured: bool)
      requires Valid() && phase == Idle
      modifies this
      ensures Valid() && ratio == old(ratio)
      ensures phase == if boxMeasured then Dragging(old(ratio)) else Idle
    {
      if boxMeasured {
        phase := Dragging(ratio);
      }
    }

    /**
     * Pointer move, given the pointer's position normalised to the container box
     * horizontally (`x`) and vertically (`y`). While dragging, the preview becomes
     * the clamped position along the split axis; when idle nothing listens.
     */
    method Move(x: real, y: real)
      requires Valid()
      modifies this
      ensures Valid() && phase == old(phase)
      ensures ratio == if phase.Dragging? then Clamp(if IsVertical(data) then y else x) else old(ratio)
      ensures phase.Dragging? ==> InRange(ratio)
    {
      if phase.Dragging? {
        var r := if IsVertical(data) then y else x;
        ratio := Clamp(r);
      }
    }

    /**
     * Pointer release, as written: the drag ends and the node reports itself
     * with `ratio` set to the ratio captured when the drag started. When idle
     * nothing listens and nothing is reported.
     */
    method Release() returns (report: Option<PartitionData>)
      requires Valid()
      modifies this
      ensures Valid() && phase == Idle && ratio == old(ratio)
      ensures report == match old(phase)
                        case Idle => None
                        case Dragging(r0) => Some(WithRatio(data, r0))
      ensures report.Some? && InRange(RatioOrDefault(data)) ==> InRange(report.value.ratio.value)
    {
      report := None;
      if phase.Dragging? {
        report := Some(WithRatio(data, phase.ratioAtStart));
      }
      phase := Idle;
    }

    /**
     * Pointer release reporting the last preview, which is what the source's
     * "persist ratio to parent" evidently means.
     */
    method ReleaseLatest() returns (report: Option<PartitionData>)
      requires Valid()
      modifies this
      ensures Valid() && phase == Idle && ratio == old(ratio)
      ensures report == if old(phase).Dragging? then Some(WithRatio(data, ratio)) else None
      ensures report.Some? && InRange(RatioOrDefault(data)) ==> InRange(report.value.ratio.value)
    {
      report := None;
      if phase.Dragging? {
        report := Some(WithRatio(data, ratio));
      }
      phase := Idle;
    }
  }

  /** A split node whose ratio is the default, laid out horizontally. */
  function HalfSplit(): PartitionData {
    PartitionData(7, Some(H), Some(DefaultRatio), None, Some((NewLeaf(8, "a"), NewLeaf(9, "b"))))
  }

  /**
   * One drag from 0.5 to 0.8 and a release, as written: the preview shows 0.8
   * but the report carries 0.5.
   */
  method StaleCommitWitness() returns (committed: Option<real>, preview: real)
    ensures committed == Some(0.5) && preview == 0.8
  {
    var view := new SplitView(HalfSplit());
    view.StartDrag(true);
    view.Move(0.8, 0.3);
    var report := view.Release();
    committed, preview := report.value.ratio, view.ratio;
  }

  /** The same drag released by `ReleaseLatest` reports the preview. */
  method LatestCommitWitness() returns (committed: Option<real>, preview: real)
    ensures committed == Some(0.8) && preview == 0.8
  {
    var view := new SplitView(HalfSplit());
    view.StartDrag(true);
    view.Move(0.8, 0.3);
    var report := view.ReleaseLatest();
    committed, preview := report.value.ratio, view.ratio;
  }
}
