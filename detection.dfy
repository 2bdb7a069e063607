/** The windowed split-detection aggregator.  Every window starts with two
    empty label lists, polls frames until the window ends, splits each frame
    at its midline, appends the class name of every detection on each half to
    that side's list, and finally reduces each list to its most common label.

    The wall clock is replaced by the finite sequence of ticks polled during
    the window; the camera by what each tick read; the detector by a function
    from a half frame, and the context of that one call, to its class ids or
    to a failure. */
module Detection {
  import opened FrameSplit
  import opened MostCommon

  type ClassId = int

  /** `model.names`: the class name of each class id the detector knows. */
  type Names = map<ClassId, Label>

  /** What, besides the pixels, one inference call's result depends on: the
      device's state, a transient fault.  Its contents are left abstract;
      two calls on equal pixels may come out differently, so one side's
      call can fail while the other's succeeds. */
  type CallContext = nat

  /** One poll of the camera: the read failed, or it delivered a frame, which
      the window then hands to the detector in two separate calls, one per
      half, each with its own context. */
  datatype Tick = ReadFailed | Captured(frame: Frame, leftCall: CallContext, rightCall: CallContext)

  /** One detector call on a half frame: it failed before any detection was
      read out, or it gave the class id of each detection, in detector order. */
  datatype DetectorOutput = InferenceFailed | Boxes(classIds: seq<ClassId>)

  datatype Side = Left | Right

  /** The inference engine: one call on a half frame. */
  type Detector = (Frame, CallContext) -> DetectorOutput

  /** The decisions printed at the end of one window. */
  datatype Report = Report(left: Decision, right: Decision)

  /** The half of frame `f` that goes to the detector for `side`: the left
      half is columns `[0, w // 2)`, the right half columns `[w // 2, w)`. */
  function Half(f: Frame, side: Side): (h: Frame)
    ensures h.columns == if side == Left then f.columns[..Midline(f.Width())] else f.columns[Midline(f.Width())..]
  {
    var (left, right) := SplitFrame(f);
    if side == Left then left else right
  }

  /** What the detector returned for `side`'s half of a captured tick. */
  function SideOutput(t: Tick, detect: Detector, side: Side): DetectorOutput
    requires t.Captured?
  {
    detect(Half(t.frame, side), if side == Left then t.leftCall else t.rightCall)
  }

  /** The names appended by one side's detection pass over `ids`: the loop
      appends `names[id]` per detection and a class id missing from `names`
      raises, which ends the pass there; names appended before it stay. */
  function PassLabels(names: Names, ids: seq<ClassId>): (r: seq<Label>)
    ensures |r| <= |ids|
    ensures forall j :: 0 <= j < |r| ==> ids[j] in names && r[j] == names[ids[j]]
    ensures |r| < |ids| ==> ids[|r|] !in names
  {
    if ids == [] || ids[0] !in names then []
    else [names[ids[0]]] + PassLabels(names, ids[1..])
  }

  /** The names one side's guarded block appends for one detector output. */
  function OutputLabels(names: Names, out: DetectorOutput): seq<Label>
  {
    match out
    case InferenceFailed => []
    case Boxes(ids) => PassLabels(names, ids)
  }

  /** The number of detections the detector reported for `side` in tick `t`. */
  function TickDetections(t: Tick, detect: Detector, side: Side): nat
  {
    if t.ReadFailed? then 0
    else match SideOutput(t, detect, side)
      case InferenceFailed => 0
      case Boxes(ids) => |ids|
  }

  /** Every class id the detector reported on `side`'s half of tick `t` has a name. */
  predicate NamesKnown(t: Tick, detect: Detector, names: Names, side: Side)
  {
    t.Captured? && SideOutput(t, detect, side).Boxes? ==>
      forall id :: id in SideOutput(t, detect, side).classIds ==> id in names
  }

  /** The names appended to `side`'s list during one tick: nothing for a
      failed read, otherwise what that side's guarded block appends for the
      detector's output on its half. */
  function TickLabels(t: Tick, detect: Detector, names: Names, side: Side): seq<Label>
  {
    if t.ReadFailed? then [] else OutputLabels(names, SideOutput(t, detect, side))
  }

  /** One tick appends only class names to `side`'s list, at most one per
      detection on that side, and exactly one per detection when every class
      id reported there has a name. */
  lemma TickLabelsCount(t: Tick, detect: Detector, names: Names, side: Side)
    ensures forall j :: 0 <= j < |TickLabels(t, detect, names, side)| ==>
      TickLabels(t, detect, names, side)[j] in names.Values
    ensures |TickLabels(t, detect, names, side)| <= TickDetections(t, detect, side)
    ensures NamesKnown(t, detect, names, side) ==>
      |TickLabels(t, detect, names, side)| == TickDetections(t, detect, side)
  {
    if t.Captured? && SideOutput(t, detect, side).Boxes? {
      var ids := SideOutput(t, detect, side).classIds;
      var r := PassLabels(names, ids);
      assert TickLabels(t, detect, names, side) == r;
      forall j | 0 <= j < |r|
        ensures r[j] in names.Values
      {
        assert ids[j] in names;
      }
      if NamesKnown(t, detect, names, side) {
        assert forall id :: id in ids ==> id in names;
        forall k | 0 <= k < |ids|
          ensures ids[k] in names
        {
          assert ids[k] in ids;
        }
      }
    }
  }

  /** What polling one tick adds to `side`'s list. */
  function Contribution(detect: Detector, names: Names, side: Side): Tick -> seq<Label>
  {
    t => TickLabels(t, detect, names, side)
  }

  /** The list built by polling `ticks` in order, starting empty, where each
      tick appends `labelsOf(tick)`. */
  function Collect(ticks: seq<Tick>, labelsOf: Tick -> seq<Label>): seq<Label>
  {
    if ticks == [] then []
    else Collect(ticks[..|ticks| - 1], labelsOf) + labelsOf(ticks[|ticks| - 1])
  }

  /** `side`'s list at the end of a window that polled `ticks`. */
  function WindowLabels(ticks: seq<Tick>, detect: Detector, names: Names, side: Side): seq<Label>
  {
    Collect(ticks, Contribution(detect, names, side))
  }

  /** The number of detections the detector reported for `side` in a window. */
  function DetectionCount(ticks: seq<Tick>, detect: Detector, side: Side): nat
  {
    if ticks == [] then 0
    else DetectionCount(ticks[..|ticks| - 1], detect, side) + TickDetections(ticks[|ticks| - 1], detect, side)
  }

  /** The two decisions of a window that polled `ticks`. */
  function WindowReport(ticks: seq<Tick>, detect: Detector, names: Names): Report
  {
    Report(Decide(WindowLabels(ticks, detect, names, Left)),
           Decide(WindowLabels(ticks, detect, names, Right)))
  }

  /** One side's guarded detection block: append the name of every detection
      to `labels`, stopping at the first unknown class id; a detector failure
      appends nothing.  The error is caught here and goes no further. */
  method DetectSide(names: Names, out: DetectorOutput, labels: seq<Label>) returns (result: seq<Label>)
    ensures result == labels + OutputLabels(names, out)
  {
    result := labels;
    match out
    case InferenceFailed =>
    case Boxes(ids) =>
      var k := 0;
      while k < |ids|
        invariant 0 <= k <= |ids|
        invariant |result| == |labels| + k && result[..|labels|] == labels
        invariant forall j :: 0 <= j < k ==> ids[j] in names && result[|labels| + j] == names[ids[j]]
      {
        if ids[k] !in names {
          break;
        }
        result := result + [names[ids[k]]];
        k := k + 1;
      }
      var pass := PassLabels(names, ids);
      assert |pass| == k;
      assert result == labels + pass;
  }

  /** One window: both lists start empty, every tick is polled, a failed read
      is skipped, and each captured frame is split and both halves detected.
      The window reports, per side, the decision on that side's list. */
  method Window(ticks: seq<Tick>, detect: Detector, names: Names) returns (report: Report)
    ensures report == WindowReport(ticks, detect, names)
  {
    var leftNames: seq<Label> := [];
    var rightNames: seq<Label> := [];
    var i := 0;
    while i < |ticks|
      invariant 0 <= i <= |ticks|
      invariant leftNames == WindowLabels(ticks[..i], detect, names, Left)
      invariant rightNames == WindowLabels(ticks[..i], detect, names, Right)
    {
      var tick := ticks[i];
      i := i + 1;
      assert ticks[..i][..i - 1] == ticks[..i - 1];
      assert Contribution(detect, names, Left)(tick) == TickLabels(tick, detect, names, Left);
      assert Contribution(detect, names, Right)(tick) == TickLabels(tick, detect, names, Right);
      if tick.ReadFailed? {
        continue;
      }
      var (leftFrame, rightFrame) := SplitFrame(tick.frame);
      leftNames := DetectSide(names, detect(leftFrame, tick.leftCall), leftNames);
      rightNames := DetectSide(names, detect(rightFrame, tick.rightCall), rightNames);
    }
    assert ticks[..i] == ticks;
    report := Report(Decide(leftNames), Decide(rightNames));
  }

  /** The report of a window, as a function of the ticks it polled. */
  function Reporter(detect: Detector, names: Names): seq<Tick> -> Report
  {
    ticks => WindowReport(ticks, detect, names)
  }

  /** The reports printed over successive windows `windows`, in order, where
      a window that polled `ticks` prints `reportOf(ticks)`. */
  function Reports(windows: seq<seq<Tick>>, reportOf: seq<Tick> -> Report): seq<Report>
  {
    if windows == [] then []
    else Reports(windows[..|windows| - 1], reportOf) + [reportOf(windows[|windows| - 1])]
  }

  /** The outer loop over successive windows until the operator stops it:
      it prints one report per window, in order. */
  method ControlLoop(windows: seq<seq<Tick>>, detect: Detector, names: Names) returns (reports: seq<Report>)
    ensures reports == Reports(windows, Reporter(detect, names))
  {
    reports := [];
    for w := 0 to |windows|
      invariant reports == Reports(windows[..w], Reporter(detect, names))
    {
      var report := Window(windows[w], detect, names);
      assert report == Reporter(detect, names)(windows[w]);
      assert windows[..w + 1][..w] == windows[..w];
      reports := reports + [report];
    }
    assert windows[..|windows|] == windows;
  }

  /** Window after window, the loop reports what each window polled and
      nothing else: report `w` is the report of window `w`'s own ticks. */
  lemma {:induction false} ReportsPerWindow(windows: seq<seq<Tick>>, reportOf: seq<Tick> -> Report)
    ensures |Reports(windows, reportOf)| == |windows|
    ensures forall w :: 0 <= w < |windows| ==> Reports(windows, reportOf)[w] == reportOf(windows[w])
  {
    if windows != [] {
      var n := |windows| - 1;
      ReportsPerWindow(windows[..n], reportOf);
      assert forall w :: 0 <= w < n ==> windows[..n][w] == windows[w];
    }
  }

  /** Polling one more tick appends what that tick contributes. */
  lemma CollectSnoc(ticks: seq<Tick>, t: Tick, labelsOf: Tick -> seq<Label>)
    ensures Collect(ticks + [t], labelsOf) == Collect(ticks, labelsOf) + labelsOf(t)
  {
    assert (ticks + [t])[..|ticks|] == ticks;
  }

  /** Polling `a` and then `b` builds the list of `a` followed by the list of `b`. */
  lemma {:induction false} CollectAppend(a: seq<Tick>, b: seq<Tick>, labelsOf: Tick -> seq<Label>)
    ensures Collect(a + b, labelsOf) == Collect(a, labelsOf) + Collect(b, labelsOf)
  {
    if b == [] {
      assert a + b == a;
    } else {
      var init, t := b[..|b| - 1], b[|b| - 1];
      assert b == init + [t];
      assert a + b == (a + init) + [t];
      CollectAppend(a, init, labelsOf);
      CollectSnoc(a + init, t, labelsOf);
      CollectSnoc(init, t, labelsOf);
    }
  }

  /** Ticks that contribute the same under `f` and `g` build the same list. */
  lemma {:induction false} CollectAgree(ticks: seq<Tick>, f: Tick -> seq<Label>, g: Tick -> seq<Label>)
    requires forall i :: 0 <= i < |ticks| ==> f(ticks[i]) == g(ticks[i])
    ensures Collect(ticks, f) == Collect(ticks, g)
  {
    if ticks != [] {
      var n := |ticks| - 1;
      assert forall i :: 0 <= i < n ==> ticks[..n][i] == ticks[i];
      CollectAgree(ticks[..n], f, g);
    }
  }

  /** A window's list is the list of its first part followed by the list of
      the rest: polling goes on tick after tick and no tick affects another. */
  lemma WindowLabelsAppend(a: seq<Tick>, b: seq<Tick>, detect: Detector, names: Names, side: Side)
    ensures WindowLabels(a + b, detect, names, side)
         == WindowLabels(a, detect, names, side) + WindowLabels(b, detect, names, side)
  {
    CollectAppend(a, b, Contribution(detect, names, side));
  }

  /** A failed read adds nothing to either list and does not end the window:
      the ticks polled after it still contribute all their labels. */
  lemma FailedReadIsSkipped(a: seq<Tick>, b: seq<Tick>, detect: Detector, names: Names, side: Side)
    ensures WindowLabels(a + [ReadFailed] + b, detect, names, side)
         == WindowLabels(a, detect, names, side) + WindowLabels(b, detect, names, side)
  {
    var c := Contribution(detect, names, side);
    assert c(ReadFailed) == [];
    CollectSnoc(a, ReadFailed, c);
    CollectAppend(a + [ReadFailed], b, c);
  }

  /** A side's list depends only on what the detector returned for that
      side's halves: two detectors that agree there give the same list,
      whatever each of them does on the other side, failures included. */
  lemma SidesAreIndependent(ticks: seq<Tick>, d1: Detector, d2: Detector, names: Names, side: Side)
    requires forall i :: 0 <= i < |ticks| && ticks[i].Captured? ==>
      SideOutput(ticks[i], d1, side) == SideOutput(ticks[i], d2, side)
    ensures WindowLabels(ticks, d1, names, side) == WindowLabels(ticks, d2, names, side)
  {
    var f, g := Contribution(d1, names, side), Contribution(d2, names, side);
    forall i | 0 <= i < |ticks|
      ensures f(ticks[i]) == g(ticks[i])
    {
      assert f(ticks[i]) == TickLabels(ticks[i], d1, names, side);
      assert g(ticks[i]) == TickLabels(ticks[i], d2, names, side);
    }
    CollectAgree(ticks, f, g);
  }

  /** A side's list holds only class names, and never more names than there
      were detections on that side; exactly one per detection when every
      class id the detector reported there has a name. */
  lemma {:induction false} WindowLabelsCount(ticks: seq<Tick>, detect: Detector, names: Names, side: Side)
    ensures forall j :: 0 <= j < |WindowLabels(ticks, detect, names, side)| ==>
      WindowLabels(ticks, detect, names, side)[j] in names.Values
    ensures |WindowLabels(ticks, detect, names, side)| <= DetectionCount(ticks, detect, side)
    ensures (forall i :: 0 <= i < |ticks| ==> NamesKnown(ticks[i], detect, names, side))
            ==> |WindowLabels(ticks, detect, names, side)| == DetectionCount(ticks, detect, side)
  {
    if ticks != [] {
      var n := |ticks| - 1;
      var c := Contribution(detect, names, side);
      WindowLabelsCount(ticks[..n], detect, names, side);
      var prev, here := WindowLabels(ticks[..n], detect, names, side), TickLabels(ticks[n], detect, names, side);
      assert c(ticks[n]) == here;
      TickLabelsCount(ticks[n], detect, names, side);
      assert WindowLabels(ticks, detect, names, side) == prev + here;
      if forall i :: 0 <= i < |ticks| ==> NamesKnown(ticks[i], detect, names, side) {
        assert forall i :: 0 <= i < n ==> NamesKnown(ticks[..n][i], detect, names, side);
        assert NamesKnown(ticks[n], detect, names, side);
      }
    }
  }
}
