# Split-detection window aggregator

A model of the real-time split-detection loop of `Detection.py`. The program reads
camera frames in fixed windows. It cuts each frame at its integer midline and runs the
object detector on the left half and on the right half. During the window it appends
the class name of every detection to that side's list. At the end of the window it
reduces each side's list to `Counter(names).most_common(1)[0]`, or to "no detection"
when the list is empty. Then it starts a fresh window.

The model has three modules:

- `FrameSplit` (`frame_split.dfy`): a frame and its split at `mid = w // 2` into
  columns `[0, mid)` and `[mid, w)`. A frame is held as its sequence of pixel columns,
  so `frame[:, :mid]` is a sequence slice. The frame's height plays no part in the split.
- `MostCommon` (`most_common.dfy`): the reducer. `Count` is `Counter`: keys in
  first-insertion order, plus a count per key. `MaxIndex` is `max` over those keys by
  count: it replaces its best key only on a strictly larger count. `Decide` is the
  per-side reduction. `IsMostCommon` is an independent specification: the label occurs
  in the list, it carries its own occurrence count, no label occurs more often, and
  among tied labels it occurs first. `DecideCharacterised` proves that `Decide` returns
  exactly the decision this specification admits.
- `Detection` (`detection.dfy`): the window loop itself, written as methods with loops.
  `DetectSide` is one side's guarded `for` loop. `Window` is one window, from the two
  empty lists to the two decisions. `ControlLoop` is the outer loop over windows. Each
  method is proved against the specification functions `PassLabels`, `WindowLabels`,
  `WindowReport` and `Reports`. The lemmas beside them prove the skip-on-failed-read,
  side-independence and counting properties.

External parts become parameters:

- The wall clock: a window is the finite sequence of `Tick`s polled before its
  2-second deadline.
- The camera: each tick is `ReadFailed`, or `Captured(frame, leftCall, rightCall)`.
- The detector: a function of a half frame and a `CallContext`, returning
  `InferenceFailed` or `Boxes(classIds)` with the class ids in detector order.
  `InferenceFailed` means inference or read-out raised before any detection was
  appended. The program calls the detection network twice per frame, once per half, and each call
  carries its own context: the device state, a transient fault. So one side's call
  can fail while the other side's succeeds, even on equal pixels.
- `model.names`: a map from class id to name. A class id missing from it raises
  `KeyError` at that detection. That ends the side's pass for the frame, and the
  names appended before it stay in the list (`PassLabels`).
- The operator's Ctrl+C: the end of the finite sequence of windows given to
  `ControlLoop`.

During the window the program fills plain lists. It builds a `Counter` only at the
end of the window, and so does the model (`Decide` on `WindowLabels`).

## Model

| member | source | states |
|---|---|---|
| FrameSplit.Midline | Detection.py:42 | `w // 2` is at most `w`, and the right part `w - mid` is `mid` or `mid + 1` |
| FrameSplit.SplitSpans | Detection.py:41-44 | the ranges `[0, mid)` and `[mid, w)` are adjacent and disjoint, they cover exactly `[0, w)`, and left width ≤ right width ≤ left width + 1 |
| FrameSplit.Columns | Detection.py:43-44 | a column slice has the range's width, and its column `c` is column `lo + c` of the frame |
| FrameSplit.SplitFrame | Detection.py:41-44 | the left half's columns followed by the right half's are the whole frame; the right half is as wide as the left or one column wider |
| Detection.Half | Detection.py:43-44 | the half given to the detector for a side is `frame[:, :w // 2]` on the left and `frame[:, w // 2:]` on the right |
| MostCommon.Add | Detection.py:68 | counting one more occurrence raises that label's count by one and leaves every other count alone; the keys stay as they are when the label was already counted, and otherwise gain the label at the end |
| MostCommon.Count | Detection.py:68 | `Counter` construction: every key has a count, and a non-empty list gives at least one key |
| MostCommon.CountKeys | Detection.py:68 | the keys of `Counter(s)` are exactly the labels of `s` |
| MostCommon.CountCounts | Detection.py:68 | `Counter(s)` maps each label to its number of occurrences in `s` |
| MostCommon.CountOrder | Detection.py:68 | the keys of `Counter(s)` are ordered by first occurrence in `s`, so they are distinct |
| MostCommon.MaxIndex | Detection.py:68 | `max` by count gives a key whose count no key exceeds, and every earlier key has a strictly smaller count |
| MostCommon.WinnerBeats | Detection.py:68 | the key `most_common(1)` picks is never outnumbered by a label of the list, and occurs no later than any label tied with it |
| MostCommon.CounterWinnerIsMostCommon | Detection.py:68 | the key and count `most_common(1)[0]` gives meet `IsMostCommon` |
| MostCommon.Decide | Detection.py:67-71 | the per-side reduction meets `IsMostCommon`: no detection for an empty list; otherwise a label of the list, with its occurrence count, never outnumbered, first-seen among ties |
| MostCommon.DecideCharacterised | Detection.py:74-78 | a decision equals the reducer's result if and only if it meets `IsMostCommon`, so the specification fixes the result |
| MostCommon.DecideEmpty | Detection.py:67-71 | "no detection" is reported if and only if the list is empty |
| MostCommon.TieGoesToFirstSeen | Detection.py:75 | with two labels tied at two occurrences each, the one seen first is reported with count 2 |
| Detection.PassLabels | Detection.py:50-52 | one pass appends `names[id]` for the detections before the first unknown class id, in detector order, and that id, if any, has no name |
| Detection.TickLabelsCount | Detection.py:47-64 | one tick appends only class names to a side's list, at most one per detection on that side, and exactly one per detection when every class id there has a name |
| Detection.DetectSide | Detection.py:47-54 | the guarded block appends exactly the pass's names to the list it is given; a detector failure appends nothing |
| Detection.Window | Detection.py:29-78 | starting from two empty lists, the window's report is `Decide` on each side's list of that window's ticks (`WindowReport`) |
| Detection.ControlLoop | Detection.py:28-31 | the reports are `Window`'s report for each window, in window order (`Reports` over `Reporter`) |
| Detection.ReportsPerWindow | Detection.py:28-78 | there is one report per window, and report `w` is the report of window `w`'s own ticks |
| Detection.CollectAppend | Detection.py:35-38 | polling one run of ticks and then another builds the first run's list followed by the second's |
| Detection.WindowLabelsAppend | Detection.py:35-38 | a window's list is the list of its first ticks followed by the list of its remaining ticks |
| Detection.FailedReadIsSkipped | Detection.py:36-38 | a failed read adds nothing to either list, and the ticks after it still add all their names |
| Detection.SidesAreIndependent | Detection.py:47-64 | a side's list depends only on the detector's output for that side's halves; anything on the other side, a failure included, leaves it unchanged |
| Detection.WindowLabelsCount | Detection.py:50-52 | a side's list holds only class names, at most one per detection on that side, and exactly one per detection when every class id has a name |

## Left out

- Loading the detection network, device selection and inference itself (Detection.py:9-17, 48-49, 58-59): foreign library calls. The detector is a function parameter that returns class ids or fails.
- Reading the class id out of the detection row, `int(det[5])` (Detection.py:51, 61): numeric array internals. Class ids are taken as integers.
- Camera set-up, reads and release (Detection.py:20-24, 36, 86-87): device I/O. A read is modelled only as success or failure.
- The 2-second wall-clock bound (Detection.py:34-35): the window is the finite sequence of ticks polled before the deadline. Durations are not modelled.
- Console output and the Ctrl+C shutdown path (Detection.py:27, 54, 64, 69-78, 82-88): output and process control. The decisions that are printed are the model's `Report`.
- Detection.ControlLoop: the source loops until interrupted. The model runs a finite sequence of windows.
- What a detector call depends on besides the pixels is one opaque `CallContext` per call. The model does not say what it holds.
- Deploy.py: a display loop with no aggregation or decision. Its midline split is the same as Detection.py's. It stops on a failed read, which this model does not merge in.
