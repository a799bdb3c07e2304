# InVesalius progress reporter and affine-matrix copy, in Dafny

This project models the two pieces of `invesalius/data/vtk_utils.py` that have
behaviour of their own. Everything else in that file forwards calls to VTK and wx.

**The progress reporter** (`ShowProgress` and its inner `UpdateProgress`). The
factory is given the number of pipeline stages (filters) and a display type.
It returns a reporter that each stage calls with its cumulative completion
fraction. The reporter keeps two cells: the running total and the last fraction
seen. Each stage owns an equal share `ratio = 100 / max(n, 1)` of the overall
100%. A report adds `ratio` times the progress made since the last report. A
fraction lower than the last one seen is taken as "a new stage has started
from 0", so the report then adds `ratio` times the fraction itself. On the
dialog path a total of 99.999 or more is snapped to exactly 100. When no GUI
application exists, asking for a dialog yields a reporter that returns 0 when
called with a fraction and a label.

- `progress.dfy`, module `Progress`: the specification as pure functions over
  the two cells (`Difference`, `Settle`, `Step`, and `Run`, which folds `Step`
  over a sequence of reports), the lemmas about them, and the class
  `ProgressReporter`. Its fields are the two cells, and its `Update` method is
  proved against `Step`. The three displays are `Gauge` (message-bus
  broadcast), `Dialog` (modal progress dialog) and `Disabled` (the no-GUI
  fallback).
  `Consistent` is the invariant each display keeps on the two cells: a dialog
  total is below 99.999 or exactly 100, and the disabled reporter stays at its
  initial cells.
- `matrix.dfy`, module `AffineMatrix`: `numpy_to_vtkMatrix4x4`. A 4x4 array
  goes in and a fresh 4x4 array comes out, filled cell by cell in nested row
  and column loops. The fresh array stands in for a new `vtkMatrix4x4`, which
  starts as the identity (`IdentityCell`).

The total is often described as a running value in [0, 100]. The code
caps only the dialog path, and the model follows the code. A pipeline of
exactly the announced number of complete stages stays within [0, 100] on
both paths (`PipelinePrefixWithinHundred`), but
`GaugeHasNoCap` shows a single-stage message-bus reporter reaching 200 when a
stage completes, dips and completes again. The stage-boundary heuristic is
kept literally. A stage whose first report equals the previous stage's last
fraction (for example 1.0 after a completed stage) is not seen as a new stage
and adds nothing (`SameFractionAddsNothing`). This is why `CompleteStage`
asks a stage to start below 1.0.

## Model

| member | source | states |
|---|---|---|
| `Progress.SelectDisplay` | invesalius/data/vtk_utils.py:54-58 | exactly "ProgressDialog" without a GUI application gives the disabled reporter; exactly "ProgressDialog" with a GUI gives the dialog; exactly "GaugeProgress" gives the message-bus display; only the two known type names give a reporter |
| `Progress.Ratio` | invesalius/data/vtk_utils.py:63-65 | the stage share is positive and at most 100; for n ≥ 1 stages, n shares make exactly 100; a count below 1 is treated as 1 (share 100) |
| `Progress.Difference` | invesalius/data/vtk_utils.py:79-84 | a fraction at or above the last one advances by exactly the gap; a lower one counts from 0; the increment is never negative for a non-negative fraction, and for a non-negative last fraction it never exceeds the fraction |
| `Progress.Settle` | invesalius/data/vtk_utils.py:91-95 | the dialog total never exceeds 100; every dialog total of at least 99.999 becomes exactly 100; no other total is changed |
| `Progress.Step` | invesalius/data/vtk_utils.py:79-100 | after a report the last fraction seen is the one just reported; the disabled reporter keeps its state; the dialog-path invariant (below 99.999 or exactly 100) is preserved and the dialog total is at most 100 |
| `Progress.Run` | invesalius/data/vtk_utils.py:67-100 | after a sequence of reports the last fraction seen is the last one reported, and the display invariant still holds |
| `Progress.SameFractionAddsNothing` | invesalius/data/vtk_utils.py:81-89 | reporting the last-seen fraction again leaves both cells unchanged |
| `Progress.SettleAbsorbs` | invesalius/data/vtk_utils.py:89-95 | snapping an intermediate total and then adding a non-negative amount gives the same shown total as snapping once at the end |
| `Progress.StepNeverDecreases` | invesalius/data/vtk_utils.py:71-95 | for a fraction ≥ 0 the returned total is at least the previous total, on every path |
| `Progress.RunNeverDecreases` | invesalius/data/vtk_utils.py:71-95 | over any sequence of fractions ≥ 0 the total never falls below where it started |
| `Progress.RunSettlesGauge` | invesalius/data/vtk_utils.py:88-95 | fed the same non-negative fractions, the dialog reporter's total is the message-bus reporter's total snapped once, and both have seen the same last fraction |
| `Progress.StageContinues` | invesalius/data/vtk_utils.py:79-89 | on the message-bus path, within a stage under way, non-decreasing reports add exactly ratio × (final fraction − last fraction seen) |
| `Progress.StageTelescopesOnGauge` | invesalius/data/vtk_utils.py:79-89 | on the message-bus path, a stage that starts afresh (a drop, or a reporter that has seen nothing) and never decreases adds exactly ratio × its final fraction, and ends with that fraction as the last seen |
| `Progress.StageTelescopes` | invesalius/data/vtk_utils.py:79-95 | the same on either path, the dialog path showing that total snapped |
| `Progress.CompletedStageAddsRatio` | invesalius/data/vtk_utils.py:79-89 | on the message-bus path, a completed stage (ending at 1.0) adds exactly one stage share |
| `Progress.CompletedStagesAddShares` | invesalius/data/vtk_utils.py:63-89 | on the message-bus path, a fresh reporter fed k completed stages shows exactly k stage shares |
| `Progress.PipelineEndsAtHundred` | invesalius/data/vtk_utils.py:63-95 | when all n announced stages complete, the total is exactly 100 on both the message-bus and the dialog path |
| `Progress.PipelinePrefixWithinHundred` | invesalius/data/vtk_utils.py:63-95 | while all n announced stages run to completion, every total shown along the way lies between 0 and 100, on both the message-bus and the dialog path |
| `Progress.GaugeHasNoCap` | invesalius/data/vtk_utils.py:88-95 | with one stage and reports 1.0, 0.5, 1.0 the message-bus total is 200; the dialog total is 100 |
| `Progress.ProgressReporter.constructor` | invesalius/data/vtk_utils.py:45-65 | a new reporter has total 0, last fraction 0, the coerced stage share, and has notified nothing; with no arguments it is a one-stage message-bus reporter, as the factory's defaults give |
| `Progress.ProgressReporter.Update` | invesalius/data/vtk_utils.py:67-100 | the new cells are `Step` of the old ones; the return value is the new total, and it is also what was handed to the display; the total does not decrease for a fraction ≥ 0; the dialog total is at most 100; the disabled reporter returns 0 and notifies nothing |
| `AffineMatrix.ToMatrix4x4` | invesalius/data/vtk_utils.py:311-326 | requires a 4×4 input; returns a fresh 4×4 matrix whose 16 cells all equal the input's, with the input left unchanged |

## Left out

- The wx `ProgressDialog` widget, its cancel result and `dlg.Close()`, and the `Publisher.sendMessage` broadcast are not modelled. The ghost field `notified` records only the values handed to them, in order.
- The `label` argument of the reporter is not modelled. On the message-bus and dialog paths it is only passed through to the display.
- `Progress.ProgressReporter.Update`: the no-GUI fallback `lambda obj, label: 0` has no default for `label`, so calling the disabled reporter with the fraction alone raises `TypeError` in the source; the model's disabled reporter returns 0 on every call and does not model this arity error.
- `obj.GetProgress()` on a VTK object is a foreign call. The reporter takes the fraction as a `real`.
- The model uses exact `real` arithmetic instead of IEEE floating point. The 99.999 threshold is kept as a literal comparison.
- `Progress.ProgressReporter.constructor` takes the stage count as an integer. A non-integer `number_of_filters` is not modelled.
- `Progress.SelectDisplay` returns `None` for an unknown `dialog_type`. In the source the factory still builds a reporter in that case. Each call to it updates the cells, then fails at `dlg.Update` because no dialog was created. The model does not build that reporter.
- `AffineMatrix.ToMatrix4x4` takes the shape check as a precondition. The source's failing `assert` (an `AssertionError`) has no model of its own.
- The `vtkMatrix4x4` object is replaced by a 4×4 array, and numpy element types are replaced by `real`.
- The `Text` and `TextZero` classes are not modelled: their setters, their latin-1/cp1252/utf-8 encoding fallbacks, their `win32` branches, `SetCoilDistanceValue` and `draw_to_canvas`. They are one-to-one forwarding to VTK text properties, to Python codecs and to wx canvas drawing.
