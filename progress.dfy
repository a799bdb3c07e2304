/**
 * The progress accumulator that `ShowProgress` builds for image-processing
 * pipelines (invesalius/data/vtk_utils.py).
 *
 * A reporter is created for a pipeline of `numberOfFilters` stages. Every
 * stage reports a cumulative completion fraction (nominally in 0.0 .. 1.0);
 * the reporter turns it into an increment of the overall percentage, of which
 * each stage owns an equal share `ratio`. A fraction lower than the last one
 * seen is read as "a new stage has started from 0".
 *
 * The specification is a pure step function over the two mutable cells
 * (`Step`, folded over a sequence of reports by `Run`); the class
 * `ProgressReporter` is the imperative reporter, proved against `Step`.
 */
module Progress {

  datatype Option<T> = None | Some(value: T)

  /** Where the accumulated total is shown. */
  datatype Display =
    | Gauge     // broadcast on the message bus; no cap
    | Dialog    // a modal progress dialog; totals at or above SnapThreshold become 100
    | Disabled  // the dialog was asked for but there is no GUI application: every update returns 0

  /** On the dialog path a total at or above this value is shown as exactly 100. */
  const SnapThreshold: real := 99.999

  /**
   * The display chosen by the factory from its `dialog_type` argument and from
   * whether a GUI application with a top window exists. `None` stands for a
   * type name the factory does not know.
   */
  function SelectDisplay(dialogType: string, guiAvailable: bool): (d: Option<Display>)
    ensures d.None? <==> dialogType != "GaugeProgress" && dialogType != "ProgressDialog"
    ensures d == Some(Disabled) <==> dialogType == "ProgressDialog" && !guiAvailable
    ensures d == Some(Dialog) <==> dialogType == "ProgressDialog" && guiAvailable
    ensures d == Some(Gauge) <==> dialogType == "GaugeProgress"
  {
    if dialogType == "ProgressDialog" then
      (if guiAvailable then Some(Dialog) else Some(Disabled))
    else if dialogType == "GaugeProgress" then
      Some(Gauge)
    else
      None
  }

  /**
   * The share of the overall 100% owned by one stage; a stage count below 1
   * is taken as 1.
   */
  function Ratio(numberOfFilters: int): (r: real)
    ensures 0.0 < r <= 100.0
    ensures numberOfFilters >= 1 ==> numberOfFilters as real * r == 100.0
    ensures numberOfFilters < 1 ==> r == 100.0
  {
    var stages := if numberOfFilters < 1 then 1 else numberOfFilters;
    100.0 / stages as real
  }

  /**
   * How much of the current stage has been completed since the last report.
   * A fraction lower than the last one seen starts a new stage from 0.
   */
  function Difference(lastFraction: real, fraction: real): (d: real)
    ensures fraction >= lastFraction ==> lastFraction + d == fraction
    ensures fraction < lastFraction ==> d == fraction
    ensures 0.0 <= fraction ==> 0.0 <= d
    ensures 0.0 <= lastFraction ==> d <= fraction
  {
    if fraction < lastFraction then fraction else fraction - lastFraction
  }

  /** The total as the display keeps it: the dialog snaps near-complete totals to 100. */
  function Settle(display: Display, total: real): (r: real)
    ensures display == Dialog ==> r <= 100.0
    ensures display == Dialog && total >= SnapThreshold ==> r == 100.0
    ensures r != total ==> display == Dialog && total >= SnapThreshold && r == 100.0
  {
    if display == Dialog && total >= SnapThreshold then 100.0 else total
  }

  /** The reporter's two mutable cells: the running total and the last fraction seen. */
  datatype Cells = Cells(progress: real, lastFraction: real)

  const Initial: Cells := Cells(0.0, 0.0)

  /** The states a reporter of the given display can be in. */
  predicate Consistent(display: Display, c: Cells)
  {
    match display
    case Gauge => true
    case Dialog => c.progress < SnapThreshold || c.progress == 100.0
    case Disabled => c == Initial
  }

  /** One report of `fraction`: the new cells; the value returned is their `progress`. */
  function Step(display: Display, ratio: real, c: Cells, fraction: real): (next: Cells)
    ensures display != Disabled ==> next.lastFraction == fraction
    ensures display == Disabled ==> next == c
    ensures Consistent(display, c) ==> Consistent(display, next)
    ensures display == Dialog ==> next.progress <= 100.0
  {
    if display == Disabled then c
    else Cells(Settle(display, c.progress + ratio * Difference(c.lastFraction, fraction)), fraction)
  }

  /** The cells after reporting `fractions` in order. */
  function Run(display: Display, ratio: real, c: Cells, fractions: seq<real>): (final: Cells)
    ensures display != Disabled && fractions != [] ==> final.lastFraction == fractions[|fractions| - 1]
    ensures Consistent(display, c) ==> Consistent(display, final)
    decreases |fractions|
  {
    if fractions == [] then c
    else Run(display, ratio, Step(display, ratio, c, fractions[0]), fractions[1..])
  }

  predicate NonDecreasing(s: seq<real>)
  {
    forall i, j :: 0 <= i <= j < |s| ==> s[i] <= s[j]
  }

  /** A stage run to completion: non-decreasing reports from below 1.0 up to exactly 1.0. */
  predicate CompleteStage(s: seq<real>)
  {
    |s| > 0 && NonDecreasing(s) && 0.0 <= s[0] < 1.0 && s[|s| - 1] == 1.0
  }

  /** The reports of several stages, one after the other. */
  function Flatten(stages: seq<seq<real>>): seq<real>
  {
    if stages == [] then [] else Flatten(stages[..|stages| - 1]) + stages[|stages| - 1]
  }

  lemma NonDecreasingTail(s: seq<real>)
    requires s != [] && NonDecreasing(s)
    ensures NonDecreasing(s[1..])
  {
    forall i, j | 0 <= i <= j < |s| - 1 ensures s[1..][i] <= s[1..][j] {
      assert s[i + 1] <= s[j + 1];
    }
  }

  /** Reporting the fraction last seen again changes nothing. */
  lemma SameFractionAddsNothing(display: Display, ratio: real, c: Cells)
    requires Consistent(display, c)
    ensures Step(display, ratio, c, c.lastFraction) == c
  {
  }

  /** Snapping an intermediate total changes nothing at the end, once what follows is not negative. */
  lemma SettleAbsorbs(display: Display, total: real, more: real)
    requires display == Dialog ==> 0.0 <= more
    ensures Settle(display, Settle(display, total) + more) == Settle(display, total + more)
  {
  }

  lemma ScaledSplit(ratio: real, a: real, b: real)
    ensures ratio * a + ratio * (b - a) == ratio * b
  {
  }

  lemma ScaledTelescope(ratio: real, a: real, b: real, c: real)
    ensures ratio * (b - a) + ratio * (c - b) == ratio * (c - a)
  {
  }

  lemma ScaledNonNegative(ratio: real, x: real)
    requires 0.0 <= ratio && 0.0 <= x
    ensures 0.0 <= ratio * x
  {
  }

  lemma ScaledCount(ratio: real, k: nat)
    ensures k as real * ratio + ratio == (k + 1) as real * ratio
  {
  }

  /** For fractions of at least 0 the returned total never decreases from one report to the next. */
  lemma StepNeverDecreases(display: Display, ratio: real, c: Cells, fraction: real)
    requires Consistent(display, c) && 0.0 <= ratio && 0.0 <= fraction
    ensures c.progress <= Step(display, ratio, c, fraction).progress
  {
  }

  /** ... and so over any sequence of such reports. */
  lemma {:induction false} RunNeverDecreases(display: Display, ratio: real, c: Cells, fractions: seq<real>)
    requires Consistent(display, c) && 0.0 <= ratio
    requires forall i :: 0 <= i < |fractions| ==> 0.0 <= fractions[i]
    ensures c.progress <= Run(display, ratio, c, fractions).progress
    decreases |fractions|
  {
    if fractions != [] {
      StepNeverDecreases(display, ratio, c, fractions[0]);
      RunNeverDecreases(display, ratio, Step(display, ratio, c, fractions[0]), fractions[1..]);
    }
  }

  /** Reporting `a` and then `b` is reporting `a + b`. */
  lemma {:induction false} RunAppend(display: Display, ratio: real, c: Cells, a: seq<real>, b: seq<real>)
    ensures Run(display, ratio, c, a + b) == Run(display, ratio, Run(display, ratio, c, a), b)
    decreases |a|
  {
    if a != [] {
      assert (a + b)[0] == a[0] && (a + b)[1..] == a[1..] + b;
      RunAppend(display, ratio, Step(display, ratio, c, a[0]), a[1..], b);
    } else {
      assert a + b == b;
    }
  }

  /**
   * The dialog path shows the message-bus total snapped once: fed the same
   * fractions from matching cells, the dialog's total is the message-bus
   * total settled, and both have seen the same last fraction.
   */
  lemma {:induction false} RunSettlesGauge(display: Display, ratio: real, c: Cells, g: Cells, fractions: seq<real>)
    requires display != Disabled && 0.0 <= ratio
    requires c == Cells(Settle(display, g.progress), g.lastFraction)
    requires forall i :: 0 <= i < |fractions| ==> 0.0 <= fractions[i]
    ensures Run(display, ratio, c, fractions)
         == Cells(Settle(display, Run(Gauge, ratio, g, fractions).progress), Run(Gauge, ratio, g, fractions).lastFraction)
    decreases |fractions|
  {
    if fractions != [] {
      var f := fractions[0];
      var d := Difference(g.lastFraction, f);
      ScaledNonNegative(ratio, d);
      SettleAbsorbs(display, g.progress, ratio * d);
      RunSettlesGauge(display, ratio, Step(display, ratio, c, f), Step(Gauge, ratio, g, f), fractions[1..]);
    }
  }

  /**
   * On the message-bus path, within a stage already under way, non-decreasing
   * reports add `ratio` times the distance from the last fraction seen to the
   * final one.
   */
  lemma {:induction false} StageContinues(ratio: real, c: Cells, fractions: seq<real>)
    requires fractions != [] && NonDecreasing(fractions) && c.lastFraction <= fractions[0]
    ensures Run(Gauge, ratio, c, fractions).progress
         == c.progress + ratio * (fractions[|fractions| - 1] - c.lastFraction)
    decreases |fractions|
  {
    var f0, fl := fractions[0], fractions[|fractions| - 1];
    var next := Step(Gauge, ratio, c, f0);
    assert Difference(c.lastFraction, f0) == f0 - c.lastFraction;
    assert next == Cells(c.progress + ratio * (f0 - c.lastFraction), f0);
    if |fractions| == 1 {
      assert Run(Gauge, ratio, c, fractions) == next;
    } else {
      var rest := fractions[1..];
      assert Run(Gauge, ratio, c, fractions) == Run(Gauge, ratio, next, rest);
      assert rest[|rest| - 1] == fl;
      assert NonDecreasing(rest) by { NonDecreasingTail(fractions); }
      StageContinues(ratio, next, rest);
      ScaledTelescope(ratio, c.lastFraction, f0, fl);
    }
  }

  /** On the message-bus path, the first report of a fresh stage adds `ratio` times that report. */
  lemma FreshStageStep(ratio: real, c: Cells, f0: real)
    requires f0 < c.lastFraction || c.lastFraction == 0.0
    ensures Step(Gauge, ratio, c, f0) == Cells(c.progress + ratio * f0, f0)
  {
    assert Difference(c.lastFraction, f0) == f0;
  }

  /** One report of a run, taken off its front. */
  lemma RunHead(display: Display, ratio: real, c: Cells, fractions: seq<real>)
    requires fractions != []
    ensures Run(display, ratio, c, fractions) == Run(display, ratio, Step(display, ratio, c, fractions[0]), fractions[1..])
    ensures fractions[1..] == [] ==> Run(display, ratio, c, fractions) == Step(display, ratio, c, fractions[0])
  {
  }

  /** The reports after a fresh stage's first one `f0` bring its share up to `ratio` times the last. */
  lemma FreshStageContinues(ratio: real, total: real, f0: real, rest: seq<real>)
    requires NonDecreasing(rest) && (rest != [] ==> f0 <= rest[0])
    ensures var last := if rest == [] then f0 else rest[|rest| - 1];
      Run(Gauge, ratio, Cells(total + ratio * f0, f0), rest) == Cells(total + ratio * last, last)
  {
    if rest != [] {
      StageContinues(ratio, Cells(total + ratio * f0, f0), rest);
      ScaledSplit(ratio, f0, rest[|rest| - 1]);
    }
  }

  /**
   * On the message-bus path, a stage whose first report starts it afresh (a
   * drop below the last fraction seen, or a reporter that has seen nothing
   * yet) and whose reports never decrease adds exactly `ratio` times its
   * final fraction.
   */
  lemma StageTelescopesOnGauge(ratio: real, c: Cells, fractions: seq<real>)
    requires fractions != [] && NonDecreasing(fractions)
    requires fractions[0] < c.lastFraction || c.lastFraction == 0.0
    ensures Run(Gauge, ratio, c, fractions).progress == c.progress + ratio * fractions[|fractions| - 1]
    ensures Run(Gauge, ratio, c, fractions).lastFraction == fractions[|fractions| - 1]
  {
    var f0, rest := fractions[0], fractions[1..];
    FreshStageStep(ratio, c, f0);
    RunHead(Gauge, ratio, c, fractions);
    assert NonDecreasing(rest) by { NonDecreasingTail(fractions); }
    FreshStageContinues(ratio, c.progress, f0, rest);
    assert fractions[|fractions| - 1] == if rest == [] then f0 else rest[|rest| - 1];
  }

  /** The same, on either path: the dialog path shows that total snapped. */
  lemma StageTelescopes(display: Display, ratio: real, c: Cells, fractions: seq<real>)
    requires display != Disabled && Consistent(display, c) && 0.0 <= ratio
    requires fractions != [] && NonDecreasing(fractions) && 0.0 <= fractions[0]
    requires fractions[0] < c.lastFraction || c.lastFraction == 0.0
    ensures Run(display, ratio, c, fractions).progress
         == Settle(display, c.progress + ratio * fractions[|fractions| - 1])
    ensures Run(display, ratio, c, fractions).lastFraction == fractions[|fractions| - 1]
  {
    StageTelescopesOnGauge(ratio, c, fractions);
    assert forall i :: 0 <= i < |fractions| ==> fractions[0] <= fractions[i];
    RunSettlesGauge(display, ratio, c, c, fractions);
  }

  /** On the message-bus path a completed stage adds exactly one stage share. */
  lemma CompletedStageAddsRatio(ratio: real, c: Cells, stage: seq<real>)
    requires CompleteStage(stage)
    requires stage[0] < c.lastFraction || c.lastFraction == 0.0
    ensures Run(Gauge, ratio, c, stage).progress == c.progress + ratio
    ensures Run(Gauge, ratio, c, stage).lastFraction == 1.0
  {
    StageTelescopesOnGauge(ratio, c, stage);
    assert ratio * 1.0 == ratio;
  }

  /** A fresh message-bus reporter fed `k` complete stages one after another shows `k` stage shares. */
  lemma {:induction false} CompletedStagesAddShares(numberOfFilters: int, stages: seq<seq<real>>)
    requires forall i :: 0 <= i < |stages| ==> CompleteStage(stages[i])
    ensures Run(Gauge, Ratio(numberOfFilters), Initial, Flatten(stages)).progress
         == |stages| as real * Ratio(numberOfFilters)
    ensures stages != [] ==> Run(Gauge, Ratio(numberOfFilters), Initial, Flatten(stages)).lastFraction == 1.0
    decreases |stages|
  {
    var ratio := Ratio(numberOfFilters);
    if stages != [] {
      var m := |stages|;
      var before, stage := stages[..m - 1], stages[m - 1];
      assert Flatten(stages) == Flatten(before) + stage;
      CompletedStagesAddShares(numberOfFilters, before);
      RunAppend(Gauge, ratio, Initial, Flatten(before), stage);
      var c := Run(Gauge, ratio, Initial, Flatten(before));
      assert CompleteStage(stage);
      CompletedStageAddsRatio(ratio, c, stage);
      ScaledCount(ratio, m - 1);
    }
  }

  /** Every fraction reported by complete stages is at least 0. */
  lemma {:induction false} CompletedStagesNonNegative(stages: seq<seq<real>>)
    requires forall i :: 0 <= i < |stages| ==> CompleteStage(stages[i])
    ensures forall i :: 0 <= i < |Flatten(stages)| ==> 0.0 <= Flatten(stages)[i]
    decreases |stages|
  {
    if stages != [] {
      var m := |stages|;
      var before, stage := stages[..m - 1], stages[m - 1];
      CompletedStagesNonNegative(before);
      assert CompleteStage(stage);
      assert forall j :: 0 <= j < |stage| ==> stage[0] <= stage[j];
    }
  }

  /** A pipeline whose every announced stage completes ends at exactly 100, on either path. */
  lemma PipelineEndsAtHundred(display: Display, numberOfFilters: int, stages: seq<seq<real>>)
    requires display != Disabled && numberOfFilters >= 1 && |stages| == numberOfFilters
    requires forall i :: 0 <= i < |stages| ==> CompleteStage(stages[i])
    ensures Run(display, Ratio(numberOfFilters), Initial, Flatten(stages)).progress == 100.0
  {
    CompletedStagesAddShares(numberOfFilters, stages);
    CompletedStagesNonNegative(stages);
    RunSettlesGauge(display, Ratio(numberOfFilters), Initial, Initial, Flatten(stages));
  }

  /**
   * While such a pipeline is still running, every total it shows lies in
   * 0 .. 100, on either path: the totals never decrease and end at 100.
   */
  lemma PipelinePrefixWithinHundred(display: Display, numberOfFilters: int, stages: seq<seq<real>>, k: nat)
    requires display != Disabled && numberOfFilters >= 1 && |stages| == numberOfFilters
    requires forall i :: 0 <= i < |stages| ==> CompleteStage(stages[i])
    requires k <= |Flatten(stages)|
    ensures 0.0 <= Run(display, Ratio(numberOfFilters), Initial, Flatten(stages)[..k]).progress <= 100.0
  {
    var ratio, fs := Ratio(numberOfFilters), Flatten(stages);
    var prefix, suffix := fs[..k], fs[k..];
    assert fs == prefix + suffix;
    CompletedStagesNonNegative(stages);
    assert forall i :: 0 <= i < |prefix| ==> 0.0 <= prefix[i] by {
      forall i | 0 <= i < |prefix| ensures 0.0 <= prefix[i] { assert prefix[i] == fs[i]; }
    }
    assert forall i :: 0 <= i < |suffix| ==> 0.0 <= suffix[i] by {
      forall i | 0 <= i < |suffix| ensures 0.0 <= suffix[i] { assert suffix[i] == fs[k + i]; }
    }
    RunAppend(display, ratio, Initial, prefix, suffix);
    RunNeverDecreases(display, ratio, Initial, prefix);
    RunNeverDecreases(display, ratio, Run(display, ratio, Initial, prefix), suffix);
    PipelineEndsAtHundred(display, numberOfFilters, stages);
  }

  /**
   * The message-bus path applies no cap: with one announced stage, a stage
   * that completes, dips to one half and completes again shows 200.
   */
  lemma GaugeHasNoCap()
    ensures Run(Gauge, Ratio(1), Initial, [1.0, 0.5, 1.0]).progress == 200.0
    ensures Run(Dialog, Ratio(1), Initial, [1.0, 0.5, 1.0]).progress == 100.0
  {
    var s := [1.0, 0.5, 1.0];
    assert s[1..] == [0.5, 1.0] && s[1..][1..] == [1.0] && [1.0][1..] == [];
  }

  /**
   * The reporter returned by the factory. The two cells are fields that every
   * update reassigns; `notified` records, in order, the totals handed to the
   * display (the message-bus broadcast or the dialog update).
   */
  class ProgressReporter {
    const display: Display
    const ratio: real
    var progress: real
    var lastObjProgress: real
    ghost var notified: seq<real>

    ghost function State(): Cells
      reads this
    {
      Cells(progress, lastObjProgress)
    }

    ghost predicate Valid()
      reads this
    {
      0.0 < ratio <= 100.0 && Consistent(display, State())
    }

    constructor (numberOfFilters: int := 1, display: Display := Gauge)
      ensures Valid()
      ensures this.display == display && ratio == Ratio(numberOfFilters)
      ensures State() == Initial && notified == []
    {
      this.display := display;
      ratio := Ratio(numberOfFilters);
      progress, lastObjProgress := 0.0, 0.0;
      notified := [];
    }

    /** Report the cumulative fraction of the current stage; returns the new total. */
    method Update(fraction: real) returns (r: real)
      requires Valid()
      modifies this
      ensures Valid()
      ensures State() == Step(display, ratio, old(State()), fraction)
      ensures r == progress
      ensures notified == if display == Disabled then old(notified) else old(notified) + [r]
      ensures 0.0 <= fraction ==> old(progress) <= r
      ensures display == Dialog ==> r <= 100.0
    {
      if display == Disabled {
        return 0.0;
      }
      ghost var before := State();
      var difference: real;
      if fraction < lastObjProgress {
        difference := fraction;
      } else {
        difference := fraction - lastObjProgress;
      }
      assert difference == Difference(before.lastFraction, fraction);
      lastObjProgress := fraction;
      progress := progress + ratio * difference;
      if display == Dialog && progress >= SnapThreshold {
        progress := 100.0;
      }
      assert State() == Step(display, ratio, before, fraction);
      notified := notified + [progress];
      r := progress;
      if 0.0 <= fraction {
        StepNeverDecreases(display, ratio, before, fraction);
      }
    }
  }
}
