/** `PackagekitProgress` of the Python backend base: a transaction divided
    into milestones given as percentages. The state holds the overall
    percentage, the milestones, the index of the current step and the
    sub-percentage within it. Python's float product `int(f * delta)` is
    modelled as an exact product truncated toward zero. */
module Progress {

  datatype Progress = Progress(percent: int, steps: seq<int>, currentStep: nat, subpercent: int)

  /** The largest index `step` lets the current step reach: the last
      milestone, or 0 without milestones. */
  function LastStep(steps: seq<int>): nat
  {
    if |steps| == 0 then 0 else |steps| - 1
  }

  /** The invariant every operation keeps: the current step is a milestone
      index, or 0 without milestones. */
  predicate Valid(p: Progress) {
    p.currentStep <= LastStep(p.steps)
  }

  /** `__init__`: everything at zero, no milestones. */
  function New(): (r: Progress)
    ensures Valid(r)
    ensures r.percent == 0 && r.steps == [] && r.currentStep == 0 && r.subpercent == 0
  {
    Progress(0, [], 0, 0)
  }

  /** `reset`: back to the state `__init__` builds, whatever came before. */
  function Reset(p: Progress): (r: Progress)
    ensures r == New()
  {
    Progress(0, [], 0, 0)
  }

  /** `set_steps`: reset, then store the milestones. */
  function SetSteps(p: Progress, steps: seq<int>): (r: Progress)
    ensures Valid(r)
    ensures r.steps == steps && r.percent == 0 && r.currentStep == 0 && r.subpercent == 0
  {
    Reset(p).(steps := steps, currentStep := 0)
  }

  /** `step`: move to the next milestone and take its percentage while one
      is left; at the last milestone the percentage becomes 100 and the
      step stays. The sub-percentage starts again from 0. */
  function Step(p: Progress): (r: Progress)
    requires Valid(p)
    ensures Valid(r)
    ensures r.steps == p.steps && r.subpercent == 0
    ensures r.currentStep == p.currentStep + 1 <==> p.currentStep + 1 < |p.steps|
    ensures r.currentStep != p.currentStep + 1 ==> r.currentStep == p.currentStep && r.percent == 100
    ensures r.currentStep == p.currentStep + 1 ==> r.percent == p.steps[r.currentStep]
  {
    if p.currentStep < |p.steps| - 1 then
      var next := p.currentStep + 1;
      p.(currentStep := next, percent := p.steps[next], subpercent := 0)
    else
      p.(percent := 100, subpercent := 0)
  }

  /** `n` calls of `step`. */
  function StepTimes(p: Progress, n: nat): (r: Progress)
    requires Valid(p)
    ensures Valid(r) && r.steps == p.steps
  {
    if n == 0 then p else Step(StepTimes(p, n - 1))
  }

  /** Stepping from freshly set milestones: after `n` steps the current
      step is `n` up to the last milestone; while milestones are left the
      percentage is the milestone's, and once every milestone has been
      stepped over it is 100. */
  lemma {:induction false} StepsFromStart(p: Progress, steps: seq<int>, n: nat)
    ensures var r := StepTimes(SetSteps(p, steps), n);
      && r.currentStep == (if n <= LastStep(steps) then n else LastStep(steps))
      && (0 < n < |steps| ==> r.percent == steps[n])
      && (0 < n && |steps| <= n ==> r.percent == 100)
  {
    if n > 0 {
      StepsFromStart(p, steps, n - 1);
    }
  }

  /** Python's `int(x / d)` for a positive divisor: the quotient truncated
      toward zero. */
  function TruncDiv(x: int, d: int): (q: int)
    requires d > 0
    ensures 0 <= x ==> 0 <= q && q * d <= x < q * d + d
    ensures x < 0 ==> q <= 0 && q * d - d < x <= q * d
  {
    if x >= 0 then DivBounds(x, d); x / d
    else DivBounds(-x, d); -((-x) / d)
  }

  /** Euclidean division of a non-negative number by a positive one. */
  lemma DivBounds(x: int, d: int)
    requires 0 <= x && 0 < d
    ensures 0 <= x / d && (x / d) * d <= x < (x / d) * d + d
  {
    assert x == (x / d) * d + x % d;
  }

  /** The percentage the current step starts from, as written: the
      milestone before the current one, or 0 at the first step. */
  function StartPercent(p: Progress): int
    requires Valid(p)
  {
    if p.currentStep == 0 then 0 else p.steps[p.currentStep - 1]
  }

  /** The percentage the current step ends at: the next milestone, or 100
      at the last. */
  function EndPercent(p: Progress): int
    requires Valid(p)
  {
    if p.currentStep < |p.steps| - 1 then p.steps[p.currentStep + 1] else 100
  }

  /** The share `sub` per cent of `delta`, truncated toward zero. */
  function Share(sub: int, delta: int): int
  {
    TruncDiv(sub * delta, 100)
  }

  /** For a share between 0 and 100 per cent of a non-negative span the
      increment lies within the span, is 0 at 0 and the whole span at 100. */
  lemma ShareBounds(sub: int, delta: int)
    ensures 0 <= sub <= 100 && 0 <= delta ==> 0 <= Share(sub, delta) <= delta
    ensures sub == 0 ==> Share(sub, delta) == 0
    ensures sub == 100 ==> Share(sub, delta) == delta
  {
    if 0 <= sub <= 100 && 0 <= delta {
      MulMono(sub, 100, delta);
    }
  }

  /** A larger share of a non-negative span is no smaller. */
  lemma ShareMonotone(a: int, b: int, delta: int)
    requires 0 <= a <= b && 0 <= delta
    ensures Share(a, delta) <= Share(b, delta)
  {
    MulMono(a, b, delta);
  }

  /** Multiplying by a non-negative factor keeps order. */
  lemma MulMono(a: int, b: int, c: int)
    requires a <= b && 0 <= c
    ensures a * c <= b * c
  {
    assert b * c - a * c == (b - a) * c;
  }

  /** `_update_percent` as written. */
  function UpdatePercent(p: Progress): (r: Progress)
    requires Valid(p)
    ensures Valid(r) && r.steps == p.steps && r.currentStep == p.currentStep && r.subpercent == p.subpercent
  {
    var start := StartPercent(p);
    p.(percent := start + Share(p.subpercent, EndPercent(p) - start))
  }

  /** `set_subpercent` as written: store the sub-percentage and recompute
      the percentage. For a sub-percentage between 0 and 100 and a step
      that does not end below its start, the percentage lies between the
      two, at the start for 0 and at the end for 100. */
  function SetSubpercent(p: Progress, pct: int): (r: Progress)
    requires Valid(p)
    ensures Valid(r) && r.steps == p.steps && r.currentStep == p.currentStep && r.subpercent == pct
    ensures 0 <= pct <= 100 && StartPercent(p) <= EndPercent(p) ==> StartPercent(p) <= r.percent <= EndPercent(p)
    ensures pct == 0 ==> r.percent == StartPercent(p)
    ensures pct == 100 && StartPercent(p) <= EndPercent(p) ==> r.percent == EndPercent(p)
  {
    var q := p.(subpercent := pct);
    ShareBounds(pct, EndPercent(q) - StartPercent(q));
    UpdatePercent(q)
  }

  /** A larger sub-percentage gives no smaller percentage when the step
      does not end below its start. */
  lemma SubpercentMonotone(p: Progress, a: int, b: int)
    requires Valid(p) && 0 <= a <= b && StartPercent(p) <= EndPercent(p)
    ensures SetSubpercent(p, a).percent <= SetSubpercent(p, b).percent
  {
    ShareMonotone(a, b, EndPercent(p) - StartPercent(p));
  }

  /** Without the start condition a larger sub-percentage can report less:
      with milestones 60, 10, 20 one `step` reports 10, and sub-percentages
      0 and 50 then report 60 and 40. */
  lemma SubpercentFallingSteps()
    ensures var p := Step(SetSteps(New(), [60, 10, 20]));
      && p.percent == 10
      && SetSubpercent(p, 0).percent == 60
      && SetSubpercent(p, 50).percent == 40
  {
    var p := Step(SetSteps(New(), [60, 10, 20]));
    assert p.currentStep == 1;
  }

  /** As written, the percentage can move backwards: with milestones
      10, 30, 50, 70 one `step` reports 30, and a following sub-percentage
      of 0 reports 10, the milestone before. */
  lemma SubpercentRegresses()
    ensures var p := Step(SetSteps(New(), [10, 30, 50, 70]));
      && p.percent == 30
      && SetSubpercent(p, 0).percent == 10
  {
    var p := Step(SetSteps(New(), [10, 30, 50, 70]));
    assert p.currentStep == 1;
  }

  /** The percentage the current step starts from, corrected: the current
      milestone, which `step` has just reported, or 0 at the first step. */
  function StartPercentFixed(p: Progress): int
    requires Valid(p)
  {
    if p.currentStep == 0 then 0 else p.steps[p.currentStep]
  }

  /** `set_subpercent` with the corrected start: the percentage lies between
      the current milestone and the next. */
  function SetSubpercentFixed(p: Progress, pct: int): (r: Progress)
    requires Valid(p)
    ensures Valid(r) && r.steps == p.steps && r.currentStep == p.currentStep && r.subpercent == pct
    ensures 0 <= pct <= 100 && StartPercentFixed(p) <= EndPercent(p) ==> StartPercentFixed(p) <= r.percent <= EndPercent(p)
    ensures pct == 0 ==> r.percent == StartPercentFixed(p)
  {
    var start := StartPercentFixed(p);
    ShareBounds(pct, EndPercent(p) - start);
    p.(subpercent := pct, percent := start + Share(pct, EndPercent(p) - start))
  }

  /** Milestones that never decrease and stay within 100. */
  predicate Ascending(steps: seq<int>) {
    (forall i, j :: 0 <= i <= j < |steps| ==> steps[i] <= steps[j])
    && (forall i :: 0 <= i < |steps| ==> steps[i] <= 100)
  }

  /** With the corrected start and ascending milestones, a sub-percentage
      between 0 and 100 after a `step` that moved on never reports less than
      the step did, nor more than the next milestone (100 after the last). */
  lemma FixedSubpercentNoRegress(p: Progress, pct: int)
    requires Valid(p) && Ascending(p.steps) && p.currentStep + 1 < |p.steps|
    requires 0 <= pct <= 100
    ensures var s := Step(p);
      && Step(p).percent <= SetSubpercentFixed(s, pct).percent <= EndPercent(s)
  {
    var s := Step(p);
    assert StartPercentFixed(s) == s.percent;
  }
}
