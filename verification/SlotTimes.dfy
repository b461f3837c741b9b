/** The semester's start-time window: as a restriction of the slot domains (HARD) or as a penalty (SOFT),
    and why both rank the plans inside the window alike. Clock times are minutes of the day. */
module SlotTimes {
  import opened ExamPlanProblem
  import opened ExamPlanLoads
  import opened ExamPlanCost
  import Domains = SlotDomains

  datatype Mode = Off | Winter | Summer

  /** forbidden and severity are empty where the program leaves them nil. */
  datatype TimeSpec = TimeSpec(mode: Mode, hard: bool, forbidden: seq<bool>, severity: seq<real>, weight: real)

  datatype Limits = Limits(mode: Mode, earliestMin: int, latestMin: int, windowWeight: real, gradientWeight: real)

  const NO_SPEC := TimeSpec(Off, false, [], [], 0.0)

  function Hours(minutes: int): real { if minutes > 0 then minutes as real / 60.0 else 0.0 }

  /** The day's first start, at most midnight. */
  function EarliestStart(starts: seq<int>): int {
    if starts == [] then 24 * 60
    else
      var e := EarliestStart(starts[..|starts| - 1]);
      if starts[|starts| - 1] < e then starts[|starts| - 1] else e
  }

  /** Hours outside the window. */
  function WindowHours(l: Limits, start: int): real {
    match l.mode
    case Off => 0.0
    case Winter => Hours(l.earliestMin - start)
    case Summer => Hours(start - l.latestMin)
  }

  /** Hours behind the day's first slot, in summer. */
  function GradientHours(l: Limits, first: int, start: int): real {
    if l.mode.Summer? then Hours(start - first) else 0.0
  }

  /** What the solver charges per seat for a slot; nothing without a severity for it. */
  function SlotCost(spec: TimeSpec, s: int): real {
    if spec.weight == 0.0 || s < 0 || s >= |spec.severity| then 0.0 else spec.weight * spec.severity[s]
  }

  ghost predicate PositiveWeights(l: Limits) { l.windowWeight > 0.0 && l.gradientWeight > 0.0 }

  method FirstStart(starts: seq<int>) returns (first: int)
    ensures first == EarliestStart(starts)
  {
    first := 24 * 60;
    for i := 0 to |starts|
      invariant first == EarliestStart(starts[..i])
    {
      assert starts[..i + 1][..i] == starts[..i];
      if starts[i] < first { first := starts[i]; }
    }
    assert starts[..|starts|] == starts;
  }

  method HoursOfSlots(l: Limits, starts: seq<int>, first: int) returns (windowHours: seq<real>, gradientHours: seq<real>)
    ensures |windowHours| == |starts| && forall i :: 0 <= i < |starts| ==> windowHours[i] == WindowHours(l, starts[i])
    ensures |gradientHours| == |starts| && forall i :: 0 <= i < |starts| ==> gradientHours[i] == GradientHours(l, first, starts[i])
  {
    windowHours, gradientHours := [], [];
    for i := 0 to |starts|
      invariant |windowHours| == i && forall j :: 0 <= j < i ==> windowHours[j] == WindowHours(l, starts[j])
      invariant |gradientHours| == i && forall j :: 0 <= j < i ==> gradientHours[j] == GradientHours(l, first, starts[j])
    {
      var w, g := 0.0, 0.0;
      match l.mode {
        case Off =>
        case Winter =>
          var d := l.earliestMin - starts[i];
          if d > 0 { w := d as real / 60.0; }
        case Summer =>
          var d := starts[i] - l.latestMin;
          if d > 0 { w := d as real / 60.0; }
          var e := starts[i] - first;
          if e > 0 { g := e as real / 60.0; }
      }
      windowHours, gradientHours := windowHours + [w], gradientHours + [g];
    }
  }

  /** The price of w hours outside the window and g hours behind the first slot: the window costs
      nothing where it is enforced. */
  function Price(l: Limits, hard: bool, w: real, g: real): real {
    (if hard then 0.0 else l.windowWeight * w) + l.gradientWeight * g
  }

  ghost predicate Charges(l: Limits, starts: seq<int>, hard: bool, spec: TimeSpec) {
    forall s {:trigger SlotCost(spec, s)} :: 0 <= s < |starts| ==>
      SlotCost(spec, s) == Price(l, hard, WindowHours(l, starts[s]), GradientHours(l, EarliestStart(starts), starts[s]))
  }

  ghost predicate Forbids(l: Limits, starts: seq<int>, spec: TimeSpec) {
    |spec.forbidden| == |starts| && forall s :: 0 <= s < |starts| ==> (spec.forbidden[s] <==> WindowHours(l, starts[s]) > 0.0)
  }

  method ComputeSlotTimeSpec(l: Limits, hard: bool, starts: seq<int>) returns (spec: TimeSpec)
    requires PositiveWeights(l)
    ensures l.mode.Off? || starts == [] ==> spec == NO_SPEC
    ensures !l.mode.Off? && starts != [] ==> spec.mode == l.mode && spec.hard == hard
    ensures !l.mode.Off? ==> Charges(l, starts, hard, spec)
    ensures !l.mode.Off? && hard && starts != [] ==> Forbids(l, starts, spec)
    ensures !hard ==> spec.forbidden == []
  {
    if l.mode.Off? || |starts| == 0 { return NO_SPEC; }
    var first := FirstStart(starts);
    var windowHours, gradientHours := HoursOfSlots(l, starts, first);
    if hard {
      spec := HardSpec(l, windowHours, gradientHours);
    } else {
      spec := SoftSpec(l, windowHours, gradientHours);
    }
  }

  method HardSpec(l: Limits, windowHours: seq<real>, gradientHours: seq<real>) returns (spec: TimeSpec)
    requires PositiveWeights(l) && |windowHours| == |gradientHours|
    requires forall i :: 0 <= i < |gradientHours| ==> gradientHours[i] >= 0.0
    ensures spec.mode == l.mode && spec.hard && |spec.forbidden| == |windowHours|
    ensures forall s :: 0 <= s < |windowHours| ==> (spec.forbidden[s] <==> windowHours[s] > 0.0)
    ensures forall s :: 0 <= s < |windowHours| ==> SlotCost(spec, s) == Price(l, true, windowHours[s], gradientHours[s])
  {
    var forbidden, hasSeverity := [], false;
    for i := 0 to |windowHours|
      invariant |forbidden| == i && forall j :: 0 <= j < i ==> (forbidden[j] <==> windowHours[j] > 0.0)
      invariant hasSeverity <==> exists j :: 0 <= j < i && gradientHours[j] > 0.0
    {
      forbidden := forbidden + [windowHours[i] > 0.0];
      if gradientHours[i] > 0.0 { hasSeverity := true; }
    }
    spec := TimeSpec(l.mode, true, forbidden, [], 0.0);
    if hasSeverity && l.gradientWeight > 0.0 {
      spec := spec.(severity := gradientHours, weight := l.gradientWeight);
    }
  }

  method SoftSpec(l: Limits, windowHours: seq<real>, gradientHours: seq<real>) returns (spec: TimeSpec)
    requires PositiveWeights(l) && |windowHours| == |gradientHours|
    requires forall i :: 0 <= i < |windowHours| ==> windowHours[i] >= 0.0 && gradientHours[i] >= 0.0
    ensures spec.mode == l.mode && !spec.hard && spec.forbidden == []
    ensures forall s :: 0 <= s < |windowHours| ==> SlotCost(spec, s) == Price(l, false, windowHours[s], gradientHours[s])
  {
    var ratio := if l.windowWeight > 0.0 then l.gradientWeight / l.windowWeight else 0.0;
    var sev, any := [], false;
    for i := 0 to |windowHours|
      invariant |sev| == i && forall j :: 0 <= j < i ==> sev[j] == Folded(l, windowHours[j], gradientHours[j])
      invariant any <==> exists j :: 0 <= j < i && sev[j] > 0.0
    {
      sev := sev + [windowHours[i] + ratio * gradientHours[i]];
      if sev[i] > 0.0 { any := true; }
    }
    spec := TimeSpec(l.mode, false, [], [], 0.0);
    if any && l.windowWeight > 0.0 {
      spec := spec.(severity := sev, weight := l.windowWeight);
    }
    forall s | 0 <= s < |windowHours| ensures SlotCost(spec, s) == Price(l, false, windowHours[s], gradientHours[s]) {
      FoldedWeight(l, windowHours[s], gradientHours[s]);
    }
  }

  /** Window penalty and gradient folded into one number under the window weight. */
  function Folded(l: Limits, w: real, g: real): real
    requires l.windowWeight > 0.0
  {
    w + l.gradientWeight / l.windowWeight * g
  }

  lemma FoldedWeight(l: Limits, w: real, g: real)
    requires PositiveWeights(l) && w >= 0.0 && g >= 0.0
    ensures l.windowWeight * Folded(l, w, g) == l.windowWeight * w + l.gradientWeight * g
    ensures Folded(l, w, g) <= 0.0 ==> w == 0.0 && g == 0.0
  {
    var ratio := l.gradientWeight / l.windowWeight;
    assert ratio > 0.0 && l.windowWeight * ratio == l.gradientWeight;
    assert l.windowWeight * (ratio * g) == l.gradientWeight * g;
    if g > 0.0 { assert ratio * g > 0.0; } else { assert ratio * g == 0.0; }
  }

  // ----- what an hour costs -----

  lemma HoursExact(minutes: int)
    ensures 60.0 * Hours(minutes) == if minutes > 0 then minutes as real else 0.0
  {}

  /** The reference of the gradient is the first start of all: none is earlier, and some slot has it. */
  lemma {:induction false} EarliestIsFirst(starts: seq<int>)
    ensures forall i :: 0 <= i < |starts| ==> EarliestStart(starts) <= starts[i]
    ensures EarliestStart(starts) == 24 * 60 || exists i :: 0 <= i < |starts| && EarliestStart(starts) == starts[i]
  {
    if starts != [] {
      var front := starts[..|starts| - 1];
      EarliestIsFirst(front);
      assert forall i :: 0 <= i < |front| ==> front[i] == starts[i];
    }
  }

  lemma HourApart(l: Limits, first: int, start: int)
    ensures l.mode.Summer? && start >= l.latestMin ==> WindowHours(l, start + 60) == WindowHours(l, start) + 1.0
    ensures l.mode.Winter? && start <= l.earliestMin ==> WindowHours(l, start - 60) == WindowHours(l, start) + 1.0
    ensures l.mode.Summer? && start >= first ==> GradientHours(l, first, start + 60) == GradientHours(l, first, start) + 1.0
    ensures !l.mode.Summer? ==> GradientHours(l, first, start) == 0.0
  {
    HoursExact(l.earliestMin - start);
  }

  /** In summer a slot an hour later costs the gradient weight more per seat, and outside the window under
      SOFT the window weight as well. */
  lemma SummerHour(l: Limits, starts: seq<int>, hard: bool, spec: TimeSpec, s: nat, t: nat)
    requires l.mode.Summer? && Charges(l, starts, hard, spec) && s < |starts| && t < |starts| && starts[t] == starts[s] + 60
    requires starts[t] <= l.latestMin || starts[s] >= l.latestMin
    ensures SlotCost(spec, t) - SlotCost(spec, s) == l.gradientWeight + if hard || starts[t] <= l.latestMin then 0.0 else l.windowWeight
  {
    EarliestIsFirst(starts);
    HourApart(l, EarliestStart(starts), starts[s]);
    var g, w := GradientHours(l, EarliestStart(starts), starts[s]), WindowHours(l, starts[s]);
    assert SlotCost(spec, s) == Price(l, hard, w, g);
    assert SlotCost(spec, t) == Price(l, hard, WindowHours(l, starts[t]), g + 1.0);
  }

  /** In winter a slot an hour earlier costs the window weight more per seat under SOFT, and no slot costs
      anything under HARD. */
  lemma WinterHour(l: Limits, starts: seq<int>, hard: bool, spec: TimeSpec, s: nat, t: nat)
    requires l.mode.Winter? && Charges(l, starts, hard, spec) && s < |starts| && t < |starts| && starts[t] == starts[s] - 60
    requires starts[s] <= l.earliestMin
    ensures SlotCost(spec, t) - SlotCost(spec, s) == if hard then 0.0 else l.windowWeight
    ensures hard ==> SlotCost(spec, s) == 0.0
  {
    HourApart(l, EarliestStart(starts), starts[s]);
    HourApart(l, EarliestStart(starts), starts[t]);
    var w := WindowHours(l, starts[s]);
    assert SlotCost(spec, s) == Price(l, hard, w, 0.0);
    assert SlotCost(spec, t) == Price(l, hard, w + 1.0, 0.0);
  }

  // ----- HARD and SOFT over a whole plan -----

  /** In summer the window ends, in winter it begins at the limit. */
  predicate StartsInside(l: Limits, start: int) {
    match l.mode
    case Off => true
    case Winter => start >= l.earliestMin
    case Summer => start <= l.latestMin
  }

  lemma WindowMeaning(l: Limits, start: int)
    ensures WindowHours(l, start) >= 0.0 && (WindowHours(l, start) == 0.0 <==> StartsInside(l, start))
  {}

  /** The problem with a specification's severity and weight installed. */
  function Install(p: Problem, spec: TimeSpec): Problem {
    p.(severity := spec.severity, w := p.w.(timeOfDay := spec.weight))
  }

  predicate Outside(p: Problem, l: Limits, starts: seq<int>, u: int, s: int)
    requires IsUnit(p, u)
  {
    !p.units[u].exahm && !p.units[u].seb && 0 <= s < |starts| && !StartsInside(l, starts[s])
  }

  /** No non-exempt unit with seats stands outside the window. */
  ghost predicate InsideWindow(p: Problem, l: Limits, starts: seq<int>, slotOf: seq<int>, n: nat)
    requires n <= |slotOf| == |p.units|
  {
    forall u :: 0 <= u < n ==> p.units[u].seats == 0 || !Outside(p, l, starts, u, slotOf[u])
  }

  function Times(a: real, n: int): real { a * n as real }

  lemma UnitCost(p: Problem, l: Limits, starts: seq<int>, hard: bool, spec: TimeSpec, u: int, s: int)
    requires IsUnit(p, u) && 0 <= s < |starts| && Charges(l, starts, hard, spec)
    ensures TimePenalty(Install(p, spec), u, s) ==
            if p.units[u].exahm || p.units[u].seb then 0.0
            else Times(Price(l, hard, WindowHours(l, starts[s]), GradientHours(l, EarliestStart(starts), starts[s])), p.units[u].seats)
  {
    assert SlotCost(spec, s) == Price(l, hard, WindowHours(l, starts[s]), GradientHours(l, EarliestStart(starts), starts[s]));
  }

  lemma TimesMore(a: real, b: real, n: int)
    requires n >= 0 && b >= 0.0
    ensures Times(a + b, n) >= Times(a, n)
    ensures Times(a + b, n) == Times(a, n) <==> n == 0 || b == 0.0
  {
    assert Times(a + b, n) == Times(a, n) + b * n as real;
    if n > 0 && b > 0.0 { assert b * n as real > 0.0; }
  }

  lemma SoftUnitMore(p: Problem, l: Limits, starts: seq<int>, hardSpec: TimeSpec, softSpec: TimeSpec, u: int, s: int)
    requires IsUnit(p, u) && p.units[u].seats >= 0 && 0 <= s < |starts| && PositiveWeights(l)
    requires Charges(l, starts, true, hardSpec) && Charges(l, starts, false, softSpec)
    ensures TimePenalty(Install(p, softSpec), u, s) >= TimePenalty(Install(p, hardSpec), u, s)
    ensures TimePenalty(Install(p, softSpec), u, s) == TimePenalty(Install(p, hardSpec), u, s) <==>
            p.units[u].seats == 0 || !Outside(p, l, starts, u, s)
  {
    UnitCost(p, l, starts, true, hardSpec, u, s);
    UnitCost(p, l, starts, false, softSpec, u, s);
    var w, g := WindowHours(l, starts[s]), GradientHours(l, EarliestStart(starts), starts[s]);
    WindowMeaning(l, starts[s]);
    var extra := l.windowWeight * w;
    assert w >= 0.0 && (w > 0.0 ==> extra > 0.0) && (w == 0.0 ==> extra == 0.0);
    TimesMore(Price(l, true, w, g), extra, p.units[u].seats);
    assert Price(l, true, w, g) + extra == Price(l, false, w, g);
  }

  /** Main result: SOFT never charges a plan less than HARD, and exactly the plans that put no non-exempt
      seats outside the window cost the same under both. */
  lemma {:induction false} SoftVersusHard(p: Problem, l: Limits, starts: seq<int>, hardSpec: TimeSpec, softSpec: TimeSpec, slotOf: seq<int>, n: nat)
    requires Assignment(p, slotOf) && n <= |slotOf| && |starts| == |p.slots| && PositiveWeights(l)
    requires forall u :: IsUnit(p, u) ==> p.units[u].seats >= 0
    requires Charges(l, starts, true, hardSpec) && Charges(l, starts, false, softSpec)
    ensures Assignment(Install(p, softSpec), slotOf) && Assignment(Install(p, hardSpec), slotOf)
    ensures TimeTotal(Install(p, softSpec), slotOf, n) >= TimeTotal(Install(p, hardSpec), slotOf, n)
    ensures TimeTotal(Install(p, softSpec), slotOf, n) == TimeTotal(Install(p, hardSpec), slotOf, n) <==>
            InsideWindow(p, l, starts, slotOf, n)
  {
    if n > 0 {
      SoftVersusHard(p, l, starts, hardSpec, softSpec, slotOf, n - 1);
      assert IsUnit(p, n - 1);
      if slotOf[n - 1] >= 0 { SoftUnitMore(p, l, starts, hardSpec, softSpec, n - 1, slotOf[n - 1]); }
    }
  }

  /** Under HARD a movable non-exempt unit keeps exactly its slots that start inside the window, or none. */
  lemma HardDomainExact(l: Limits, starts: seq<int>, spec: TimeSpec, u: Domains.DomainUnit)
    requires Forbids(l, starts, spec) && Domains.BoundByWindow(u)
    ensures forall s :: s in Domains.Effective(Domains.AfterWindow(spec.forbidden, u).allowed, |starts|) <==>
                        s in Domains.Effective(u.allowed, |starts|) && StartsInside(l, starts[s])
  {
    Domains.FilterExact(u.allowed, |starts|, Domains.WindowSlots(spec.forbidden));
    forall s | 0 <= s < |starts| ensures s in Domains.WindowSlots(spec.forbidden) <==> StartsInside(l, starts[s]) {
      WindowMeaning(l, starts[s]);
      assert Domains.InWindow(spec.forbidden, s) <==> !spec.forbidden[s];
    }
  }
}
