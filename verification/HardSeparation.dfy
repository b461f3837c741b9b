/** One minimum separation per ordered unit pair, aggregated over the students who sit both: the
    solver's hard conflict constraint, and its meaning for every single student. */
module HardSeparation {
  import opened ExamPlanProblem

  const DEFAULT_EXAM_GAP := 30
  const DEFAULT_CROSS_CAMPUS_GAP := 120

  /** The gap the plan works with: unset or non-positive settings fall back to the default. */
  function ExamGap(configured: int): int { if configured <= 0 then DEFAULT_EXAM_GAP else configured }

  function CrossCampusGap(configured: int): int { if configured > 0 then configured else DEFAULT_CROSS_CAMPUS_GAP }

  /** A positive setting is used as it is; otherwise half an hour, and two hours between campuses. */
  lemma ConfiguredGaps(configured: int)
    ensures configured > 0 ==> ExamGap(configured) == CrossCampusGap(configured) == configured
    ensures configured <= 0 ==> ExamGap(configured) == 30 && CrossCampusGap(configured) == 120
  {}

  /** Required end-to-start buffer between two exams: the travel buffer if the campuses differ. */
  function EffectiveGap(examGap: int, crossCampusGap: int, locA: string, locB: string): int {
    if locA != locB && crossCampusGap > examGap then crossCampusGap else examGap
  }

  lemma GapIsFairAndPositive(configured: int, crossCampusGap: int, locA: string, locB: string)
    ensures var g := ExamGap(configured);
            EffectiveGap(g, crossCampusGap, locA, locB) == EffectiveGap(g, crossCampusGap, locB, locA) >= g > 0
  {}

  // ----- durations -----

  datatype Nta = Nta(mtknr: string, percent: int)

  /** One assembled exam as it enters the durations: its unit, base duration, NTA students, and the minutes
      its rooms are needed before and after. */
  datatype ExamDuration = ExamDuration(unit: int, duration: int, ntas: seq<Nta>, pre: int, post: int)

  function Max(a: int, b: int): int { if a > b then a else b }

  /** Go's division by a positive divisor: towards zero. */
  function Quotient(n: int, d: int): int
    requires d > 0
  {
    if n >= 0 then n / d else -(-n / d)
  }

  /** The NTA-extended duration in whole minutes. */
  function Extended(duration: int, percent: int): int { Quotient(duration * (100 + percent), 100) }

  /** The longest extension of one exam for a student, 0 without one. */
  function ExtensionIn(duration: int, ntas: seq<Nta>, mtknr: string): (r: int)
    ensures r >= 0
  {
    if ntas == [] then 0
    else
      var last := ntas[|ntas| - 1];
      Max(ExtensionIn(duration, ntas[..|ntas| - 1], mtknr), if last.mtknr == mtknr then Extended(duration, last.percent) else 0)
  }

  /** The longest base duration of a unit's exams. */
  function BaseOf(exams: seq<ExamDuration>, unit: int): (r: int)
    ensures r >= 0
  {
    if exams == [] then 0
    else
      var last := exams[|exams| - 1];
      Max(BaseOf(exams[..|exams| - 1], unit), if last.unit == unit then last.duration else 0)
  }

  /** The longest setup and teardown of a unit's exams. */
  function PreOf(exams: seq<ExamDuration>, unit: int): (r: int)
    ensures r >= 0
  {
    if exams == [] then 0
    else
      var last := exams[|exams| - 1];
      Max(PreOf(exams[..|exams| - 1], unit), if last.unit == unit then last.pre else 0)
  }

  function PostOf(exams: seq<ExamDuration>, unit: int): (r: int)
    ensures r >= 0
  {
    if exams == [] then 0
    else
      var last := exams[|exams| - 1];
      Max(PostOf(exams[..|exams| - 1], unit), if last.unit == unit then last.post else 0)
  }

  function ExtensionOf(exams: seq<ExamDuration>, unit: int, mtknr: string): (r: int)
    ensures r >= 0
  {
    if exams == [] then 0
    else
      var last := exams[|exams| - 1];
      Max(ExtensionOf(exams[..|exams| - 1], unit, mtknr), if last.unit == unit then ExtensionIn(last.duration, last.ntas, mtknr) else 0)
  }

  /** Minutes the student is occupied by the unit. */
  function Occupied(exams: seq<ExamDuration>, unit: int, mtknr: string): (r: int)
    ensures r >= 0
  {
    Max(BaseOf(exams, unit), ExtensionOf(exams, unit, mtknr))
  }

  /** Every exam of the unit, with the student's extensions, is over after d minutes. */
  ghost predicate OverAfter(exams: seq<ExamDuration>, unit: int, mtknr: string, d: int) {
    forall i :: 0 <= i < |exams| && exams[i].unit == unit ==> ExamOverAfter(exams[i], mtknr, d)
  }

  ghost predicate ExamOverAfter(e: ExamDuration, mtknr: string, d: int) {
    d >= e.duration && forall j :: 0 <= j < |e.ntas| && e.ntas[j].mtknr == mtknr ==> d >= Extended(e.duration, e.ntas[j].percent)
  }

  lemma {:induction false} DurationsMeaning(exams: seq<ExamDuration>, unit: int, mtknr: string, d: int)
    requires d >= 0
    ensures d >= BaseOf(exams, unit) && d >= ExtensionOf(exams, unit, mtknr) <==> OverAfter(exams, unit, mtknr, d)
  {
    if exams != [] {
      var n := |exams| - 1;
      var front, last := exams[..n], exams[n];
      DurationsMeaning(front, unit, mtknr, d);
      ExtensionMeaning(last.duration, last.ntas, mtknr, d);
      assert last.unit == unit ==> (d >= last.duration && d >= ExtensionIn(last.duration, last.ntas, mtknr) <==> ExamOverAfter(last, mtknr, d));
      assert forall i :: 0 <= i < n ==> front[i] == exams[i];
    }
  }

  /** Exact: the student is occupied for d minutes or less if and only if every exam of the unit, with each
      of their extensions, is over by then. */
  lemma OccupiedExact(exams: seq<ExamDuration>, unit: int, mtknr: string, d: int)
    requires d >= 0
    ensures Occupied(exams, unit, mtknr) <= d <==> OverAfter(exams, unit, mtknr, d)
  {
    DurationsMeaning(exams, unit, mtknr, d);
  }

  /** The rooms of a unit are needed for pre minutes before and post minutes after, or less, exactly when
      those of each of its exams are. */
  lemma {:induction false} SetupExact(exams: seq<ExamDuration>, unit: int, pre: nat, post: nat)
    ensures PreOf(exams, unit) <= pre && PostOf(exams, unit) <= post <==>
            forall i :: 0 <= i < |exams| && exams[i].unit == unit ==> exams[i].pre <= pre && exams[i].post <= post
  {
    if exams != [] {
      SetupExact(exams[..|exams| - 1], unit, pre, post);
      assert forall i :: 0 <= i < |exams| - 1 ==> exams[..|exams| - 1][i] == exams[i];
    }
  }

  /** Extended durations are cut to whole minutes and never shorten the exam. */
  lemma ExtendedExact(duration: nat, percent: nat)
    ensures 100 * Extended(duration, percent) <= duration * (100 + percent) < 100 * Extended(duration, percent) + 100
    ensures Extended(duration, percent) >= duration
  {
    Grows(duration, percent);
  }

  lemma Grows(duration: nat, percent: nat)
    ensures duration * (100 + percent) == 100 * duration + duration * percent && duration * percent >= 0
  {}

  function Get<K(==)>(m: map<K, int>, k: K): int { if k in m then m[k] else 0 }

  method Raise<K(==)>(m: map<K, int>, key: K, x: int) returns (r: map<K, int>)
    ensures forall k :: Get(r, k) == if k == key then Max(Get(m, k), x) else Get(m, k)
    ensures (forall k :: k in m ==> m[k] > 0) && Get(m, key) >= 0 ==> forall k :: k in r ==> r[k] > 0
  {
    r := if x > Get(m, key) then m[key := x] else m;
  }

  /** Base durations, per-student extensions, and setup and teardown minutes, keyed by unit. */
  method CollectDurations(exams: seq<ExamDuration>)
    returns (base: map<int, int>, ext: map<(int, string), int>, pre: map<int, int>, post: map<int, int>)
    ensures forall u :: Get(base, u) == BaseOf(exams, u)
    ensures forall u, m :: Get(ext, (u, m)) == ExtensionOf(exams, u, m)
    ensures forall u :: Get(pre, u) == PreOf(exams, u)
    ensures forall u :: Get(post, u) == PostOf(exams, u)
  {
    base, ext, pre, post := map[], map[], map[], map[];
    for i := 0 to |exams|
      invariant forall u :: Get(base, u) == BaseOf(exams[..i], u)
      invariant forall u, m :: Get(ext, (u, m)) == ExtensionOf(exams[..i], u, m)
      invariant forall u :: Get(pre, u) == PreOf(exams[..i], u)
      invariant forall u :: Get(post, u) == PostOf(exams[..i], u)
    {
      var e := exams[i];
      assert exams[..i + 1][..i] == exams[..i];
      base := Raise(base, e.unit, e.duration);
      pre := Raise(pre, e.unit, e.pre);
      post := Raise(post, e.unit, e.post);
      ext := CollectExtensions(ext, e);
    }
    assert exams[..|exams|] == exams;
  }

  method CollectExtensions(ext: map<(int, string), int>, e: ExamDuration) returns (r: map<(int, string), int>)
    requires forall u, m :: Get(ext, (u, m)) >= 0
    ensures forall u, m :: Get(r, (u, m)) == Max(Get(ext, (u, m)), if u == e.unit then ExtensionIn(e.duration, e.ntas, m) else 0)
  {
    r := ext;
    for j := 0 to |e.ntas|
      invariant forall u, m :: Get(r, (u, m)) == Max(Get(ext, (u, m)), if u == e.unit then ExtensionIn(e.duration, e.ntas[..j], m) else 0)
    {
      var nta := e.ntas[j];
      assert e.ntas[..j + 1][..j] == e.ntas[..j];
      r := Raise(r, (e.unit, nta.mtknr), Extended(e.duration, nta.percent));
    }
    assert e.ntas[..|e.ntas|] == e.ntas;
  }

  // ----- aggregated separations -----

  /** A student and the unit pairs (a, b) they sit, canShareSlot pairs already removed. */
  datatype Sitter = Sitter(mtknr: string, pairs: seq<(int, int)>)

  predicate Sits(s: Sitter, a: int, b: int) {
    (a, b) in s.pairs || (b, a) in s.pairs
  }

  /** What determines a student's need between two units. */
  datatype Setting = Setting(exams: seq<ExamDuration>, locations: map<int, string>, examGap: int, crossCampusGap: int)

  function LocationOf(t: Setting, u: int): string { if u in t.locations then t.locations[u] else "" }

  function GapOf(t: Setting, a: int, b: int): int { EffectiveGap(t.examGap, t.crossCampusGap, LocationOf(t, a), LocationOf(t, b)) }

  /** Minutes from a's start until b may start, for this student. */
  function Need(t: Setting, mtknr: string, a: int, b: int): int { Occupied(t.exams, a, mtknr) + GapOf(t, a, b) }

  /** The largest need over the students who sit both; 0 if nobody does. */
  function Separation(t: Setting, students: seq<Sitter>, a: int, b: int): int {
    if students == [] then 0
    else
      var s := students[|students| - 1];
      Max(Separation(t, students[..|students| - 1], a, b), if Sits(s, a, b) then Need(t, s.mtknr, a, b) else 0)
  }

  method BuildSeparations(t: Setting, students: seq<Sitter>) returns (sep: map<(int, int), int>)
    ensures forall a, b :: Get(sep, (a, b)) == Separation(t, students, a, b)
    ensures forall k :: k in sep ==> sep[k] > 0
  {
    sep := map[];
    for i := 0 to |students|
      invariant forall a, b :: Get(sep, (a, b)) == Separation(t, students[..i], a, b)
      invariant forall k :: k in sep ==> sep[k] > 0
    {
      assert students[..i + 1][..i] == students[..i];
      sep := AddStudent(t, sep, students[i]);
    }
    assert students[..|students|] == students;
  }

  /** Raises both directions of one pair. */
  method RaiseBoth(t: Setting, sep: map<(int, int), int>, mtknr: string, pair: (int, int)) returns (r: map<(int, int), int>)
    requires forall k :: k in sep ==> sep[k] > 0
    ensures forall a, b :: Get(r, (a, b)) == Max(Get(sep, (a, b)), if (a, b) == pair || (b, a) == pair then Need(t, mtknr, a, b) else 0)
    ensures forall k :: k in r ==> r[k] > 0
  {
    var a, b := pair.0, pair.1;
    r := Raise(sep, (a, b), Need(t, mtknr, a, b));
    r := Raise(r, (b, a), Need(t, mtknr, b, a));
  }

  method AddStudent(t: Setting, sep: map<(int, int), int>, s: Sitter) returns (r: map<(int, int), int>)
    requires forall k :: k in sep ==> sep[k] > 0
    ensures forall a, b :: Get(r, (a, b)) == Max(Get(sep, (a, b)), if Sits(s, a, b) then Need(t, s.mtknr, a, b) else 0)
    ensures forall k :: k in r ==> r[k] > 0
  {
    r := sep;
    for j := 0 to |s.pairs|
      invariant forall a, b :: Get(r, (a, b)) ==
                  Max(Get(sep, (a, b)), if Sits(Sitter(s.mtknr, s.pairs[..j]), a, b) then Need(t, s.mtknr, a, b) else 0)
      invariant forall k :: k in r ==> r[k] > 0
    {
      SitsStep(s, j);
      r := RaiseBoth(t, r, s.mtknr, s.pairs[j]);
    }
    assert s.pairs[..|s.pairs|] == s.pairs;
  }

  lemma SitsStep(s: Sitter, j: nat)
    requires j < |s.pairs|
    ensures forall a, b :: Sits(Sitter(s.mtknr, s.pairs[..j + 1]), a, b) <==>
                           Sits(Sitter(s.mtknr, s.pairs[..j]), a, b) || (a, b) == s.pairs[j] || (b, a) == s.pairs[j]
  {
    assert s.pairs[..j + 1] == s.pairs[..j] + [s.pairs[j]];
  }

  // ----- what the aggregate means -----

  /** The student has enough time between the two, in one order or the other. */
  predicate Comfortable(t: Setting, mtknr: string, a: int, startA: int, b: int, startB: int) {
    startB - startA >= Need(t, mtknr, a, b) || startA - startB >= Need(t, mtknr, b, a)
  }

  /** The placement respects the aggregated separations, in one order or the other. */
  predicate Separated(t: Setting, students: seq<Sitter>, a: int, startA: int, b: int, startB: int) {
    startB - startA >= Separation(t, students, a, b) || startA - startB >= Separation(t, students, b, a)
  }

  lemma {:induction false} SeparationBounds(t: Setting, students: seq<Sitter>, a: int, b: int, d: int)
    requires d >= 0
    ensures Separation(t, students, a, b) >= 0
    ensures d >= Separation(t, students, a, b) <==>
            forall i :: 0 <= i < |students| && Sits(students[i], a, b) ==> d >= Need(t, students[i].mtknr, a, b)
  {
    if students != [] {
      var front := students[..|students| - 1];
      SeparationBounds(t, front, a, b, d);
      assert forall i :: 0 <= i < |front| ==> front[i] == students[i];
    }
  }

  lemma NeedPositive(t: Setting, mtknr: string, a: int, b: int)
    requires t.examGap > 0
    ensures Need(t, mtknr, a, b) > 0
  {
  }

  /** Exact: with b not before a the student is comfortable if and only if b leaves the exam's own minutes
      and the ordinary gap, and between two campuses the travel gap as well. */
  lemma CampusExact(t: Setting, mtknr: string, a: int, startA: int, b: int, startB: int)
    requires t.examGap > 0 && startB >= startA
    ensures Comfortable(t, mtknr, a, startA, b, startB) <==>
            var end := startA + Occupied(t.exams, a, mtknr);
            startB >= end + t.examGap && (LocationOf(t, a) != LocationOf(t, b) ==> startB >= end + t.crossCampusGap)
  {
    NeedPositive(t, mtknr, b, a);
  }

  /** Without travelling, the exam's own minutes and the ordinary gap are enough. */
  lemma OneCampusSuffices(t: Setting, mtknr: string, a: int, startA: int, b: int, startB: int)
    requires t.examGap > 0 && LocationOf(t, a) == LocationOf(t, b) && startB - startA >= Occupied(t.exams, a, mtknr) + t.examGap
    ensures Comfortable(t, mtknr, a, startA, b, startB)
  {
    CampusExact(t, mtknr, a, startA, b, startB);
  }

  /** Nobody is sent to another campus within the travel gap. */
  lemma TravelTimeKept(t: Setting, mtknr: string, a: int, startA: int, b: int, startB: int)
    requires t.examGap > 0 && LocationOf(t, a) != LocationOf(t, b) && -t.crossCampusGap < startB - startA < t.crossCampusGap
    ensures !Comfortable(t, mtknr, a, startA, b, startB)
  {}

  /** In one direction of time only that direction's needs can be met. */
  lemma ForwardExact(t: Setting, students: seq<Sitter>, a: int, startA: int, b: int, startB: int)
    requires t.examGap > 0 && startB >= startA
    requires exists i :: 0 <= i < |students| && Sits(students[i], a, b)
    ensures Separated(t, students, a, startA, b, startB) <==>
            forall i :: 0 <= i < |students| && Sits(students[i], a, b) ==> Comfortable(t, students[i].mtknr, a, startA, b, startB)
  {
    var d := startB - startA;
    SeparationBounds(t, students, a, b, d);
    SeparationBounds(t, students, b, a, 0);
    var k :| 0 <= k < |students| && Sits(students[k], a, b);
    NeedPositive(t, students[k].mtknr, b, a);
    assert Sits(students[k], b, a);
    assert Separation(t, students, b, a) > 0;
    forall i | 0 <= i < |students| && Sits(students[i], a, b)
      ensures Comfortable(t, students[i].mtknr, a, startA, b, startB) <==> d >= Need(t, students[i].mtknr, a, b)
    {
      NeedPositive(t, students[i].mtknr, b, a);
    }
  }

  /** Main result: the two aggregated numbers say neither more nor less than every sharing student
      having their own duration plus the location-aware gap between the two exams. */
  lemma SeparationExact(t: Setting, students: seq<Sitter>, a: int, startA: int, b: int, startB: int)
    requires t.examGap > 0
    requires exists i :: 0 <= i < |students| && Sits(students[i], a, b)
    ensures Separated(t, students, a, startA, b, startB) <==>
            forall i :: 0 <= i < |students| && Sits(students[i], a, b) ==> Comfortable(t, students[i].mtknr, a, startA, b, startB)
  {
    if startB >= startA {
      ForwardExact(t, students, a, startA, b, startB);
    } else {
      var k :| 0 <= k < |students| && Sits(students[k], a, b);
      assert Sits(students[k], b, a);
      ForwardExact(t, students, b, startB, a, startA);
      forall i | 0 <= i < |students| && Sits(students[i], a, b)
        ensures Comfortable(t, students[i].mtknr, a, startA, b, startB) <==> Comfortable(t, students[i].mtknr, b, startB, a, startA)
      {}
    }
  }

  /** The solver's overlap test on the installed separations is the same statement. */
  lemma SolverTestExact(p: Problem, t: Setting, students: seq<Sitter>, a: int, sa: int, b: int, sb: int)
    requires t.examGap > 0 && IsSlot(p, sa) && IsSlot(p, sb)
    requires exists i :: 0 <= i < |students| && Sits(students[i], a, b)
    requires (a, b) in p.hardSep && p.hardSep[(a, b)] == Separation(t, students, a, b)
    requires (b, a) in p.hardSep && p.hardSep[(b, a)] == Separation(t, students, b, a)
    ensures !Overlaps(p, a, sa, b, sb) <==>
            forall i :: 0 <= i < |students| && Sits(students[i], a, b)
              ==> Comfortable(t, students[i].mtknr, a, p.slots[sa].start, b, p.slots[sb].start)
  {
    var startA, startB := p.slots[sa].start, p.slots[sb].start;
    SeparationExact(t, students, a, startA, b, startB);
    var k :| 0 <= k < |students| && Sits(students[k], a, b);
    assert Sits(students[k], b, a);
    NeedPositive(t, students[k].mtknr, a, b);
    NeedPositive(t, students[k].mtknr, b, a);
    SeparationBounds(t, students, a, b, 0);
    SeparationBounds(t, students, b, a, 0);
  }

  // ----- agreement with the conflict report -----

  /** Per-student duration of one exam as the conflict report computes it: the last NTA entry that
      lengthens the exam wins. */
  function ForStudent(duration: int, ntas: seq<Nta>, mtknr: string): int {
    if ntas == [] then duration
    else
      var last := ntas[|ntas| - 1];
      if last.mtknr == mtknr && Extended(duration, last.percent) > duration then Extended(duration, last.percent)
      else ForStudent(duration, ntas[..|ntas| - 1], mtknr)
  }

  predicate Lengthens(duration: int, nta: Nta, mtknr: string) {
    nta.mtknr == mtknr && Extended(duration, nta.percent) > duration
  }

  /** Entry j is the last one that lengthens the exam for the student. */
  ghost predicate LastLengthening(duration: int, ntas: seq<Nta>, mtknr: string, j: int) {
    0 <= j < |ntas| && Lengthens(duration, ntas[j], mtknr) && forall k :: j < k < |ntas| ==> !Lengthens(duration, ntas[k], mtknr)
  }

  /** No earlier entry of the student lengthens the exam more than the last one that lengthens it. */
  ghost predicate LongestLast(duration: int, ntas: seq<Nta>, mtknr: string) {
    forall i, j :: LastLengthening(duration, ntas, mtknr, j) && 0 <= i < j && ntas[i].mtknr == mtknr
      ==> Extended(duration, ntas[i].percent) <= Extended(duration, ntas[j].percent)
  }

  lemma {:induction false} ForStudentMeaning(duration: int, ntas: seq<Nta>, mtknr: string)
    ensures (forall k :: 0 <= k < |ntas| ==> !Lengthens(duration, ntas[k], mtknr)) ==> ForStudent(duration, ntas, mtknr) == duration
    ensures forall j :: LastLengthening(duration, ntas, mtknr, j) ==> ForStudent(duration, ntas, mtknr) == Extended(duration, ntas[j].percent)
  {
    if ntas != [] {
      var n, front := |ntas| - 1, ntas[..|ntas| - 1];
      ForStudentMeaning(duration, front, mtknr);
      if !Lengthens(duration, ntas[n], mtknr) {
        forall j | LastLengthening(duration, ntas, mtknr, j)
          ensures ForStudent(duration, ntas, mtknr) == Extended(duration, ntas[j].percent)
        {
          assert LastLengthening(duration, front, mtknr, j);
        }
      }
    }
  }

  /** The extension is the largest of the student's entries, 0 if all are negative. */
  lemma {:induction false} ExtensionMeaning(duration: int, ntas: seq<Nta>, mtknr: string, x: int)
    requires x >= 0
    ensures x >= ExtensionIn(duration, ntas, mtknr) <==>
            forall i :: 0 <= i < |ntas| && ntas[i].mtknr == mtknr ==> x >= Extended(duration, ntas[i].percent)
  {
    if ntas != [] {
      ExtensionMeaning(duration, ntas[..|ntas| - 1], mtknr, x);
      assert forall i :: 0 <= i < |ntas| - 1 ==> ntas[..|ntas| - 1][i] == ntas[i];
    }
  }

  lemma {:induction false} LastOrNone(duration: int, ntas: seq<Nta>, mtknr: string)
    ensures (exists j :: LastLengthening(duration, ntas, mtknr, j)) || forall k :: 0 <= k < |ntas| ==> !Lengthens(duration, ntas[k], mtknr)
  {
    if ntas != [] && !Lengthens(duration, ntas[|ntas| - 1], mtknr) {
      var front := ntas[..|ntas| - 1];
      LastOrNone(duration, front, mtknr);
      if j :| LastLengthening(duration, front, mtknr, j) {
        assert LastLengthening(duration, ntas, mtknr, j);
      } else {
        forall k | 0 <= k < |ntas| ensures !Lengthens(duration, ntas[k], mtknr) {
          assert k < |front| ==> ntas[k] == front[k];
        }
      }
    } else if ntas != [] {
      assert LastLengthening(duration, ntas, mtknr, |ntas| - 1);
    }
  }

  lemma SingleExam(e: ExamDuration, mtknr: string)
    requires e.duration >= 0
    ensures Occupied([e], e.unit, mtknr) == Max(e.duration, ExtensionIn(e.duration, e.ntas, mtknr))
  {
    assert [e][..|[e]| - 1] == [] && [e][|[e]| - 1] == e;
    assert BaseOf([e], e.unit) == Max(0, e.duration);
    assert ExtensionOf([e], e.unit, mtknr) == Max(0, ExtensionIn(e.duration, e.ntas, mtknr));
  }

  /** For a unit of one exam the solver reckons with the longest extension and the report with the last:
      they agree for a student exactly if no earlier entry of the student is longer. */
  lemma SolverAgreesWithReport(e: ExamDuration, mtknr: string)
    requires e.duration >= 0
    ensures Occupied([e], e.unit, mtknr) >= ForStudent(e.duration, e.ntas, mtknr)
    ensures Occupied([e], e.unit, mtknr) == ForStudent(e.duration, e.ntas, mtknr) <==> LongestLast(e.duration, e.ntas, mtknr)
  {
    var d, ntas := e.duration, e.ntas;
    SingleExam(e, mtknr);
    ForStudentMeaning(d, ntas, mtknr);
    LastOrNone(d, ntas, mtknr);
    ExtensionMeaning(d, ntas, mtknr, ExtensionIn(d, ntas, mtknr));
    if j :| LastLengthening(d, ntas, mtknr, j) {
      var x := Extended(d, ntas[j].percent);
      ExtensionMeaning(d, ntas, mtknr, x);
      LastIsUnique(d, ntas, mtknr, j);
      if LongestLast(d, ntas, mtknr) {
        forall i | 0 <= i < |ntas| && ntas[i].mtknr == mtknr ensures x >= Extended(d, ntas[i].percent) {
          if i > j { assert !Lengthens(d, ntas[i], mtknr); }
        }
      }
    } else {
      ExtensionMeaning(d, ntas, mtknr, d);
      forall i | 0 <= i < |ntas| && ntas[i].mtknr == mtknr ensures d >= Extended(d, ntas[i].percent) {
        assert !Lengthens(d, ntas[i], mtknr);
      }
    }
  }

  lemma LastIsUnique(duration: int, ntas: seq<Nta>, mtknr: string, j: int)
    requires LastLengthening(duration, ntas, mtknr, j)
    ensures forall k :: LastLengthening(duration, ntas, mtknr, k) ==> k == j
  {}
}
