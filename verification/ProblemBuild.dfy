/** Building the solver's problem: from registrations, durations, campuses and slots to the validated input
    with its derived look-ups. What it returns is what every statement about schedules starts from. */
module ProblemBuild {
  import opened Seqs
  import opened ExamPlanProblem
  import opened HardSeparation
  import opened SlotDays
  import Regs = StudentPairs

  // ----- installing the separations -----

  /** Separations take effect between two different units of the problem that are not both fixed. */
  predicate Installable(p: Problem, k: (int, int)) {
    IsUnit(p, k.0) && IsUnit(p, k.1) && k.0 != k.1 && (!p.units[k.0].fixed || !p.units[k.1].fixed)
  }

  method SetHardSeparations(p: Problem, sep: map<(int, int), int>) returns (installed: map<(int, int), int>)
    ensures forall k :: k in installed <==> k in sep && Installable(p, k)
    ensures forall k :: k in installed ==> installed[k] == sep[k]
  {
    installed := map[];
    var rest := sep.Keys;
    while rest != {}
      invariant rest <= sep.Keys
      invariant forall k :: k in installed <==> k in sep && k !in rest && Installable(p, k)
      invariant forall k :: k in installed ==> installed[k] == sep[k]
      decreases |rest|
    {
      ghost var w := Pick(rest);
      assert w in rest;
      var key :| key in rest;
      if Installable(p, key) { installed := installed[key := sep[key]]; }
      rest := rest - {key};
    }
  }

  /** The problem carries the sitters' pairs and their aggregated separations. */
  ghost predicate BuiltFrom(p: Problem, t: Setting, sitters: seq<Sitter>) {
    && t.examGap > 0
    && (forall a, b :: SharePair(sitters, a, b) <==> Shares(p, a, b))
    && (forall a, b :: Installable(p, (a, b)) ==> Carries(p, t, sitters, a, b))
  }

  ghost predicate Carries(p: Problem, t: Setting, sitters: seq<Sitter>, a: int, b: int) {
    var need := Separation(t, sitters, a, b);
    if need > 0 then (a, b) in p.hardSep && p.hardSep[(a, b)] == need else (a, b) !in p.hardSep
  }

  /** Collecting the separations and installing them builds such a problem. */
  lemma InstalledCarries(p: Problem, t: Setting, sitters: seq<Sitter>, sep: map<(int, int), int>, a: int, b: int)
    requires forall u, v :: Get(sep, (u, v)) == Separation(t, sitters, u, v)
    requires forall k :: k in sep ==> sep[k] > 0
    requires forall k :: k in p.hardSep <==> k in sep && Installable(p, k)
    requires forall k :: k in p.hardSep ==> p.hardSep[k] == sep[k]
    requires Installable(p, (a, b))
    ensures Carries(p, t, sitters, a, b)
  {
    assert Get(sep, (a, b)) == Separation(t, sitters, a, b);
  }

  ghost predicate SharePair(sitters: seq<Sitter>, a: int, b: int) {
    exists i :: 0 <= i < |sitters| && Sits(sitters[i], a, b)
  }

  ghost predicate Shares(p: Problem, a: int, b: int) {
    exists si :: 0 <= si < |p.students| && HasPair(p.students[si], a, b)
  }

  // ----- the inputs -----

  /** What the problem is built from. A weight per student and unit pair stands for ratings and repeats, a
      key per instant for the calendar. */
  datatype Inputs = Inputs(slots: seq<PlanSlot>, units: seq<PlanUnit>, unitOf: map<int, int>, canShare: set<(int, int)>,
                           students: seq<Regs.Student>, exams: seq<ExamDuration>, locations: map<int, string>,
                           configuredGap: int, configuredCampusGap: int, attract: seq<AttractPair>, w: Weights, severity: seq<real>,
                           dayKey: int -> int, distances: Distances, weigh: (string, int, int) -> real)

  /** Units as the unit construction leaves them, exams in units, and attracted units that exist. */
  ghost predicate WellFormed(inp: Inputs) {
    && (forall u :: 0 <= u < |inp.units| ==>
          inp.units[u].seats >= 0 && (inp.units[u].fixed ==> 0 <= inp.units[u].fixedSlot < |inp.slots|))
    && (forall a :: a in inp.unitOf ==> 0 <= inp.unitOf[a] < |inp.units|)
    && (forall i :: 0 <= i < |inp.attract| ==> AttractsUnits(inp, inp.attract[i]))
  }

  ghost predicate AttractsUnits(inp: Inputs, ap: AttractPair) {
    0 <= ap.a < |inp.units| && 0 <= ap.b < |inp.units| && ap.a != ap.b
  }

  function SettingOf(inp: Inputs): Setting {
    Setting(inp.exams, inp.locations, ExamGap(inp.configuredGap), CrossCampusGap(inp.configuredCampusGap))
  }

  function RegistryOf(inp: Inputs): Regs.Registry {
    Regs.Registry(inp.unitOf, (set u | 0 <= u < |inp.units| && inp.units[u].foreign), inp.canShare)
  }

  // ----- weighted student pairs -----

  function Weighed(t: Setting, weigh: (string, int, int) -> real, mtknr: string, k: (int, int)): Pair {
    Pair(k.0, k.1, weigh(mtknr, k.0, k.1), LocationOf(t, k.0) != LocationOf(t, k.1))
  }

  /** The pairs of one student, with their weights and whether they lie at different campuses. */
  ghost predicate PairsFor(t: Setting, weigh: (string, int, int) -> real, s: Sitter, pairs: seq<Pair>) {
    |pairs| == |s.pairs| && forall j :: 0 <= j < |pairs| ==> pairs[j] == Weighed(t, weigh, s.mtknr, s.pairs[j])
  }

  ghost predicate PairsForAll(t: Setting, weigh: (string, int, int) -> real, sitters: seq<Sitter>, students: seq<seq<Pair>>) {
    |students| == |sitters| && forall i :: 0 <= i < |sitters| ==> PairsFor(t, weigh, sitters[i], students[i])
  }

  method WeighPairs(t: Setting, weigh: (string, int, int) -> real, sitters: seq<Sitter>) returns (students: seq<seq<Pair>>)
    ensures PairsForAll(t, weigh, sitters, students)
  {
    students := [];
    for i := 0 to |sitters|
      invariant PairsForAll(t, weigh, sitters[..i], students)
    {
      var pairs: seq<Pair> := [];
      for j := 0 to |sitters[i].pairs|
        invariant |pairs| == j && forall h :: 0 <= h < j ==> pairs[h] == Weighed(t, weigh, sitters[i].mtknr, sitters[i].pairs[h])
      {
        pairs := pairs + [Weighed(t, weigh, sitters[i].mtknr, sitters[i].pairs[j])];
      }
      students := students + [pairs];
    }
    assert sitters[..|sitters|] == sitters;
  }

  lemma WeighedEnds(t: Setting, weigh: (string, int, int) -> real, s: Sitter, pairs: seq<Pair>, a: int, b: int)
    requires PairsFor(t, weigh, s, pairs)
    ensures Sits(s, a, b) <==> HasPair(pairs, a, b)
  {
    if Sits(s, a, b) {
      var k := if (a, b) in s.pairs then (a, b) else (b, a);
      var j :| 0 <= j < |s.pairs| && s.pairs[j] == k;
      assert Ends(pairs[j], a, b);
    }
    if HasPair(pairs, a, b) {
      var j :| 0 <= j < |pairs| && Ends(pairs[j], a, b);
      assert s.pairs[j] == (pairs[j].a, pairs[j].b);
    }
  }

  lemma SharedPairs(p: Problem, t: Setting, weigh: (string, int, int) -> real, sitters: seq<Sitter>, a: int, b: int)
    requires PairsForAll(t, weigh, sitters, p.students)
    ensures SharePair(sitters, a, b) <==> Shares(p, a, b)
  {
    if SharePair(sitters, a, b) {
      var i :| 0 <= i < |sitters| && Sits(sitters[i], a, b);
      WeighedEnds(t, weigh, sitters[i], p.students[i], a, b);
    }
    if Shares(p, a, b) {
      var si :| 0 <= si < |p.students| && HasPair(p.students[si], a, b);
      WeighedEnds(t, weigh, sitters[si], p.students[si], a, b);
    }
  }

  /** A student's pairs join two different units. */
  lemma SitterPairsValid(inp: Inputs, sitters: seq<Sitter>, i: nat, k: (int, int))
    requires WellFormed(inp) && Regs.SittersOf(RegistryOf(inp), inp.students, sitters) && i < |sitters| && k in sitters[i].pairs
    ensures 0 <= k.0 < k.1 < |inp.units|
  {
    var g := RegistryOf(inp);
    assert Regs.HasSource(g, inp.students, sitters[i]);
    var j :| 0 <= j < |inp.students| && Regs.FromStudent(g, inp.students[j], sitters[i]);
    Regs.PairsOfExact(g, inp.students[j], k);
    var x, y :| Regs.MustSeparate(g, inp.students[j], x, y) && g.unitOf[x] == k.0 && g.unitOf[y] == k.1;
  }

  lemma StudentsValid(inp: Inputs, p: Problem, t: Setting, sitters: seq<Sitter>, si: int)
    requires WellFormed(inp) && Regs.SittersOf(RegistryOf(inp), inp.students, sitters)
    requires p.units == inp.units && PairsForAll(t, inp.weigh, sitters, p.students) && 0 <= si < |p.students|
    ensures ValidPairs(p, p.students[si])
  {
    assert PairsFor(t, inp.weigh, sitters[si], p.students[si]);
    forall i | 0 <= i < |p.students[si]| ensures ValidPair(p, p.students[si][i]) {
      var k := sitters[si].pairs[i];
      assert k in sitters[si].pairs;
      SitterPairsValid(inp, sitters, si, k);
    }
  }

  // ----- the problem -----

  function TotalSeats(units: seq<PlanUnit>): int {
    if units == [] then 0 else TotalSeats(units[..|units| - 1]) + units[|units| - 1].seats
  }

  method SumSeats(units: seq<PlanUnit>) returns (total: int)
    ensures total == TotalSeats(units)
  {
    total := 0;
    for i := 0 to |units|
      invariant total == TotalSeats(units[..i])
    {
      assert units[..i + 1][..i] == units[..i];
      total := total + units[i].seats;
    }
    assert units[..|units|] == units;
  }

  /** All seats spread evenly over all slots. */
  ghost predicate EvenLoad(inp: Inputs, load: real) {
    inp.slots != [] ==> load * |inp.slots| as real == TotalSeats(inp.units) as real
  }

  ghost predicate DistancesFrom(inp: Inputs, p: Problem) {
    && DaysExact(inp.slots, inp.dayKey, p.days, p.dayOfSlot, p.slotDayPos)
    && forall a, b :: 0 <= a < |inp.slots| && 0 <= b < |inp.slots|
         ==> && p.closeness(a, b) == Closeness(inp.distances, inp.slots, p.dayOfSlot, p.slotDayPos, a, b)
             && p.farness(a, b) == Farness(inp.distances, inp.slots, p.dayOfSlot, p.slotDayPos, a, b)
  }

  /** Unit u, placed in s, still holds its EXaHM rooms when slot t of that day needs them. */
  ghost predicate Holds(inp: Inputs, u: int, s: int, t: int) {
    && 0 <= u < |inp.units| && inp.units[u].exahm && PostOf(inp.exams, u) > TURNAROUND
    && 0 <= s < |inp.slots| && 0 <= t < |inp.slots|
    && Competes(inp.slots, inp.dayKey, BaseOf(inp.exams, u) + PostOf(inp.exams, u), s, t)
  }

  /** The overrun targets of every unit and slot are exactly the slots it still holds its rooms in. */
  ghost predicate OverrunFrom(inp: Inputs, overrun: map<(int, int), seq<int>>) {
    && (forall k :: k in overrun ==> overrun[k] != [] && Increasing(overrun[k]))
    && (forall u, s, t :: ((u, s) in overrun && t in overrun[(u, s)]) <==> Holds(inp, u, s, t))
  }

  /** The problem takes over these inputs: slots, units and weights, the sitters' weighed pairs, and what
      follows from the slots' times. */
  ghost predicate Assembled(inp: Inputs, p: Problem, sitters: seq<Sitter>) {
    && p.slots == inp.slots && p.units == inp.units && p.attract == inp.attract && p.severity == inp.severity
    && p.w == inp.w.(targetLoad := p.w.targetLoad) && EvenLoad(inp, p.w.targetLoad)
    && Regs.SittersOf(RegistryOf(inp), inp.students, sitters) && PairsForAll(SettingOf(inp), inp.weigh, sitters, p.students)
    && DistancesFrom(inp, p) && OverrunFrom(inp, p.overrun)
    && (forall a, b :: p.farness(a, b) == p.farness(b, a))
  }

  /** The problem is the one of these inputs, its students are the sitters. */
  ghost predicate Built(inp: Inputs, p: Problem, sitters: seq<Sitter>) {
    Assembled(inp, p, sitters) && BuiltFrom(p, SettingOf(inp), sitters)
  }

  /** A unit counts as overrunning exactly if from some slot it holds rooms into another. */
  lemma MayOverrunExact(inp: Inputs, p: Problem, u: int)
    requires OverrunFrom(inp, p.overrun)
    ensures MayOverrun(p, u) <==> exists s, t :: Holds(inp, u, s, t)
  {
    if k :| k in p.overrun && k.0 == u {
      var t := p.overrun[k][0];
      assert t in p.overrun[(u, k.1)];
      assert Holds(inp, u, k.1, t);
    }
    if s, t :| Holds(inp, u, s, t) { assert (u, s) in p.overrun && (u, s).0 == u; }
  }

  // ----- putting it together -----

  lemma OverrunMeaning(inp: Inputs, base: map<int, int>, post: map<int, int>, overrun: map<(int, int), seq<int>>)
    requires forall u :: Get(base, u) == BaseOf(inp.exams, u)
    requires forall u :: Get(post, u) == PostOf(inp.exams, u)
    requires OverrunsExact(inp.slots, inp.dayKey, inp.units, base, post, overrun)
    ensures OverrunFrom(inp, overrun)
  {
    forall u, s, t ensures RunsInto(inp.slots, inp.dayKey, inp.units, base, post, u, s, t) <==> Holds(inp, u, s, t) {
      assert Get(post, u) == PostOf(inp.exams, u) && Get(base, u) == BaseOf(inp.exams, u);
    }
    forall u, s, t ensures ((u, s) in overrun && t in overrun[(u, s)]) <==> Holds(inp, u, s, t) {
      if (u, s) in overrun {
        assert OverrunEntry(inp.slots, inp.dayKey, inp.units, base, post, (u, s), overrun[(u, s)]);
      }
    }
  }

  lemma TargetsAreSlots(inp: Inputs, p: Problem, k: (int, int))
    requires p.slots == inp.slots && OverrunFrom(inp, p.overrun) && k in p.overrun
    ensures ValidTargets(p, k, p.overrun[k])
  {
    forall t | t in p.overrun[k] ensures IsSlot(p, t) && t != k.1 {
      assert Holds(inp, k.0, k.1, t);
    }
  }

  lemma DaysValid(inp: Inputs, p: Problem)
    requires p.slots == inp.slots && DaysExact(inp.slots, inp.dayKey, p.days, p.dayOfSlot, p.slotDayPos)
    ensures ValidDays(p)
  {}

  /** Conflicts, students and pairs depend on units and students only. */
  lemma SameLookups(p: Problem, q: Problem)
    requires p.units == q.units && p.students == q.students
    ensures forall u, v :: Conflict(p, u, v) <==> Conflict(q, u, v)
    ensures forall u, list :: StudentList(p, u, list) <==> StudentList(q, u, list)
  {}

  function ClosenessBy(d: Distances, slots: seq<PlanSlot>, dayOf: seq<int>, pos: seq<int>): (int, int) -> real
    requires |dayOf| == |pos| == |slots|
  {
    (a, b) => if 0 <= a < |slots| && 0 <= b < |slots| then Closeness(d, slots, dayOf, pos, a, b) else 0.0
  }

  function FarnessBy(d: Distances, slots: seq<PlanSlot>, dayOf: seq<int>, pos: seq<int>): (int, int) -> real
    requires |dayOf| == |pos| == |slots|
  {
    (a, b) => if 0 <= a < |slots| && 0 <= b < |slots| then Farness(d, slots, dayOf, pos, a, b) else 0.0
  }

  lemma FarnessByFair(d: Distances, slots: seq<PlanSlot>, dayOf: seq<int>, pos: seq<int>)
    requires |dayOf| == |pos| == |slots|
    ensures forall a, b :: FarnessBy(d, slots, dayOf, pos)(a, b) == FarnessBy(d, slots, dayOf, pos)(b, a)
  {
    forall a, b ensures FarnessBy(d, slots, dayOf, pos)(a, b) == FarnessBy(d, slots, dayOf, pos)(b, a) {
      if 0 <= a < |slots| && 0 <= b < |slots| { FarnessSymmetric(d, slots, dayOf, pos, a, b); }
    }
  }

  method SortAll(sets: seq<set<int>>) returns (lists: seq<seq<int>>)
    ensures |lists| == |sets|
    ensures forall u, v :: 0 <= u < |sets| ==> (v in lists[u] <==> v in sets[u])
  {
    lists := [];
    for i := 0 to |sets|
      invariant |lists| == i && forall u, v :: 0 <= u < i ==> (v in lists[u] <==> v in sets[u])
    {
      var list := SortedKeys(sets[i]);
      lists := lists + [list];
    }
  }

  method TargetLoad(inp: Inputs) returns (load: real)
    ensures EvenLoad(inp, load)
  {
    load := 0.0;
    if |inp.slots| > 0 {
      var total := SumSeats(inp.units);
      load := total as real / |inp.slots| as real;
    }
  }

  method CollectOverrunTargets(inp: Inputs) returns (overrun: map<(int, int), seq<int>>)
    ensures OverrunFrom(inp, overrun)
  {
    var base, ext, pre, post := CollectDurations(inp.exams);
    overrun := CollectOverruns(inp.slots, inp.dayKey, inp.units, base, post);
    OverrunMeaning(inp, base, post, overrun);
  }

  method Assemble(inp: Inputs) returns (p: Problem, sitters: seq<Sitter>)
    requires WellFormed(inp)
    ensures Assembled(inp, p, sitters)
  {
    sitters := Regs.CollectSitters(RegistryOf(inp), inp.students);
    var students := WeighPairs(SettingOf(inp), inp.weigh, sitters);
    var overrun := CollectOverrunTargets(inp);
    var days, dayOf, pos := GroupDays(inp.slots, inp.dayKey);
    var load := TargetLoad(inp);
    FarnessByFair(inp.distances, inp.slots, dayOf, pos);
    p := Problem(inp.slots, inp.units, students, inp.attract, inp.w.(targetLoad := load), inp.severity,
                 ClosenessBy(inp.distances, inp.slots, dayOf, pos), FarnessBy(inp.distances, inp.slots, dayOf, pos),
                 map[], overrun, days, dayOf, pos, [], [], []);
  }

  /** Everything of a valid problem but the look-ups. */
  lemma AssembledValid(inp: Inputs, p: Problem, sitters: seq<Sitter>)
    requires WellFormed(inp) && Assembled(inp, p, sitters)
    ensures forall u :: IsUnit(p, u) ==> p.units[u].seats >= 0 && (p.units[u].fixed ==> IsSlot(p, p.units[u].fixedSlot))
    ensures forall si :: 0 <= si < |p.students| ==> ValidPairs(p, p.students[si])
    ensures forall i :: 0 <= i < |p.attract| ==> IsUnit(p, p.attract[i].a) && IsUnit(p, p.attract[i].b) && p.attract[i].a != p.attract[i].b
    ensures forall k :: k in p.overrun ==> ValidTargets(p, k, p.overrun[k])
    ensures ValidDays(p)
  {
    forall si | 0 <= si < |p.students| ensures ValidPairs(p, p.students[si]) {
      StudentsValid(inp, p, SettingOf(inp), sitters, si);
    }
    forall i | 0 <= i < |p.attract| ensures IsUnit(p, p.attract[i].a) && IsUnit(p, p.attract[i].b) && p.attract[i].a != p.attract[i].b {
      assert AttractsUnits(inp, inp.attract[i]);
    }
    forall k | k in p.overrun ensures ValidTargets(p, k, p.overrun[k]) {
      TargetsAreSlots(inp, p, k);
    }
    DaysValid(inp, p);
  }

  /** The look-ups of an assembled problem. */
  method DeriveLookups(p: Problem) returns (q: Problem)
    requires forall si :: 0 <= si < |p.students| ==> ValidPairs(p, p.students[si])
    requires forall i :: 0 <= i < |p.attract| ==> IsUnit(p, p.attract[i].a) && IsUnit(p, p.attract[i].b) && p.attract[i].a != p.attract[i].b
    ensures q == p.(hardConf := q.hardConf, unitStudents := q.unitStudents, unitAttract := q.unitAttract) && Derived(q)
  {
    var conf := DeriveConflicts(p);
    var lists := SortAll(conf);
    var students := DeriveStudents(p);
    var attract := DeriveAttract(p);
    q := p.(hardConf := lists, unitStudents := students, unitAttract := attract);
    SameLookups(p, q);
  }

  /** Installing the aggregated separations of the sitters. */
  method InstallSeparations(p: Problem, t: Setting, sitters: seq<Sitter>) returns (q: Problem)
    requires t.examGap > 0 && forall a, b :: SharePair(sitters, a, b) <==> Shares(p, a, b)
    ensures q == p.(hardSep := q.hardSep) && BuiltFrom(q, t, sitters) && forall k :: k in q.hardSep ==> q.hardSep[k] > 0
  {
    var sep := BuildSeparations(t, sitters);
    var installed := SetHardSeparations(p, sep);
    q := p.(hardSep := installed);
    forall a, b | Installable(q, (a, b)) ensures Carries(q, t, sitters, a, b) {
      InstalledCarries(q, t, sitters, sep, a, b);
    }
    forall a, b ensures SharePair(sitters, a, b) <==> Shares(q, a, b) {
      assert Shares(q, a, b) <==> Shares(p, a, b);
    }
  }

  /** The solver's problem from its inputs: valid, with the students' pairs and separations, the times of the
      slots, and all look-ups. */
  method BuildProblem(inp: Inputs) returns (p: Problem, sitters: seq<Sitter>)
    requires WellFormed(inp)
    ensures Valid(p) && Built(inp, p, sitters)
  {
    var raw;
    raw, sitters := Assemble(inp);
    AssembledValid(inp, raw, sitters);
    forall a, b ensures SharePair(sitters, a, b) <==> Shares(raw, a, b) {
      SharedPairs(raw, SettingOf(inp), inp.weigh, sitters, a, b);
    }
    var separated := InstallSeparations(raw, SettingOf(inp), sitters);
    AssembledValid(inp, separated, sitters);
    p := DeriveLookups(separated);
    AssembledValid(inp, p, sitters);
    KeepsSeparations(separated, p, SettingOf(inp), sitters);
  }

  lemma KeepsSeparations(p: Problem, q: Problem, t: Setting, sitters: seq<Sitter>)
    requires BuiltFrom(p, t, sitters) && q.units == p.units && q.students == p.students && q.hardSep == p.hardSep
    ensures BuiltFrom(q, t, sitters)
  {
    forall a, b ensures SharePair(sitters, a, b) <==> Shares(q, a, b) {
      assert Shares(q, a, b) <==> Shares(p, a, b);
    }
    forall a, b | Installable(q, (a, b)) ensures Carries(q, t, sitters, a, b) {
      assert Carries(p, t, sitters, a, b);
    }
  }
}
