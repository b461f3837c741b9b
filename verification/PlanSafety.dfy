/** What a finished exam schedule means for students and exams: the solver's guarantees read through
    the way the problem was built. */
module PlanSafety {
  import opened ExamPlanProblem
  import opened ExamPlanLoads
  import opened ExamPlanCost
  import opened ExamPlanHard
  import opened ExamPlanSolve
  import opened ExamPlanRuns
  import opened ExamPlanStart
  import opened ExamPlanSwaps
  import opened HardSeparation
  import opened ProblemBuild
  import Domains = SlotDomains
  import Regs = StudentPairs

  /** Units whose times the schedule decides: placed, and not both fixed in advance. */
  predicate Decided(p: Problem, slotOf: seq<int>, a: int, b: int) {
    && IsUnit(p, a) && IsUnit(p, b) && |slotOf| == |p.units|
    && 0 <= slotOf[a] < |p.slots| && 0 <= slotOf[b] < |p.slots|
    && (!p.units[a].fixed || !p.units[b].fixed)
  }

  /** Every student has enough time between any two of their exams the schedule decided. */
  ghost predicate AllComfortable(p: Problem, t: Setting, sitters: seq<Sitter>, slotOf: seq<int>) {
    forall i, a, b :: 0 <= i < |sitters| && Sits(sitters[i], a, b) && Decided(p, slotOf, a, b)
      ==> Comfortable(t, sitters[i].mtknr, a, p.slots[slotOf[a]].start, b, p.slots[slotOf[b]].start)
  }

  lemma {:induction false} SeparationPositive(t: Setting, sitters: seq<Sitter>, a: int, b: int, i: nat)
    requires t.examGap > 0 && i < |sitters| && Sits(sitters[i], a, b)
    ensures Separation(t, sitters, a, b) > 0
  {
    SeparationBounds(t, sitters, a, b, 0);
    NeedPositive(t, sitters[i].mtknr, a, b);
  }

  lemma PairComfortable(p: Problem, t: Setting, sitters: seq<Sitter>, slotOf: seq<int>, a: int, b: int)
    requires Valid(p) && Assignment(p, slotOf) && BuiltFrom(p, t, sitters) && Decided(p, slotOf, a, b) && SharePair(sitters, a, b)
    ensures !Clash(p, slotOf, a, b) <==>
            forall i :: 0 <= i < |sitters| && Sits(sitters[i], a, b)
              ==> Comfortable(t, sitters[i].mtknr, a, p.slots[slotOf[a]].start, b, p.slots[slotOf[b]].start)
  {
    var i :| 0 <= i < |sitters| && Sits(sitters[i], a, b);
    SeparationPositive(t, sitters, a, b, i);
    assert Sits(sitters[i], b, a);
    SeparationPositive(t, sitters, b, a, i);
    assert Shares(p, a, b) && Conflict(p, a, b);
    ConflictIrreflexive(p, a);
    assert Carries(p, t, sitters, a, b) && Carries(p, t, sitters, b, a);
    SolverTestExact(p, t, sitters, a, slotOf[a], b, slotOf[b]);
  }

  /** Main result: a schedule is free of clashes exactly when every student has, between any two exams it
      decided, their own duration and the location-aware gap. */
  lemma ClashFreeExact(p: Problem, t: Setting, sitters: seq<Sitter>, slotOf: seq<int>)
    requires Valid(p) && Assignment(p, slotOf) && BuiltFrom(p, t, sitters)
    ensures ClashFree(p, slotOf) <==> AllComfortable(p, t, sitters, slotOf)
  {
    if ClashFree(p, slotOf) {
      forall i, a, b | 0 <= i < |sitters| && Sits(sitters[i], a, b) && Decided(p, slotOf, a, b)
        ensures Comfortable(t, sitters[i].mtknr, a, p.slots[slotOf[a]].start, b, p.slots[slotOf[b]].start)
      {
        assert !Clash(p, slotOf, a, b);
        PairComfortable(p, t, sitters, slotOf, a, b);
      }
    }
    if AllComfortable(p, t, sitters, slotOf) {
      forall a, b ensures !Clash(p, slotOf, a, b) {
        if Conflict(p, a, b) && slotOf[a] >= 0 && slotOf[b] >= 0 {
          assert Shares(p, a, b) && SharePair(sitters, a, b) && Decided(p, slotOf, a, b);
          PairComfortable(p, t, sitters, slotOf, a, b);
        }
      }
    }
  }

  /** Every registered student has enough time between any two of their exams the schedule decided. */
  ghost predicate StudentsComfortable(p: Problem, t: Setting, g: Regs.Registry, students: seq<Regs.Student>, slotOf: seq<int>) {
    forall j, x, y :: 0 <= j < |students| && Regs.MustSeparate(g, students[j], x, y) && Decided(p, slotOf, g.unitOf[x], g.unitOf[y])
      ==> ComfortableAt(p, t, students[j].mtknr, slotOf, g.unitOf[x], g.unitOf[y])
  }

  ghost predicate ComfortableAt(p: Problem, t: Setting, mtknr: string, slotOf: seq<int>, a: int, b: int)
    requires Decided(p, slotOf, a, b)
  {
    Comfortable(t, mtknr, a, p.slots[slotOf[a]].start, b, p.slots[slotOf[b]].start)
  }

  lemma SittersForStudents(p: Problem, t: Setting, g: Regs.Registry, students: seq<Regs.Student>, sitters: seq<Sitter>, slotOf: seq<int>)
    requires Regs.SittersOf(g, students, sitters) && AllComfortable(p, t, sitters, slotOf)
    ensures StudentsComfortable(p, t, g, students, slotOf)
  {
    forall j, x, y | 0 <= j < |students| && Regs.MustSeparate(g, students[j], x, y) && Decided(p, slotOf, g.unitOf[x], g.unitOf[y])
      ensures ComfortableAt(p, t, students[j].mtknr, slotOf, g.unitOf[x], g.unitOf[y])
    {
      var s, a, b := students[j], g.unitOf[x], g.unitOf[y];
      var k := if a < b then (a, b) else (b, a);
      assert Regs.MustSeparate(g, s, y, x);
      Regs.PairsOfExact(g, s, k);
      assert k in Regs.PairsOf(g, s);
      assert Regs.HasSitter(g, s, sitters);
      var i :| 0 <= i < |sitters| && Regs.FromStudent(g, s, sitters[i]);
      assert Sits(sitters[i], a, b);
    }
  }

  lemma StudentsForSitters(p: Problem, t: Setting, g: Regs.Registry, students: seq<Regs.Student>, sitters: seq<Sitter>, slotOf: seq<int>)
    requires Regs.SittersOf(g, students, sitters) && StudentsComfortable(p, t, g, students, slotOf)
    ensures AllComfortable(p, t, sitters, slotOf)
  {
    forall i, a, b | 0 <= i < |sitters| && Sits(sitters[i], a, b) && Decided(p, slotOf, a, b)
      ensures ComfortableAt(p, t, sitters[i].mtknr, slotOf, a, b)
    {
      assert Regs.HasSource(g, students, sitters[i]);
      var j :| 0 <= j < |students| && Regs.FromStudent(g, students[j], sitters[i]);
      var k := if (a, b) in sitters[i].pairs then (a, b) else (b, a);
      Regs.PairsOfExact(g, students[j], k);
      var x, y :| Regs.MustSeparate(g, students[j], x, y) && g.unitOf[x] == k.0 && g.unitOf[y] == k.1;
      assert Decided(p, slotOf, k.0, k.1);
      assert ComfortableAt(p, t, students[j].mtknr, slotOf, g.unitOf[x], g.unitOf[y]);
    }
  }

  /** Main result, from registrations to times: a schedule is free of clashes exactly when every registered
      student has, between any two exams of different units that are neither both foreign nor
      shareable, their own duration and gap. */
  lemma StudentsComfortableExact(p: Problem, t: Setting, g: Regs.Registry, students: seq<Regs.Student>, sitters: seq<Sitter>, slotOf: seq<int>)
    requires Valid(p) && Assignment(p, slotOf) && BuiltFrom(p, t, sitters) && Regs.SittersOf(g, students, sitters)
    ensures ClashFree(p, slotOf) <==> StudentsComfortable(p, t, g, students, slotOf)
  {
    ClashFreeExact(p, t, sitters, slotOf);
    if ClashFree(p, slotOf) { SittersForStudents(p, t, g, students, sitters, slotOf); }
    if StudentsComfortable(p, t, g, students, slotOf) { StudentsForSitters(p, t, g, students, sitters, slotOf); }
  }

  /** Every movable exam the schedule placed stands in its filtered domain; one without a slot left
      stays unplaced. */
  lemma PlacedInDomain(p: Problem, slotOf: seq<int>, u: int)
    requires Valid(p) && Assignment(p, slotOf) && NoNewCapacity(p, FixedPlan(p), slotOf) && Movable(p, u)
    ensures slotOf[u] >= 0 ==> slotOf[u] in Domains.Effective(p.units[u].allowed, |p.slots|)
    ensures Domains.Effective(p.units[u].allowed, |p.slots|) == {} ==> slotOf[u] == -1
  {
    assert UnitKept(p, FixedPlan(p), slotOf, u);
    if slotOf[u] >= 0 { assert Domains.IsSlot(slotOf[u], |p.slots|); }
  }

  /** A unit pinned to a fixed same-slot partner stands with it or stays unplaced, unless the walk over its
      joint programs strays. */
  lemma PinnedWithPartner(p: Problem, slotOf: seq<int>, f: Domains.Filters, units: seq<Domains.DomainUnit>, u: int, w: int)
    requires Valid(p) && FixedPlaced(p, slotOf) && NoNewCapacity(p, FixedPlan(p), slotOf)
    requires Domains.Readable(f, units) && |units| == |p.units| && |f.booked.starts| == |p.slots|
    requires Movable(p, u) && p.units[u].allowed == Domains.Stage(f, u, units[u], 3).allowed
    requires IsUnit(p, w) && p.units[w].fixed && units[u].allowed == [p.units[w].fixedSlot]
    requires u in f.progs ==> !exists k, x :: Domains.StraysTo(p.units[w].fixedSlot, f.progs[u], k, x)
    ensures slotOf[u] == slotOf[w] || slotOf[u] == -1
  {
    Domains.PinnedStays(f, units, u, p.units[w].fixedSlot);
    PlacedInDomain(p, slotOf, u);
  }

  /** What a schedule guarantees for exams and students. */
  ghost predicate GoodSchedule(inp: Inputs, p: Problem, slotOf: seq<int>, clashFree: bool)
    requires Valid(p) && p.units == inp.units && p.slots == inp.slots
  {
    && Assignment(p, slotOf) && FixedPlaced(p, slotOf)
    && (forall u :: Movable(p, u) && slotOf[u] >= 0 ==> slotOf[u] in Domains.Effective(p.units[u].allowed, |p.slots|))
    && (clashFree ==> StudentsComfortable(p, SettingOf(inp), RegistryOf(inp), inp.students, slotOf))
  }

  /** Unit b starts, not before a, when the student has finished a and had the gap, and between campuses the
      way. */
  predicate FinishedBefore(inp: Inputs, mtknr: string, a: int, startA: int, b: int, startB: int) {
    var end, t := startA + Occupied(inp.exams, a, mtknr), SettingOf(inp);
    && startB >= end + ExamGap(inp.configuredGap)
    && (LocationOf(t, a) != LocationOf(t, b) ==> startB >= end + CrossCampusGap(inp.configuredCampusGap))
  }

  /** What a fair schedule means for two exams x and y of one student, in terms of the inputs. */
  lemma FairToStudent(inp: Inputs, p: Problem, slotOf: seq<int>, j: nat, x: int, y: int)
    requires Valid(p) && p.units == inp.units && p.slots == inp.slots && GoodSchedule(inp, p, slotOf, true)
    requires j < |inp.students| && x in inp.students[j].ancodes && y in inp.students[j].ancodes && x in inp.unitOf && y in inp.unitOf
    requires var a, b := inp.unitOf[x], inp.unitOf[y];
             && Decided(p, slotOf, a, b) && a != b && p.slots[slotOf[a]].start <= p.slots[slotOf[b]].start
             && !(inp.units[a].foreign && inp.units[b].foreign) && (if a < b then (a, b) else (b, a)) !in inp.canShare
    ensures var a, b := inp.unitOf[x], inp.unitOf[y];
            FinishedBefore(inp, inp.students[j].mtknr, a, p.slots[slotOf[a]].start, b, p.slots[slotOf[b]].start)
  {
    var a, b, g, s := inp.unitOf[x], inp.unitOf[y], RegistryOf(inp), inp.students[j];
    assert Regs.MustSeparate(g, s, x, y);
    assert ComfortableAt(p, SettingOf(inp), s.mtknr, slotOf, a, b);
    CampusExact(SettingOf(inp), s.mtknr, a, p.slots[slotOf[a]].start, b, p.slots[slotOf[b]].start);
  }

  predicate ProposableFor(inp: Inputs, m: Move) {
    match m
    case Relocate(u, s) => 0 <= u < |inp.units| && !inp.units[u].fixed && 0 <= s < |inp.slots|
    case Swap(u, v) => 0 <= u < |inp.units| && !inp.units[u].fixed && 0 <= v < |inp.units| && !inp.units[v].fixed
  }

  lemma ScheduleIsGood(inp: Inputs, p: Problem, sitters: seq<Sitter>, slotOf: seq<int>, clashFree: bool)
    requires Valid(p) && Built(inp, p, sitters) && Assignment(p, slotOf) && NoNewCapacity(p, FixedPlan(p), slotOf)
    requires clashFree ==> ClashFree(p, slotOf)
    ensures GoodSchedule(inp, p, slotOf, clashFree)
  {
    StudentsComfortableExact(p, SettingOf(inp), RegistryOf(inp), inp.students, sitters, slotOf);
    FixedStay(p, FixedPlan(p), slotOf);
    forall u | Movable(p, u) && slotOf[u] >= 0 ensures slotOf[u] in Domains.Effective(p.units[u].allowed, |p.slots|) {
      PlacedInDomain(p, slotOf, u);
    }
  }

  /** Whole runs, from registrations to times: the schedule computed from the inputs reports its true cost,
      keeps fixed exams and every exam's domain, and, unless the problem has an unsafe swap and the run
      swaps unevenly, treats every registered student fairly. */
  method ScheduleExams(inp: Inputs, start: seq<int>, cfg: Settings, moves: seq<Move>, coins: seq<bool>, calm: seq<bool>)
    returns (p: Problem, slotOf: seq<int>, cost: real)
    requires WellFormed(inp) && |start| == |inp.units| && forall u :: 0 <= u < |start| ==> -1 <= start[u] < |inp.slots|
    requires |coins| == |moves| && |calm| == |moves| && forall i :: 0 <= i < |moves| ==> ProposableFor(inp, moves[i])
    ensures Valid(p) && (exists sitters :: Built(inp, p, sitters))
    ensures GoodSchedule(inp, p, slotOf, SwapsSafe(p) || EvenMoves(p, moves)) && cost == FullCost(p, slotOf)
  {
    var sitters;
    p, sitters := BuildProblem(inp);
    forall i | 0 <= i < |moves| ensures Proposable(p, moves[i]) { assert ProposableFor(inp, moves[i]); }
    ghost var trail, visited, i;
    var st;
    st, cost, trail, visited, i := Solve(p, start, cfg, moves, coins, calm);
    slotOf := st.slotOf;
    ScheduleIsGood(inp, p, sitters, slotOf, SwapsSafe(p) || EvenMoves(p, moves));
  }
}
