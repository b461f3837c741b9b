/** A swap that takes the time between two exams from their student, and lowers the cost: the smallest
    problem whose run ends with a clash. */
module UnevenRun {
  import opened ExamPlanProblem
  import opened ExamPlanLoads
  import opened ExamPlanCost
  import opened ExamPlanHard
  import opened ExamPlanSwaps

  /** A 180-minute exam for two (unit 0) and a 60-minute exam for one (unit 1) with a common student,
      gap 30: 210 minutes from the long one's start, 90 from the short one's. Slots start at 0 and at
      120, and a seat in the later one costs 1 for its time of day. */
  function UnevenPair(): Problem {
    Problem([PlanSlot(0, 0, 0, 0), PlanSlot(120, 0, 0, 0)],
            [PlanUnit(2, false, false, false, false, 0, []), PlanUnit(1, false, false, false, false, 0, [])],
            [[Pair(0, 1, 1.0, false)]], [], Weights(0.0, 0.0, 1.5, 0.0, 0.0, 0.0, 1.0, 1000000.0, 0.0),
            [0.0, 1.0], (a, b) => 0.0, (a, b) => 0.0,
            map[(0, 1) := 210, (1, 0) := 90], map[], [[0, 1]], [0, 0], [0, 1],
            [[1], [0]], [[0], [0]], [[], []])
  }

  lemma UnevenConflicts(u: int, v: int)
    ensures Conflict(UnevenPair(), u, v) <==> (u == 0 && v == 1) || (u == 1 && v == 0)
  {
    var pairs := UnevenPair().students[0];
    assert Ends(pairs[0], 0, 1) && Ends(pairs[0], 1, 0);
    assert HasPair(pairs, 0, 1) && HasPair(pairs, 1, 0);
    assert HasPair(pairs, u, v) ==> Ends(pairs[0], u, v);
  }

  lemma UnevenStudents(u: int)
    requires IsUnit(UnevenPair(), u)
    ensures StudentList(UnevenPair(), u, UnevenPair().unitStudents[u])
  {
    var pairs := UnevenPair().students[0];
    assert pairs[0].a == u || pairs[0].b == u;
    assert Involves(pairs, u);
  }

  lemma UnevenDerived()
    ensures Derived(UnevenPair())
  {
    var p := UnevenPair();
    forall u, v | IsUnit(p, u) ensures v in p.hardConf[u] <==> Conflict(p, u, v) {
      UnevenConflicts(u, v);
    }
    forall u | IsUnit(p, u) ensures StudentList(p, u, p.unitStudents[u]) {
      UnevenStudents(u);
    }
  }

  lemma UnevenPairValid()
    ensures Valid(UnevenPair())
  {
    UnevenDerived();
  }

  lemma UnevenPermitted()
    ensures Valid(UnevenPair()) && Assignment(UnevenPair(), [1, 0]) && CanSwap(UnevenPair(), [1, 0], 0, 1)
    ensures Movable(UnevenPair(), 0) && Movable(UnevenPair(), 1)
  {
    var p := UnevenPair();
    UnevenPairValid();
    forall w ensures !(Conflict(p, 0, w) && w != 1) && !(Conflict(p, 1, w) && w != 0) {
      UnevenConflicts(0, w);
      UnevenConflicts(1, w);
    }
    assert !MayOverrun(p, 0) && !MayOverrun(p, 1);
  }

  lemma UnevenClashes()
    ensures var p := UnevenPair();
            && Assignment(p, [1, 0]) && ClashFree(p, [1, 0])
            && Assignment(p, [0, 1]) && Clash(p, [0, 1], 0, 1)
  {
    var p := UnevenPair();
    forall u, v ensures !Clash(p, [1, 0], u, v) { UnevenConflicts(u, v); }
    UnevenConflicts(0, 1);
  }

  lemma UnevenUnsafe()
    ensures Valid(UnevenPair()) && !SwapsSafe(UnevenPair())
  {
    var p := UnevenPair();
    UnevenPermitted();
    UnevenClashes();
    UnevenConflicts(0, 1);
    assert Alone(p, 0, 1, 1, 0) == [1, 0];
    assert UnsafeSwap(p, 0, 1, 1, 0);
  }

  /** The long exam after the short one is fine; the permitted swap puts it before and makes them clash. */
  lemma SwapCreatesClash()
    ensures var p := UnevenPair();
            && Valid(p) && Assignment(p, [1, 0]) && ClashFree(p, [1, 0]) && CanSwap(p, [1, 0], 0, 1)
            && Swapped([1, 0], 0, 1) == [0, 1] && Assignment(p, [0, 1]) && Clash(p, [0, 1], 0, 1)
  {
    UnevenPermitted();
    UnevenClashes();
  }

  // ----- costs of the pair -----

  lemma {:induction false} FreeSlots(p: Problem, term: SlotTerm, slotOf: seq<int>, n: nat)
    requires Assignment(p, slotOf) && n <= |p.slots| && p.w.slotLoad == 0.0 && p.w.tbauFill == 0.0
    ensures SlotsTotal(p, term, slotOf, n) == 0.0
  {
    if n > 0 {
      FreeSlots(p, term, slotOf, n - 1);
      assert TermOf(p, term, slotOf, n - 1) == 0.0;
    }
  }

  lemma UnevenSpread(slotOf: seq<int>)
    requires Valid(UnevenPair()) && Assignment(UnevenPair(), slotOf)
    ensures SpreadOver(UnevenPair(), Penalties(UnevenPair(), slotOf)) == 0.0
  {
    var p := UnevenPair();
    var pairs := p.students[0];
    assert pairs[..0] == [];
    assert StudentPenalty(p, slotOf, pairs) == 0.0;
    var pS := Penalties(p, slotOf);
    assert pS[..0] == [];
    assert |pS| == 1 && pS[0] == 0.0;
  }

  lemma TwoUnits(p: Problem, slotOf: seq<int>)
    requires Assignment(p, slotOf) && |slotOf| == 2 && slotOf[0] >= 0 && slotOf[1] >= 0
    ensures Unplaced(p, slotOf, 2) == 0
    ensures TimeTotal(p, slotOf, 2) == TimePenalty(p, 0, slotOf[0]) + TimePenalty(p, 1, slotOf[1])
  {
    assert Unplaced(p, slotOf, 1) == 0;
    assert TimeTotal(p, slotOf, 1) == TimePenalty(p, 0, slotOf[0]);
  }

  lemma UnevenTimes(slotOf: seq<int>)
    requires Assignment(UnevenPair(), slotOf) && slotOf[0] >= 0 && slotOf[1] >= 0
    ensures TimePenalty(UnevenPair(), 0, slotOf[0]) == 2.0 * slotOf[0] as real
    ensures TimePenalty(UnevenPair(), 1, slotOf[1]) == slotOf[1] as real
  {}

  /** With both exams placed only their times of day cost. */
  lemma UnevenCost(slotOf: seq<int>)
    requires Valid(UnevenPair()) && Assignment(UnevenPair(), slotOf) && slotOf[0] >= 0 && slotOf[1] >= 0
    ensures FullCost(UnevenPair(), slotOf) == 2.0 * slotOf[0] as real + slotOf[1] as real
  {
    var p := UnevenPair();
    UnevenSpread(slotOf);
    FreeSlots(p, LoadTerm, slotOf, |p.slots|);
    FreeSlots(p, FillTerm, slotOf, |p.slots|);
    TwoUnits(p, slotOf);
    UnevenTimes(slotOf);
    assert HoleCost(p, HolesTotal(p, slotOf, |p.days|)) == 0.0;
    assert AttractOver(p, slotOf, p.attract) == 0.0;
  }
}
