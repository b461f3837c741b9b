/** The soft objective recomputed from the assignment, term by term, and how one move changes each
    term: the arithmetic that the solver's incremental totals rely on. */
module ExamPlanCost {
  import opened ExamPlanProblem
  import opened ExamPlanLoads

  // ----- spread -----

  function PairPenalty(p: Problem, slotOf: seq<int>, pr: Pair): real
    requires Assignment(p, slotOf) && ValidPair(p, pr) && ValidDays(p)
  {
    var a, b := slotOf[pr.a], slotOf[pr.b];
    if a < 0 || b < 0 || a == b then 0.0
    else pr.weight * (p.closeness(a, b) + (if pr.crossLoc && p.dayOfSlot[a] == p.dayOfSlot[b] then p.w.crossCampus else 0.0))
  }

  /** P_s: the student's pairs by closeness. */
  function StudentPenalty(p: Problem, slotOf: seq<int>, pairs: seq<Pair>): real
    requires Assignment(p, slotOf) && ValidPairs(p, pairs) && ValidDays(p)
  {
    if pairs == [] then 0.0
    else StudentPenalty(p, slotOf, pairs[..|pairs| - 1]) + PairPenalty(p, slotOf, pairs[|pairs| - 1])
  }

  /** A unit's move leaves the penalty of a student without it alone. */
  lemma {:induction false} UninvolvedStudent(p: Problem, slotOf: seq<int>, pairs: seq<Pair>, u: int, x: int)
    requires Assignment(p, slotOf) && ValidPairs(p, pairs) && ValidDays(p) && IsUnit(p, u) && -1 <= x < |p.slots|
    requires !Involves(pairs, u)
    ensures StudentPenalty(p, slotOf[u := x], pairs) == StudentPenalty(p, slotOf, pairs)
  {
    if pairs != [] {
      var front := pairs[..|pairs| - 1];
      assert forall i :: 0 <= i < |front| ==> front[i] == pairs[i];
      UninvolvedStudent(p, slotOf, front, u, x);
    }
  }

  function SpreadOver(p: Problem, pS: seq<real>): real {
    if pS == [] then 0.0 else SpreadOver(p, pS[..|pS| - 1]) + SpreadOf(p, pS[|pS| - 1])
  }

  lemma {:induction false} SpreadUpdates(p: Problem, pS: seq<real>, i: nat, x: real)
    requires i < |pS|
    ensures SpreadOver(p, pS[i := x]) == SpreadOver(p, pS) + SpreadOf(p, x) - SpreadOf(p, pS[i])
  {
    var n := |pS| - 1;
    if i == n {
      assert pS[i := x][..n] == pS[..n];
    } else {
      assert pS[i := x][..n] == pS[..n][i := x];
      SpreadUpdates(p, pS[..n], i, x);
    }
  }

  // ----- attract -----

  function AttractTerm(p: Problem, slotOf: seq<int>, a: int, b: int, weight: real): real
    requires Assignment(p, slotOf) && IsUnit(p, a) && IsUnit(p, b)
  {
    if slotOf[a] < 0 || slotOf[b] < 0 then 0.0 else weight * p.farness(slotOf[a], slotOf[b])
  }

  ghost predicate ValidAttract(p: Problem, attract: seq<AttractPair>) {
    forall i :: 0 <= i < |attract| ==> IsUnit(p, attract[i].a) && IsUnit(p, attract[i].b) && attract[i].a != attract[i].b
  }

  function AttractOver(p: Problem, slotOf: seq<int>, attract: seq<AttractPair>): real
    requires Assignment(p, slotOf) && ValidAttract(p, attract)
  {
    if attract == [] then 0.0
    else
      var ap := attract[|attract| - 1];
      AttractOver(p, slotOf, attract[..|attract| - 1]) + AttractTerm(p, slotOf, ap.a, ap.b, ap.weight)
  }

  ghost predicate ValidRefs(p: Problem, refs: seq<AttractRef>) {
    forall i :: 0 <= i < |refs| ==> IsUnit(p, refs[i].other)
  }

  /** The attract cost of one unit's own pairs. */
  function AttractOfUnit(p: Problem, slotOf: seq<int>, u: int, refs: seq<AttractRef>): real
    requires Assignment(p, slotOf) && IsUnit(p, u) && ValidRefs(p, refs)
  {
    if refs == [] then 0.0
    else AttractOfUnit(p, slotOf, u, refs[..|refs| - 1]) + AttractTerm(p, slotOf, u, refs[|refs| - 1].other, refs[|refs| - 1].weight)
  }

  lemma {:induction false} RefsAreUnits(p: Problem, attract: seq<AttractPair>, u: int)
    requires ValidAttract(p, attract)
    ensures ValidRefs(p, AttractRefs(attract, u))
  {
    if attract != [] { RefsAreUnits(p, attract[..|attract| - 1], u); }
  }

  /** A move changes the attract total by the change of the moved unit's own pairs. */
  lemma {:induction false} AttractMoves(p: Problem, slotOf: seq<int>, attract: seq<AttractPair>, u: int, x: int)
    requires Assignment(p, slotOf) && ValidAttract(p, attract) && IsUnit(p, u) && -1 <= x < |p.slots|
    requires forall a, b :: p.farness(a, b) == p.farness(b, a)
    requires ValidRefs(p, AttractRefs(attract, u))
    ensures AttractOver(p, slotOf[u := x], attract) - AttractOver(p, slotOf, attract) ==
            AttractOfUnit(p, slotOf[u := x], u, AttractRefs(attract, u)) - AttractOfUnit(p, slotOf, u, AttractRefs(attract, u))
  {
    if attract != [] {
      var front, ap := attract[..|attract| - 1], attract[|attract| - 1];
      RefsAreUnits(p, front, u);
      AttractMoves(p, slotOf, front, u, x);
      AttractRefsStep(p, slotOf, attract, u);
      AttractRefsStep(p, slotOf[u := x], attract, u);
    }
  }

  lemma AttractAppend(p: Problem, slotOf: seq<int>, u: int, refs: seq<AttractRef>, ref: AttractRef)
    requires Assignment(p, slotOf) && IsUnit(p, u) && ValidRefs(p, refs) && IsUnit(p, ref.other)
    ensures ValidRefs(p, refs + [ref])
    ensures AttractOfUnit(p, slotOf, u, refs + [ref]) == AttractOfUnit(p, slotOf, u, refs) + AttractTerm(p, slotOf, u, ref.other, ref.weight)
  {
    assert (refs + [ref])[..|refs|] == refs;
  }

  lemma AttractRefsStep(p: Problem, slotOf: seq<int>, attract: seq<AttractPair>, u: int)
    requires Assignment(p, slotOf) && ValidAttract(p, attract) && attract != [] && IsUnit(p, u)
    requires forall a, b :: p.farness(a, b) == p.farness(b, a)
    requires ValidRefs(p, AttractRefs(attract, u)) && ValidRefs(p, AttractRefs(attract[..|attract| - 1], u))
    ensures var ap := attract[|attract| - 1];
            AttractOfUnit(p, slotOf, u, AttractRefs(attract, u)) ==
            AttractOfUnit(p, slotOf, u, AttractRefs(attract[..|attract| - 1], u)) +
            (if ap.a == u || ap.b == u then AttractTerm(p, slotOf, ap.a, ap.b, ap.weight) else 0.0)
  {
    var ap := attract[|attract| - 1];
    var before := AttractRefs(attract[..|attract| - 1], u);
    if ap.a == u {
      AttractAppend(p, slotOf, u, before, AttractRef(ap.b, ap.weight));
    } else if ap.b == u {
      AttractAppend(p, slotOf, u, before, AttractRef(ap.a, ap.weight));
    } else {
      assert before + [] == before;
    }
  }

  // ----- slot terms: load and T-building fill -----

  datatype SlotTerm = LoadTerm | FillTerm

  function TermOf(p: Problem, term: SlotTerm, slotOf: seq<int>, s: int): real
    requires Assignment(p, slotOf) && IsSlot(p, s)
  {
    match term
    case LoadTerm => LoadPenalty(p, Load(p, AllSeats, slotOf, s))
    case FillTerm => TbauPenalty(p, s, Load(p, ExahmSeats, slotOf, s), Load(p, SebSeats, slotOf, s))
  }

  function SlotsTotal(p: Problem, term: SlotTerm, slotOf: seq<int>, n: nat): real
    requires Assignment(p, slotOf) && n <= |p.slots|
  {
    if n == 0 then 0.0 else SlotsTotal(p, term, slotOf, n - 1) + TermOf(p, term, slotOf, n - 1)
  }

  /** The term of a slot the move touches; 0 for "unplaced". */
  function TouchedTerm(p: Problem, term: SlotTerm, slotOf: seq<int>, s: int, n: nat): real
    requires Assignment(p, slotOf) && n <= |p.slots|
  {
    if 0 <= s < n then TermOf(p, term, slotOf, s) else 0.0
  }

  lemma UntouchedSlot(p: Problem, slotOf: seq<int>, u: int, x: int, c: Counter, s: int)
    requires Assignment(p, slotOf) && IsUnit(p, u) && s != x && s != slotOf[u] && c != OverrunSeats
    ensures Load(p, c, slotOf[u := x], s) == Load(p, c, slotOf, s)
  {
    LoadMoves(p, c, slotOf, s, |slotOf|, u, x);
  }

  /** Only the slot left and the slot entered change their terms. */
  lemma {:induction false} SlotsMove(p: Problem, term: SlotTerm, slotOf: seq<int>, u: int, x: int, n: nat)
    requires Assignment(p, slotOf) && IsUnit(p, u) && -1 <= x < |p.slots| && x != slotOf[u] && n <= |p.slots|
    ensures SlotsTotal(p, term, slotOf[u := x], n) - SlotsTotal(p, term, slotOf, n) ==
            (TouchedTerm(p, term, slotOf[u := x], slotOf[u], n) + TouchedTerm(p, term, slotOf[u := x], x, n)) -
            (TouchedTerm(p, term, slotOf, slotOf[u], n) + TouchedTerm(p, term, slotOf, x, n))
  {
    if n > 0 {
      SlotsMove(p, term, slotOf, u, x, n - 1);
      var s := n - 1;
      if s != x && s != slotOf[u] {
        UntouchedSlot(p, slotOf, u, x, AllSeats, s);
        UntouchedSlot(p, slotOf, u, x, ExahmSeats, s);
        UntouchedSlot(p, slotOf, u, x, SebSeats, s);
      }
    }
  }

  // ----- interior holes -----

  /** Slot i of the day is free although own exams sit before and after it. */
  ghost predicate HoleAt(own: seq<int>, day: seq<int>, i: int)
    requires 0 <= i < |day| && forall k :: 0 <= k < |day| ==> 0 <= day[k] < |own|
  {
    own[day[i]] == 0 && (exists j :: 0 <= j < i && own[day[j]] > 0) && (exists j :: i < j < |day| && own[day[j]] > 0)
  }

  ghost function HolesUpTo(own: seq<int>, day: seq<int>, n: nat): nat
    requires n <= |day| && forall k :: 0 <= k < |day| ==> 0 <= day[k] < |own|
  {
    if n == 0 then 0 else HolesUpTo(own, day, n - 1) + (if HoleAt(own, day, n - 1) then 1 else 0)
  }

  lemma {:induction false} HolesDependOnDay(own: seq<int>, own': seq<int>, day: seq<int>, n: nat)
    requires n <= |day| && |own| == |own'| && forall k :: 0 <= k < |day| ==> 0 <= day[k] < |own|
    requires forall k :: 0 <= k < |day| ==> own[day[k]] == own'[day[k]]
    ensures HolesUpTo(own, day, n) == HolesUpTo(own', day, n)
  {
    if n > 0 { HolesDependOnDay(own, own', day, n - 1); }
  }

  function OwnLoads(p: Problem, slotOf: seq<int>): seq<int>
    requires Assignment(p, slotOf)
  {
    seq(|p.slots|, s => Load(p, OwnSeats, slotOf, s))
  }

  ghost function DayHoles(p: Problem, slotOf: seq<int>, d: int): nat
    requires Assignment(p, slotOf) && ValidDays(p) && 0 <= d < |p.days|
  {
    HolesUpTo(OwnLoads(p, slotOf), p.days[d], |p.days[d]|)
  }

  ghost function HolesTotal(p: Problem, slotOf: seq<int>, n: nat): nat
    requires Assignment(p, slotOf) && ValidDays(p) && n <= |p.days|
  {
    if n == 0 then 0 else HolesTotal(p, slotOf, n - 1) + DayHoles(p, slotOf, n - 1)
  }

  function DayOf(p: Problem, s: int): int
    requires ValidDays(p) && -1 <= s < |p.slots|
  {
    if s < 0 then -1 else p.dayOfSlot[s]
  }

  /** The holes of the (at most two) days a move touches; equal days count once. */
  ghost function TouchedHoles(p: Problem, slotOf: seq<int>, d1: int, d2: int, n: nat): nat
    requires Assignment(p, slotOf) && ValidDays(p) && n <= |p.days|
  {
    (if 0 <= d1 < n then DayHoles(p, slotOf, d1) else 0) + (if 0 <= d2 < n && d2 != d1 then DayHoles(p, slotOf, d2) else 0)
  }

  lemma UntouchedDay(p: Problem, slotOf: seq<int>, u: int, x: int, d: int)
    requires Assignment(p, slotOf) && ValidDays(p) && IsUnit(p, u) && -1 <= x < |p.slots| && 0 <= d < |p.days|
    requires d != DayOf(p, slotOf[u]) && d != DayOf(p, x)
    ensures DayHoles(p, slotOf[u := x], d) == DayHoles(p, slotOf, d)
  {
    var day := p.days[d];
    forall k | 0 <= k < |day| ensures OwnLoads(p, slotOf[u := x])[day[k]] == OwnLoads(p, slotOf)[day[k]] {
      UntouchedSlot(p, slotOf, u, x, OwnSeats, day[k]);
    }
    HolesDependOnDay(OwnLoads(p, slotOf), OwnLoads(p, slotOf[u := x]), day, |day|);
  }

  /** Over the first n days the holes of b differ from those of a by the touched days only. */
  ghost predicate HolesShifted(p: Problem, a: seq<int>, b: seq<int>, d1: int, d2: int, n: nat)
    requires Assignment(p, a) && Assignment(p, b) && ValidDays(p) && n <= |p.days|
  {
    HolesTotal(p, b, n) - HolesTotal(p, a, n) == TouchedHoles(p, b, d1, d2, n) - TouchedHoles(p, a, d1, d2, n)
  }

  lemma HolesStep(p: Problem, a: seq<int>, b: seq<int>, d1: int, d2: int, n: nat)
    requires Assignment(p, a) && Assignment(p, b) && ValidDays(p) && n < |p.days| && HolesShifted(p, a, b, d1, d2, n)
    requires n == d1 || n == d2 || DayHoles(p, b, n) == DayHoles(p, a, n)
    ensures HolesShifted(p, a, b, d1, d2, n + 1)
  {}

  /** A move changes the holes of the day left and the day entered only. */
  lemma HolesMove(p: Problem, slotOf: seq<int>, u: int, x: int)
    requires Assignment(p, slotOf) && ValidDays(p) && IsUnit(p, u) && -1 <= x < |p.slots|
    ensures HolesShifted(p, slotOf, slotOf[u := x], DayOf(p, slotOf[u]), DayOf(p, x), |p.days|)
  {
    var after, d1, d2 := slotOf[u := x], DayOf(p, slotOf[u]), DayOf(p, x);
    for n := 0 to |p.days|
      invariant HolesShifted(p, slotOf, after, d1, d2, n)
    {
      if n != d1 && n != d2 { UntouchedDay(p, slotOf, u, x, n); }
      HolesStep(p, slotOf, after, d1, d2, n);
    }
  }

  // ----- start times and unplaced units -----

  function TimeTotal(p: Problem, slotOf: seq<int>, n: nat): real
    requires Assignment(p, slotOf) && n <= |slotOf|
  {
    if n == 0 then 0.0 else TimeTotal(p, slotOf, n - 1) + TimePenalty(p, n - 1, slotOf[n - 1])
  }

  lemma {:induction false} TimeMoves(p: Problem, slotOf: seq<int>, u: int, x: int, n: nat)
    requires Assignment(p, slotOf) && IsUnit(p, u) && -1 <= x < |p.slots| && n <= |slotOf|
    ensures TimeTotal(p, slotOf[u := x], n) - TimeTotal(p, slotOf, n) ==
            if u < n then TimePenalty(p, u, x) - TimePenalty(p, u, slotOf[u]) else 0.0
  {
    if n > 0 { TimeMoves(p, slotOf, u, x, n - 1); }
  }

  function Unplaced(p: Problem, slotOf: seq<int>, n: nat): nat
    requires Assignment(p, slotOf) && n <= |slotOf|
  {
    if n == 0 then 0 else Unplaced(p, slotOf, n - 1) + (if Movable(p, n - 1) && slotOf[n - 1] < 0 then 1 else 0)
  }

  lemma {:induction false} UnplacedMoves(p: Problem, slotOf: seq<int>, u: int, x: int, n: nat)
    requires Assignment(p, slotOf) && Movable(p, u) && -1 <= x < |p.slots| && n <= |slotOf|
    ensures Unplaced(p, slotOf[u := x], n) - Unplaced(p, slotOf, n) ==
            if u < n then (if x < 0 then 1 else 0) - (if slotOf[u] < 0 then 1 else 0) else 0
  {
    if n > 0 { UnplacedMoves(p, slotOf, u, x, n - 1); }
  }

  // ----- the whole objective -----

  function HoleCost(p: Problem, holes: int): real { p.w.hole * holes as real }

  function UnplacedCost(p: Problem, n: int): real { p.w.unplaced * n as real }

  /** The soft objective of an assignment, every term recomputed from scratch. */
  ghost function FullCost(p: Problem, slotOf: seq<int>): real
    requires Valid(p) && Assignment(p, slotOf)
  {
    SpreadOver(p, Penalties(p, slotOf)) + AttractOver(p, slotOf, p.attract)
    + SlotsTotal(p, LoadTerm, slotOf, |p.slots|) + SlotsTotal(p, FillTerm, slotOf, |p.slots|)
    + HoleCost(p, HolesTotal(p, slotOf, |p.days|))
    + TimeTotal(p, slotOf, |slotOf|) + UnplacedCost(p, Unplaced(p, slotOf, |slotOf|))
  }

  ghost function Penalties(p: Problem, slotOf: seq<int>): seq<real>
    requires Valid(p) && Assignment(p, slotOf)
  {
    PenaltiesOf(p, slotOf, |p.students|)
  }

  ghost function PenaltiesOf(p: Problem, slotOf: seq<int>, n: nat): (pS: seq<real>)
    requires Valid(p) && Assignment(p, slotOf) && n <= |p.students|
    ensures |pS| == n && forall si :: 0 <= si < n ==> pS[si] == StudentPenalty(p, slotOf, p.students[si])
  {
    if n == 0 then [] else PenaltiesOf(p, slotOf, n - 1) + [StudentPenalty(p, slotOf, p.students[n - 1])]
  }

  /** R-building overflow: reported with the objective, not part of it. */
  function OverflowTotal(p: Problem, slotOf: seq<int>, n: nat): real
    requires Assignment(p, slotOf) && n <= |p.slots|
  {
    if n == 0 then 0.0
    else OverflowTotal(p, slotOf, n - 1) + OverflowPenalty(p, n - 1, Load(p, ExahmSeats, slotOf, n - 1), Load(p, SebSeats, slotOf, n - 1))
  }

  /** Start-time cost as the report sums it: only positive penalties of placed units. */
  function ReportedTime(p: Problem, slotOf: seq<int>, n: nat): real
    requires Assignment(p, slotOf) && n <= |slotOf|
  {
    if n == 0 then 0.0
    else
      var c := if slotOf[n - 1] < 0 then 0.0 else TimePenalty(p, n - 1, slotOf[n - 1]);
      ReportedTime(p, slotOf, n - 1) + (if c <= 0.0 then 0.0 else c)
  }

  /** The registry's total for the run report. */
  ghost function ReportedCost(p: Problem, slotOf: seq<int>): real
    requires Valid(p) && Assignment(p, slotOf)
  {
    SpreadOver(p, Penalties(p, slotOf)) + AttractOver(p, slotOf, p.attract)
    + SlotsTotal(p, LoadTerm, slotOf, |p.slots|)
    + HoleCost(p, HolesTotal(p, slotOf, |p.days|))
    + SlotsTotal(p, FillTerm, slotOf, |p.slots|) + OverflowTotal(p, slotOf, |p.slots|)
    + (if p.w.timeOfDay == 0.0 then 0.0 else ReportedTime(p, slotOf, |slotOf|))
    + UnplacedCost(p, Unplaced(p, slotOf, |slotOf|))
  }

  ghost predicate NonNegativeTimes(p: Problem) {
    p.w.timeOfDay >= 0.0 && forall s :: 0 <= s < |p.severity| ==> p.severity[s] >= 0.0
  }

  lemma {:induction false} ReportedTimeExact(p: Problem, slotOf: seq<int>, n: nat)
    requires Valid(p) && Assignment(p, slotOf) && n <= |slotOf| && NonNegativeTimes(p)
    ensures TimeTotal(p, slotOf, n) == if p.w.timeOfDay == 0.0 then 0.0 else ReportedTime(p, slotOf, n)
  {
    if n > 0 {
      ReportedTimeExact(p, slotOf, n - 1);
      assert IsUnit(p, n - 1);
      TimePenaltyNonNegative(p, n - 1, slotOf[n - 1]);
    }
  }

  lemma TimePenaltyNonNegative(p: Problem, u: int, s: int)
    requires IsUnit(p, u) && p.units[u].seats >= 0 && NonNegativeTimes(p)
    ensures TimePenalty(p, u, s) >= 0.0
  {
    if 0 <= s < |p.severity| {
      var a := p.w.timeOfDay * p.severity[s];
      assert a >= 0.0;
      assert a * p.units[u].seats as real >= 0.0;
    }
  }

  /** What the solver minimises and what the report shows differ by the overflow term alone. */
  lemma ReportVersusObjective(p: Problem, slotOf: seq<int>)
    requires Valid(p) && Assignment(p, slotOf) && NonNegativeTimes(p)
    ensures ReportedCost(p, slotOf) == FullCost(p, slotOf) + OverflowTotal(p, slotOf, |p.slots|)
  {
    ReportedTimeExact(p, slotOf, |slotOf|);
  }

  /** No slot holds EXaHM or SEB seats beyond its booking. */
  ghost predicate InsideBookings(p: Problem, slotOf: seq<int>, n: nat)
    requires Assignment(p, slotOf) && n <= |p.slots|
  {
    forall s :: 0 <= s < n ==>
      Load(p, ExahmSeats, slotOf, s) <= p.slots[s].exahmSeats && Load(p, SebSeats, slotOf, s) <= p.slots[s].sebSeats
  }

  lemma {:induction false} OverflowExact(p: Problem, slotOf: seq<int>, n: nat)
    requires Assignment(p, slotOf) && n <= |p.slots| && p.w.overflowSeat > 0.0
    ensures OverflowTotal(p, slotOf, n) >= 0.0
    ensures OverflowTotal(p, slotOf, n) == 0.0 <==> InsideBookings(p, slotOf, n)
  {
    if n > 0 {
      OverflowExact(p, slotOf, n - 1);
      var s := n - 1;
      var over := Positive(Load(p, ExahmSeats, slotOf, s) - p.slots[s].exahmSeats) + Positive(Load(p, SebSeats, slotOf, s) - p.slots[s].sebSeats);
      assert over >= 0 && (over > 0 ==> p.w.overflowSeat * over as real > 0.0);
    }
  }

  /** Exact: with the overflow weight on, the reported total is the minimised one if and only if
      every slot stays inside its bookings. */
  lemma ReportExact(p: Problem, slotOf: seq<int>)
    requires Valid(p) && Assignment(p, slotOf) && NonNegativeTimes(p) && p.w.overflowSeat > 0.0
    ensures ReportedCost(p, slotOf) == FullCost(p, slotOf) <==> InsideBookings(p, slotOf, |p.slots|)
  {
    ReportVersusObjective(p, slotOf);
    OverflowExact(p, slotOf, |p.slots|);
  }
}
