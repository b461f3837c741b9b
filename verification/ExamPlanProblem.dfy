/** The immutable input of the exam-schedule solver and its derived look-ups. Starts are minutes;
    closeness and farness are the two distance functions between slots. */
module ExamPlanProblem {

  datatype PlanSlot = PlanSlot(start: int, seats: int, exahmSeats: int, sebSeats: int)

  /** allowed == [] means every slot. */
  datatype PlanUnit = PlanUnit(seats: int, exahm: bool, seb: bool, foreign: bool, fixed: bool, fixedSlot: int, allowed: seq<int>)

  /** Two units one student sits, already weighted. */
  datatype Pair = Pair(a: int, b: int, weight: real, crossLoc: bool)

  datatype AttractPair = AttractPair(a: int, b: int, weight: real)

  datatype AttractRef = AttractRef(other: int, weight: real)

  datatype Weights = Weights(worstCase: real, slotLoad: real, targetLoad: real, tbauFill: real, overflowSeat: real,
                             hole: real, timeOfDay: real, unplaced: real, crossCampus: real)

  datatype Problem = Problem(
    slots: seq<PlanSlot>, units: seq<PlanUnit>, students: seq<seq<Pair>>, attract: seq<AttractPair>, w: Weights,
    severity: seq<real>, closeness: (int, int) -> real, farness: (int, int) -> real,
    hardSep: map<(int, int), int>, overrun: map<(int, int), seq<int>>,
    days: seq<seq<int>>, dayOfSlot: seq<int>, slotDayPos: seq<int>,
    // derived by DeriveConflicts, StudentsOf and AttractOf
    hardConf: seq<seq<int>>, unitStudents: seq<seq<int>>, unitAttract: seq<seq<AttractRef>>)

  predicate IsUnit(p: Problem, u: int) { 0 <= u < |p.units| }

  predicate IsSlot(p: Problem, s: int) { 0 <= s < |p.slots| }

  predicate Movable(p: Problem, u: int) { IsUnit(p, u) && !p.units[u].fixed }

  // ----- hard constraints of one placement -----

  predicate Allows(p: Problem, u: int, s: int)
    requires IsUnit(p, u)
  {
    p.units[u].allowed == [] || s in p.units[u].allowed
  }

  /** Minutes from u's start until v may start; without an entry only the same start is forbidden. */
  function SepMinutes(p: Problem, u: int, v: int): int {
    if (u, v) in p.hardSep then p.hardSep[(u, v)] else 1
  }

  predicate Overlaps(p: Problem, u: int, su: int, v: int, sv: int)
    requires IsSlot(p, su) && IsSlot(p, sv)
  {
    var d := p.slots[sv].start - p.slots[su].start;
    if d >= 0 then d < SepMinutes(p, u, v) else -d < SepMinutes(p, v, u)
  }

  function OverrunTargets(p: Problem, u: int, s: int): seq<int> {
    if (u, s) in p.overrun then p.overrun[(u, s)] else []
  }

  predicate MayOverrun(p: Problem, u: int) { exists k :: k in p.overrun && k.0 == u }

  // ----- derived look-ups -----

  predicate Ends(pr: Pair, u: int, v: int) { (pr.a == u && pr.b == v) || (pr.a == v && pr.b == u) }

  predicate HasPair(pairs: seq<Pair>, u: int, v: int) {
    exists i :: 0 <= i < |pairs| && Ends(pairs[i], u, v)
  }

  /** u and v share a student and are not both fixed. */
  ghost predicate Conflict(p: Problem, u: int, v: int) {
    && IsUnit(p, u) && IsUnit(p, v) && (!p.units[u].fixed || !p.units[v].fixed)
    && exists si :: 0 <= si < |p.students| && HasPair(p.students[si], u, v)
  }

  predicate Involves(pairs: seq<Pair>, u: int) {
    exists i :: 0 <= i < |pairs| && (pairs[i].a == u || pairs[i].b == u)
  }

  /** Attract partners of u in the order of the pairs. */
  function AttractRefs(attract: seq<AttractPair>, u: int): seq<AttractRef> {
    if attract == [] then []
    else
      var ap := attract[|attract| - 1];
      AttractRefs(attract[..|attract| - 1], u) +
      (if ap.a == u then [AttractRef(ap.b, ap.weight)] else if ap.b == u then [AttractRef(ap.a, ap.weight)] else [])
  }

  ghost predicate Increasing(s: seq<int>) { forall i, j :: 0 <= i < j < |s| ==> s[i] < s[j] }

  /** What the constructor of the problem establishes. */
  ghost predicate Valid(p: Problem) {
    && (forall u :: IsUnit(p, u) ==> p.units[u].seats >= 0 && (p.units[u].fixed ==> IsSlot(p, p.units[u].fixedSlot)))
    && (forall si :: 0 <= si < |p.students| ==> ValidPairs(p, p.students[si]))
    && (forall i :: 0 <= i < |p.attract| ==> IsUnit(p, p.attract[i].a) && IsUnit(p, p.attract[i].b) && p.attract[i].a != p.attract[i].b)
    && (forall a, b :: p.farness(a, b) == p.farness(b, a))
    && (forall k :: k in p.hardSep ==> p.hardSep[k] > 0)
    && (forall k :: k in p.overrun ==> ValidTargets(p, k, p.overrun[k]))
    && ValidDays(p)
    && Derived(p)
  }

  ghost predicate ValidPair(p: Problem, pr: Pair) { IsUnit(p, pr.a) && IsUnit(p, pr.b) && pr.a != pr.b }

  ghost predicate ValidPairs(p: Problem, pairs: seq<Pair>) {
    forall i :: 0 <= i < |pairs| ==> ValidPair(p, pairs[i])
  }

  ghost predicate ValidTargets(p: Problem, k: (int, int), targets: seq<int>) {
    (forall t :: t in targets ==> IsSlot(p, t) && t != k.1) && Increasing(targets)
  }

  /** Every slot lies in the day group dayOfSlot names, and in no other. */
  ghost predicate ValidDays(p: Problem) {
    && |p.dayOfSlot| == |p.slots|
    && (forall s :: IsSlot(p, s) ==> 0 <= p.dayOfSlot[s] < |p.days|)
    && (forall d, i :: 0 <= d < |p.days| && 0 <= i < |p.days[d]| ==> IsSlot(p, p.days[d][i]) && p.dayOfSlot[p.days[d][i]] == d)
  }

  ghost predicate Derived(p: Problem) {
    && |p.hardConf| == |p.unitStudents| == |p.unitAttract| == |p.units|
    && (forall u, v {:trigger v in p.hardConf[u]} {:trigger Conflict(p, u, v)} :: IsUnit(p, u) ==> (v in p.hardConf[u] <==> Conflict(p, u, v)))
    && (forall u {:trigger p.unitStudents[u]} :: IsUnit(p, u) ==> StudentList(p, u, p.unitStudents[u]))
    && (forall u {:trigger p.unitAttract[u]} :: IsUnit(p, u) ==> p.unitAttract[u] == AttractRefs(p.attract, u))
  }

  /** Exactly the students with a pair on u, each once. */
  ghost predicate StudentList(p: Problem, u: int, list: seq<int>) {
    && Increasing(list)
    && forall si :: si in list <==> 0 <= si < |p.students| && Involves(p.students[si], u)
  }

  lemma ConflictSym(p: Problem, u: int, v: int)
    requires Conflict(p, u, v)
    ensures Conflict(p, v, u)
  {
    var si :| 0 <= si < |p.students| && HasPair(p.students[si], u, v);
    assert HasPair(p.students[si], v, u);
  }

  lemma ConflictIrreflexive(p: Problem, u: int)
    requires Valid(p)
    ensures !Conflict(p, u, u)
  {
    forall si | 0 <= si < |p.students| ensures !HasPair(p.students[si], u, u) {
      assert ValidPairs(p, p.students[si]);
    }
  }

  /** With positive separations it does not matter which of the two units comes first. */
  lemma OverlapsSym(p: Problem, u: int, su: int, v: int, sv: int)
    requires Valid(p) && IsSlot(p, su) && IsSlot(p, sv)
    ensures Overlaps(p, u, su, v, sv) == Overlaps(p, v, sv, u, su)
  {}

  // ----- soft penalties of one slot, unit or student -----

  function LoadPenalty(p: Problem, seats: int): real {
    var d := seats as real - p.w.targetLoad;
    p.w.slotLoad * d * d
  }

  function Positive(x: int): int { if x > 0 then x else 0 }

  /** Unused booked T-building seats. */
  function TbauPenalty(p: Problem, s: int, exahmUsed: int, sebUsed: int): real
    requires IsSlot(p, s)
  {
    if p.w.tbauFill == 0.0 then 0.0
    else p.w.tbauFill * (Positive(p.slots[s].exahmSeats - exahmUsed) + Positive(p.slots[s].sebSeats - sebUsed)) as real
  }

  /** Seats beyond the booked T-building capacity. */
  function OverflowPenalty(p: Problem, s: int, exahmUsed: int, sebUsed: int): real
    requires IsSlot(p, s)
  {
    if p.w.overflowSeat == 0.0 then 0.0
    else p.w.overflowSeat * (Positive(exahmUsed - p.slots[s].exahmSeats) + Positive(sebUsed - p.slots[s].sebSeats)) as real
  }

  function TimePenalty(p: Problem, u: int, s: int): real
    requires IsUnit(p, u)
  {
    if p.w.timeOfDay == 0.0 || s < 0 || s >= |p.severity| || p.units[u].exahm || p.units[u].seb then 0.0
    else p.w.timeOfDay * p.severity[s] * p.units[u].seats as real
  }

  /** A student's penalty enters with a convex worst-case term. */
  function SpreadOf(p: Problem, ps: real): real { ps + p.w.worstCase * ps * ps }

  // ----- computing the look-ups -----

  /** Adds both directions of every student pair that is not fixed on both sides. */
  method DeriveConflicts(p: Problem) returns (conf: seq<set<int>>)
    requires forall si :: 0 <= si < |p.students| ==> ValidPairs(p, p.students[si])
    ensures |conf| == |p.units|
    ensures forall u, v :: IsUnit(p, u) ==> (v in conf[u] <==> Conflict(p, u, v))
  {
    conf := seq(|p.units|, _ => {});
    for si := 0 to |p.students|
      invariant |conf| == |p.units|
      invariant forall u, v :: IsUnit(p, u) ==> (v in conf[u] <==> ConflictUpTo(p, u, v, si, 0))
    {
      for i := 0 to |p.students[si]|
        invariant |conf| == |p.units|
        invariant forall u, v :: IsUnit(p, u) ==> (v in conf[u] <==> ConflictUpTo(p, u, v, si, i))
      {
        var pr := p.students[si][i];
        assert ValidPairs(p, p.students[si]);
        ConflictsGrow(p, si, i);
        if !p.units[pr.a].fixed || !p.units[pr.b].fixed {
          conf := conf[pr.a := conf[pr.a] + {pr.b}];
          conf := conf[pr.b := conf[pr.b] + {pr.a}];
        }
      }
      forall u, v ensures ConflictUpTo(p, u, v, si, |p.students[si]|) == ConflictUpTo(p, u, v, si + 1, 0) {}
    }
    forall u, v ensures ConflictUpTo(p, u, v, |p.students|, 0) == Conflict(p, u, v) {
      assert forall si :: 0 <= si < |p.students| ==> (SeenPair(p, u, v, si, |p.students[si]|) <==> HasPair(p.students[si], u, v));
    }
  }

  ghost predicate SeenPair(p: Problem, u: int, v: int, si: int, n: int)
    requires 0 <= si < |p.students| && n <= |p.students[si]|
  {
    exists i :: 0 <= i < n && Ends(p.students[si][i], u, v)
  }

  /** The conflicts of the students before si and of the first n pairs of si. */
  ghost predicate ConflictUpTo(p: Problem, u: int, v: int, si: int, n: int)
    requires 0 <= si <= |p.students| && n >= 0 && (si < |p.students| ==> n <= |p.students[si]|)
  {
    && IsUnit(p, u) && IsUnit(p, v) && (!p.units[u].fixed || !p.units[v].fixed)
    && ((exists sj :: 0 <= sj < si && SeenPair(p, u, v, sj, |p.students[sj]|)) || (si < |p.students| && SeenPair(p, u, v, si, n)))
  }

  lemma ConflictsGrow(p: Problem, si: int, i: int)
    requires 0 <= si < |p.students| && 0 <= i < |p.students[si]| && ValidPair(p, p.students[si][i])
    ensures var pr := p.students[si][i];
            forall u, v :: ConflictUpTo(p, u, v, si, i + 1) <==>
                           (ConflictUpTo(p, u, v, si, i) || ((!p.units[pr.a].fixed || !p.units[pr.b].fixed) && Ends(pr, u, v)))
  {
    var pr := p.students[si][i];
    forall u, v ensures SeenPair(p, u, v, si, i + 1) <==> (SeenPair(p, u, v, si, i) || Ends(pr, u, v)) {
      if SeenPair(p, u, v, si, i + 1) && !SeenPair(p, u, v, si, i) {
        var k :| 0 <= k < i + 1 && Ends(p.students[si][k], u, v);
        assert k == i;
      }
    }
  }

  /** Appends each student once to the list of every unit one of their pairs touches. */
  method DeriveStudents(p: Problem) returns (lists: seq<seq<int>>)
    ensures |lists| == |p.units|
    ensures forall u :: IsUnit(p, u) ==> StudentList(p, u, lists[u])
  {
    lists := seq(|p.units|, _ => []);
    for si := 0 to |p.students|
      invariant |lists| == |p.units|
      invariant forall u :: IsUnit(p, u) ==> StudentsUpTo(p, u, si, lists[u])
    {
      for u := 0 to |p.units|
        invariant |lists| == |p.units|
        invariant forall v :: 0 <= v < u ==> StudentsUpTo(p, v, si + 1, lists[v])
        invariant forall v :: u <= v < |p.units| ==> StudentsUpTo(p, v, si, lists[v])
      {
        var list := lists[u] + if Involves(p.students[si], u) then [si] else [];
        forall i | 0 <= i < |lists[u]| ensures lists[u][i] < si {
          var x := lists[u][i];
          assert x in lists[u];
        }
        lists := lists[u := list];
      }
    }
  }

  ghost predicate StudentsUpTo(p: Problem, u: int, n: int, list: seq<int>)
    requires n <= |p.students|
  {
    Increasing(list) && forall si :: si in list <==> 0 <= si < n && Involves(p.students[si], u)
  }

  /** Registers every attract pair with both of its units. */
  method DeriveAttract(p: Problem) returns (refs: seq<seq<AttractRef>>)
    requires forall i :: 0 <= i < |p.attract| ==> IsUnit(p, p.attract[i].a) && IsUnit(p, p.attract[i].b) && p.attract[i].a != p.attract[i].b
    ensures |refs| == |p.units|
    ensures forall u :: IsUnit(p, u) ==> refs[u] == AttractRefs(p.attract, u)
  {
    refs := seq(|p.units|, _ => []);
    for i := 0 to |p.attract|
      invariant |refs| == |p.units|
      invariant forall u :: IsUnit(p, u) ==> refs[u] == AttractRefs(p.attract[..i], u)
    {
      var ap := p.attract[i];
      assert p.attract[..i + 1][..i] == p.attract[..i];
      refs := refs[ap.a := refs[ap.a] + [AttractRef(ap.b, ap.weight)]];
      refs := refs[ap.b := refs[ap.b] + [AttractRef(ap.a, ap.weight)]];
    }
    assert p.attract[..|p.attract|] == p.attract;
  }
}
