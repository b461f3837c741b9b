/** The loops that read one term of the objective off the current assignment and counters. */
module ExamPlanTerms {
  import opened ExamPlanProblem
  import opened ExamPlanLoads
  import opened ExamPlanCost

  method StudentPenaltyAt(p: Problem, slotOf: seq<int>, pairs: seq<Pair>) returns (ps: real)
    requires Assignment(p, slotOf) && ValidPairs(p, pairs) && ValidDays(p)
    ensures ps == StudentPenalty(p, slotOf, pairs)
  {
    ps := 0.0;
    for i := 0 to |pairs|
      invariant ps == StudentPenalty(p, slotOf, pairs[..i])
    {
      assert pairs[..i + 1][..i] == pairs[..i];
      var pr := pairs[i];
      var a, b := slotOf[pr.a], slotOf[pr.b];
      if a < 0 || b < 0 || a == b { continue; }
      var c := p.closeness(a, b);
      if pr.crossLoc && p.dayOfSlot[a] == p.dayOfSlot[b] {
        c := c + p.w.crossCampus;
      }
      ps := ps + pr.weight * c;
    }
    assert pairs[..|pairs|] == pairs;
  }

  method AttractCostOfUnit(p: Problem, slotOf: seq<int>, u: int, refs: seq<AttractRef>) returns (cost: real)
    requires Assignment(p, slotOf) && IsUnit(p, u) && ValidRefs(p, refs)
    ensures cost == AttractOfUnit(p, slotOf, u, refs)
  {
    cost := 0.0;
    if slotOf[u] < 0 {
      UnplacedAttract(p, slotOf, u, refs);
      return;
    }
    for i := 0 to |refs|
      invariant cost == AttractOfUnit(p, slotOf, u, refs[..i])
    {
      assert refs[..i + 1][..i] == refs[..i];
      var other := refs[i].other;
      if slotOf[other] >= 0 {
        cost := cost + refs[i].weight * p.farness(slotOf[u], slotOf[other]);
      }
    }
    assert refs[..|refs|] == refs;
  }

  lemma {:induction false} UnplacedAttract(p: Problem, slotOf: seq<int>, u: int, refs: seq<AttractRef>)
    requires Assignment(p, slotOf) && IsUnit(p, u) && ValidRefs(p, refs) && slotOf[u] < 0
    ensures AttractOfUnit(p, slotOf, u, refs) == 0.0
  {
    if refs != [] { UnplacedAttract(p, slotOf, u, refs[..|refs| - 1]); }
  }

  lemma {:induction false} NoHolesBetween(own: seq<int>, day: seq<int>, lo: nat, hi: nat)
    requires lo <= hi <= |day| && forall k :: 0 <= k < |day| ==> 0 <= day[k] < |own|
    requires forall i :: lo <= i < hi ==> !HoleAt(own, day, i)
    ensures HolesUpTo(own, day, hi) == HolesUpTo(own, day, lo)
  {
    if lo < hi { NoHolesBetween(own, day, lo, hi - 1); }
  }

  /** First and last own-occupied slot of the day, then the free slots strictly between them. */
  method HoleCount(own: seq<int>, day: seq<int>) returns (holes: nat)
    requires forall k :: 0 <= k < |day| ==> 0 <= day[k] < |own|
    ensures holes == HolesUpTo(own, day, |day|)
  {
    var first, last := -1, -1;
    for i := 0 to |day|
      invariant -1 <= first <= last < i && (first < 0 <==> last < 0)
      invariant forall j :: 0 <= j < i && own[day[j]] > 0 ==> 0 <= first <= j <= last
      invariant first >= 0 ==> own[day[first]] > 0 && own[day[last]] > 0
    {
      if own[day[i]] > 0 {
        if first < 0 { first := i; }
        last := i;
      }
    }
    if first < 0 {
      NoHolesBetween(own, day, 0, |day|);
      return 0;
    }
    NoHolesBetween(own, day, 0, first + 1);
    holes := 0;
    var i := first + 1;
    while i < last
      invariant first < i <= last || (first == last && i == first + 1)
      invariant holes == HolesUpTo(own, day, i)
    {
      if own[day[i]] == 0 { holes := holes + 1; }
      i := i + 1;
    }
    NoHolesBetween(own, day, i, |day|);
  }

  /** Weighted holes of at most two days. */
  method HoleOfDays(p: Problem, ghost slotOf: seq<int>, own: seq<int>, d1: int, d2: int) returns (cost: real)
    requires Assignment(p, slotOf) && ValidDays(p) && own == OwnLoads(p, slotOf)
    requires -1 <= d1 < |p.days| && -1 <= d2 < |p.days|
    ensures cost == HoleCost(p, TouchedHoles(p, slotOf, d1, d2, |p.days|))
  {
    if p.w.hole == 0.0 { return 0.0; }
    var total := 0;
    if d1 >= 0 {
      total := HoleCount(own, p.days[d1]);
    }
    if d2 >= 0 && d2 != d1 {
      var more := HoleCount(own, p.days[d2]);
      total := total + more;
    }
    cost := HoleCost(p, total);
  }

  /** Load and fill terms of the slots a move touches; -1 contributes nothing. */
  method SlotTerms(p: Problem, ghost slotOf: seq<int>, all: seq<int>, exahm: seq<int>, seb: seq<int>, s1: int, s2: int)
    returns (load: real, fill: real)
    requires Assignment(p, slotOf) && -1 <= s1 < |p.slots| && -1 <= s2 < |p.slots|
    requires |all| == |exahm| == |seb| == |p.slots|
    requires forall s :: IsSlot(p, s) ==> all[s] == Load(p, AllSeats, slotOf, s) && exahm[s] == Load(p, ExahmSeats, slotOf, s) && seb[s] == Load(p, SebSeats, slotOf, s)
    ensures load == TouchedTerm(p, LoadTerm, slotOf, s1, |p.slots|) + TouchedTerm(p, LoadTerm, slotOf, s2, |p.slots|)
    ensures fill == TouchedTerm(p, FillTerm, slotOf, s1, |p.slots|) + TouchedTerm(p, FillTerm, slotOf, s2, |p.slots|)
  {
    load, fill := 0.0, 0.0;
    if s1 >= 0 {
      load := load + LoadPenalty(p, all[s1]);
      fill := fill + TbauPenalty(p, s1, exahm[s1], seb[s1]);
    }
    if s2 >= 0 {
      load := load + LoadPenalty(p, all[s2]);
      fill := fill + TbauPenalty(p, s2, exahm[s2], seb[s2]);
    }
  }

  // ----- whole terms, for the initial cost -----

  method SpreadSum(p: Problem, pS: seq<real>) returns (total: real)
    ensures total == SpreadOver(p, pS)
  {
    total := 0.0;
    for i := 0 to |pS|
      invariant total == SpreadOver(p, pS[..i])
    {
      assert pS[..i + 1][..i] == pS[..i];
      total := total + SpreadOf(p, pS[i]);
    }
    assert pS[..|pS|] == pS;
  }

  method AttractSum(p: Problem, slotOf: seq<int>) returns (total: real)
    requires Assignment(p, slotOf) && ValidAttract(p, p.attract)
    ensures total == AttractOver(p, slotOf, p.attract)
  {
    total := 0.0;
    for i := 0 to |p.attract|
      invariant total == AttractOver(p, slotOf, p.attract[..i])
    {
      assert p.attract[..i + 1][..i] == p.attract[..i];
      var ap := p.attract[i];
      if slotOf[ap.a] >= 0 && slotOf[ap.b] >= 0 {
        total := total + ap.weight * p.farness(slotOf[ap.a], slotOf[ap.b]);
      }
    }
    assert p.attract[..|p.attract|] == p.attract;
  }

  method SlotSums(p: Problem, ghost slotOf: seq<int>, all: seq<int>, exahm: seq<int>, seb: seq<int>) returns (load: real, fill: real)
    requires Assignment(p, slotOf) && |all| == |exahm| == |seb| == |p.slots|
    requires forall s :: IsSlot(p, s) ==> all[s] == Load(p, AllSeats, slotOf, s) && exahm[s] == Load(p, ExahmSeats, slotOf, s) && seb[s] == Load(p, SebSeats, slotOf, s)
    ensures load == SlotsTotal(p, LoadTerm, slotOf, |p.slots|) && fill == SlotsTotal(p, FillTerm, slotOf, |p.slots|)
  {
    load, fill := 0.0, 0.0;
    for s := 0 to |p.slots|
      invariant load == SlotsTotal(p, LoadTerm, slotOf, s) && fill == SlotsTotal(p, FillTerm, slotOf, s)
    {
      load := load + LoadPenalty(p, all[s]);
      fill := fill + TbauPenalty(p, s, exahm[s], seb[s]);
    }
  }

  lemma HoleCostAdds(p: Problem, a: int, b: int)
    ensures HoleCost(p, a + b) == HoleCost(p, a) + HoleCost(p, b)
  {}

  method HoleSum(p: Problem, ghost slotOf: seq<int>, own: seq<int>) returns (total: real)
    requires Assignment(p, slotOf) && ValidDays(p) && own == OwnLoads(p, slotOf)
    ensures total == HoleCost(p, HolesTotal(p, slotOf, |p.days|))
  {
    total := 0.0;
    for d := 0 to |p.days|
      invariant total == HoleCost(p, HolesTotal(p, slotOf, d))
    {
      var holes := HoleCount(own, p.days[d]);
      HoleCostAdds(p, HolesTotal(p, slotOf, d), holes);
      total := total + HoleCost(p, holes);
    }
  }

  method UnitSums(p: Problem, slotOf: seq<int>) returns (time: real, unplaced: nat)
    requires Assignment(p, slotOf)
    ensures time == TimeTotal(p, slotOf, |slotOf|) && unplaced == Unplaced(p, slotOf, |slotOf|)
  {
    time, unplaced := 0.0, 0;
    for u := 0 to |slotOf|
      invariant time == TimeTotal(p, slotOf, u) && unplaced == Unplaced(p, slotOf, u)
    {
      assert IsUnit(p, u);
      if slotOf[u] >= 0 {
        time := time + TimePenalty(p, u, slotOf[u]);
      } else if !p.units[u].fixed {
        unplaced := unplaced + 1;
      }
    }
  }
}
