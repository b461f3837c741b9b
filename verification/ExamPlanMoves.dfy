/** Exactly which moves the solver permits, told by the assignment a move leads to: nothing is refused
    that leaves the hard limits of the touched slots intact. */
module ExamPlanMoves {
  import opened ExamPlanProblem
  import opened ExamPlanLoads
  import opened ExamPlanHard

  /** u stands in its slot without exceeding the cap beside others. Seats of a unit without registrations
      do not count as a combination, so it only enters a slot that is within its cap already. */
  ghost predicate CapKept(p: Problem, slotOf: seq<int>, u: int, s: int)
    requires Assignment(p, slotOf) && IsUnit(p, u) && IsSlot(p, s)
  {
    if p.units[u].seats > 0 then !OverSeats(p, slotOf, s)
    else p.slots[s].seats > 0 ==> Load(p, AllSeats, slotOf, s) <= p.slots[s].seats
  }

  /** u clashes with nobody. */
  ghost predicate Clear(p: Problem, slotOf: seq<int>, u: int)
    requires Assignment(p, slotOf)
  {
    forall w :: !Clash(p, slotOf, u, w)
  }

  /** u clashes with nobody but possibly v. */
  ghost predicate ClearExcept(p: Problem, slotOf: seq<int>, u: int, v: int)
    requires Assignment(p, slotOf)
  {
    forall w :: w != v ==> !Clash(p, slotOf, u, w)
  }

  /** The EXaHM seats u holds in slot t while it stands in slot su. */
  function Held(p: Problem, u: int, su: int, t: int): int
    requires IsUnit(p, u)
  {
    Share(p, ExahmSeats, u, su, t) + Share(p, OverrunSeats, u, su, t)
  }

  /** The booked seats of t cover everything after the move, and what u held there before it as well. */
  ghost predicate BookedBeside(p: Problem, after: seq<int>, t: int, held: int)
    requires Assignment(p, after)
  {
    IsSlot(p, t) && Load(p, ExahmSeats, after, t) + Load(p, OverrunSeats, after, t) + held <= p.slots[t].exahmSeats
  }

  lemma CapExact(p: Problem, slotOf: seq<int>, u: int, s: int)
    requires Valid(p) && Assignment(p, slotOf) && IsUnit(p, u) && IsSlot(p, s) && slotOf[u] != s
    ensures Assignment(p, slotOf[u := s])
    ensures SeatsFit(p, slotOf, u, s) <==> CapKept(p, slotOf[u := s], u, s)
  {
    CounterAfterMove(p, slotOf, u, s, AllSeats, s);
    SeatUnitsMove(p, slotOf, s, |slotOf|, u, s);
    LoadVersusUnits(p, slotOf, s, |slotOf|);
  }

  lemma ClearExact(p: Problem, slotOf: seq<int>, u: int, s: int)
    requires Valid(p) && Assignment(p, slotOf) && IsUnit(p, u) && IsSlot(p, s)
    ensures Assignment(p, slotOf[u := s])
    ensures NoOverlapAt(p, slotOf, u, s) <==> Clear(p, slotOf[u := s], u)
  {
    var after := slotOf[u := s];
    ConflictIrreflexive(p, u);
    forall v | Conflict(p, u, v) ensures after[v] == slotOf[v] {}
    if Clear(p, after, u) {
      forall v | Conflict(p, u, v) && slotOf[v] >= 0 ensures !Overlaps(p, u, s, v, slotOf[v]) {
        assert !Clash(p, after, u, v);
      }
    }
  }

  /** Slot t is s itself or one that u overruns into from s. */
  lemma BookedExact(p: Problem, slotOf: seq<int>, u: int, s: int, t: int)
    requires Valid(p) && Assignment(p, slotOf) && IsUnit(p, u) && IsSlot(p, s) && IsSlot(p, t) && slotOf[u] != s
    requires p.units[u].exahm && (t == s || t in OverrunTargets(p, u, s))
    ensures Assignment(p, slotOf[u := s])
    ensures ExahmFits(p, slotOf, u, t) <==> BookedBeside(p, slotOf[u := s], t, Held(p, u, slotOf[u], t))
  {
    CounterAfterMove(p, slotOf, u, s, ExahmSeats, t);
    CounterAfterMove(p, slotOf, u, s, OverrunSeats, t);
    if t in OverrunTargets(p, u, s) { TargetsValid(p, u, s, t); }
  }

  /** Exact: u may move to s if and only if s is in its domain and, after the move, u clashes with
      nobody, the cap is kept and the bookings of s and of every slot u then overruns into cover all
      seats -- counting what u itself still held there before the move. */
  lemma FeasibleExact(p: Problem, slotOf: seq<int>, u: int, s: int)
    requires Valid(p) && Assignment(p, slotOf) && IsUnit(p, u) && IsSlot(p, s) && slotOf[u] != s
    ensures Assignment(p, slotOf[u := s])
    ensures var after := slotOf[u := s];
            Feasible(p, slotOf, u, s) <==>
            && Allows(p, u, s) && Clear(p, after, u) && CapKept(p, after, u, s)
            && (p.units[u].exahm ==> forall t :: t == s || t in OverrunTargets(p, u, s) ==> BookedBeside(p, after, t, Held(p, u, slotOf[u], t)))
  {
    CapExact(p, slotOf, u, s);
    ClearExact(p, slotOf, u, s);
    if p.units[u].exahm {
      forall t | t == s || t in OverrunTargets(p, u, s)
        ensures IsSlot(p, t) && (ExahmFits(p, slotOf, u, t) <==> BookedBeside(p, slotOf[u := s], t, Held(p, u, slotOf[u], t)))
      {
        if t != s { TargetsValid(p, u, s, t); }
        BookedExact(p, slotOf, u, s, t);
      }
    }
  }

  /** Placing an unplaced unit that has registrations: refused exactly when it would break a hard limit. */
  lemma PlacingExact(p: Problem, slotOf: seq<int>, u: int, s: int)
    requires Valid(p) && Assignment(p, slotOf) && IsUnit(p, u) && IsSlot(p, s) && slotOf[u] == -1 && p.units[u].seats > 0
    ensures Assignment(p, slotOf[u := s])
    ensures var after := slotOf[u := s];
            Feasible(p, slotOf, u, s) <==>
            && Allows(p, u, s) && Clear(p, after, u) && !OverSeats(p, after, s)
            && (p.units[u].exahm ==> forall t :: t == s || t in OverrunTargets(p, u, s) ==> IsSlot(p, t) && !OverRun(p, after, t))
  {
    FeasibleExact(p, slotOf, u, s);
    var after := slotOf[u := s];
    forall t | t == s || t in OverrunTargets(p, u, s)
      ensures BookedBeside(p, after, t, Held(p, u, slotOf[u], t)) <==> IsSlot(p, t) && !OverRun(p, after, t)
    {}
  }

  // ----- swaps -----

  lemma SwapCapExact(p: Problem, slotOf: seq<int>, u: int, v: int)
    requires Valid(p) && Assignment(p, slotOf) && IsUnit(p, u) && IsUnit(p, v) && u != v
    requires slotOf[u] >= 0 && slotOf[v] >= 0 && slotOf[u] != slotOf[v]
    ensures Assignment(p, Swapped(slotOf, u, v))
    ensures SwapSeatsFit(p, slotOf, u, v, slotOf[v]) <==> CapKept(p, Swapped(slotOf, u, v), u, slotOf[v])
  {
    var s := slotOf[v];
    var without := slotOf[v := slotOf[u]];
    assert Swapped(slotOf, u, v) == without[u := s];
    CounterAfterMove(p, slotOf, v, slotOf[u], AllSeats, s);
    CounterAfterMove(p, without, u, s, AllSeats, s);
    SeatUnitsMove(p, without, s, |slotOf|, u, s);
    LoadVersusUnits(p, without, s, |slotOf|);
  }

  lemma SwapClearExact(p: Problem, slotOf: seq<int>, u: int, v: int)
    requires Valid(p) && Assignment(p, slotOf) && IsUnit(p, u) && IsUnit(p, v) && u != v
    requires slotOf[u] >= 0 && slotOf[v] >= 0 && slotOf[u] != slotOf[v]
    ensures Assignment(p, Swapped(slotOf, u, v))
    ensures NoOverlapExcept(p, slotOf, u, slotOf[v], v) <==> ClearExcept(p, Swapped(slotOf, u, v), u, v)
  {
    var after := Swapped(slotOf, u, v);
    ConflictIrreflexive(p, u);
    forall w | Conflict(p, u, w) && w != v ensures after[w] == slotOf[w] {}
    if ClearExcept(p, after, u, v) {
      forall w | Conflict(p, u, w) && w != v && slotOf[w] >= 0 ensures !Overlaps(p, u, slotOf[v], w, slotOf[w]) {
        assert !Clash(p, after, u, w);
      }
    }
  }

  lemma SwapBookedExact(p: Problem, slotOf: seq<int>, u: int, v: int)
    requires Valid(p) && Assignment(p, slotOf) && IsUnit(p, u) && IsUnit(p, v) && u != v
    requires slotOf[u] >= 0 && slotOf[v] >= 0 && slotOf[u] != slotOf[v] && !MayOverrun(p, u) && !MayOverrun(p, v)
    ensures Assignment(p, Swapped(slotOf, u, v))
    ensures SwapExahmFits(p, slotOf, u, v, slotOf[v]) <==> (p.units[u].exahm ==> !OverRun(p, Swapped(slotOf, u, v), slotOf[v]))
  {
    var s := slotOf[v];
    CounterAfterSwap(p, slotOf, u, v, ExahmSeats, s);
    CounterAfterSwap(p, slotOf, u, v, OverrunSeats, s);
    NoTargets(p, u, slotOf[u]);
    NoTargets(p, u, s);
    NoTargets(p, v, slotOf[u]);
    NoTargets(p, v, s);
  }

  /** What u needs of its new slot after exchanging places with v. */
  ghost predicate Settled(p: Problem, after: seq<int>, u: int, v: int)
    requires Assignment(p, after) && IsUnit(p, u) && IsSlot(p, after[u])
  {
    && Allows(p, u, after[u]) && ClearExcept(p, after, u, v) && CapKept(p, after, u, after[u])
    && (p.units[u].exahm ==> !OverRun(p, after, after[u]))
  }

  /** Exact: two units may exchange their slots if and only if both are placed, in different slots,
      neither can overrun, and each is settled in its new one -- the pair itself being left out. */
  lemma SwapExact(p: Problem, slotOf: seq<int>, u: int, v: int)
    requires Valid(p) && Assignment(p, slotOf) && IsUnit(p, u) && IsUnit(p, v) && u != v
    ensures Assignment(p, Swapped(slotOf, u, v))
    ensures CanSwap(p, slotOf, u, v) <==>
            && slotOf[u] >= 0 && slotOf[v] >= 0 && slotOf[u] != slotOf[v]
            && !MayOverrun(p, u) && !MayOverrun(p, v)
            && Settled(p, Swapped(slotOf, u, v), u, v) && Settled(p, Swapped(slotOf, u, v), v, u)
  {
    if slotOf[u] >= 0 && slotOf[v] >= 0 && slotOf[u] != slotOf[v] {
      assert Swapped(slotOf, v, u) == Swapped(slotOf, u, v);
      SwapCapExact(p, slotOf, u, v);
      SwapCapExact(p, slotOf, v, u);
      SwapClearExact(p, slotOf, u, v);
      SwapClearExact(p, slotOf, v, u);
      if !MayOverrun(p, u) && !MayOverrun(p, v) {
        SwapBookedExact(p, slotOf, u, v);
        SwapBookedExact(p, slotOf, v, u);
      }
    }
  }
}
