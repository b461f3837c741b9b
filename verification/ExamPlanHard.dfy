/** Hard feasibility of the solver's two moves, judged on the assignment alone, and what the moves
    keep: no hard violation that was not there before. */
module ExamPlanHard {
  import opened ExamPlanProblem
  import opened ExamPlanLoads

  // ----- violations -----

  /** Two units that share a student and are not both fixed stand too close. */
  ghost predicate Clash(p: Problem, slotOf: seq<int>, u: int, v: int)
    requires Assignment(p, slotOf)
  {
    && Conflict(p, u, v) && slotOf[u] >= 0 && slotOf[v] >= 0
    && Overlaps(p, u, slotOf[u], v, slotOf[v])
  }

  ghost predicate ClashFree(p: Problem, slotOf: seq<int>)
    requires Assignment(p, slotOf)
  {
    forall u, v :: !Clash(p, slotOf, u, v)
  }

  /** Over the general seat cap with at least two seat-consuming units: a single exam may exceed it. */
  ghost predicate OverSeats(p: Problem, slotOf: seq<int>, s: int)
    requires Assignment(p, slotOf) && IsSlot(p, s)
  {
    p.slots[s].seats > 0 && Load(p, AllSeats, slotOf, s) > p.slots[s].seats && SeatUnits(p, slotOf, s) >= 2
  }

  /** EXaHM seats placed in the slot exceed the booked ones. */
  ghost predicate OverBooked(p: Problem, slotOf: seq<int>, s: int)
    requires Assignment(p, slotOf) && IsSlot(p, s)
  {
    Load(p, ExahmSeats, slotOf, s) > p.slots[s].exahmSeats
  }

  /** ... counting the units that overrun into the slot as well. */
  ghost predicate OverRun(p: Problem, slotOf: seq<int>, s: int)
    requires Assignment(p, slotOf) && IsSlot(p, s)
  {
    Load(p, ExahmSeats, slotOf, s) + Load(p, OverrunSeats, slotOf, s) > p.slots[s].exahmSeats
  }

  ghost predicate NoNewClash(p: Problem, before: seq<int>, after: seq<int>)
    requires Assignment(p, before) && Assignment(p, after)
  {
    forall u, v :: Clash(p, after, u, v) ==> Clash(p, before, u, v)
  }

  ghost predicate SlotNotWorse(p: Problem, before: seq<int>, after: seq<int>, s: int)
    requires Assignment(p, before) && Assignment(p, after) && IsSlot(p, s)
  {
    && (OverSeats(p, after, s) ==> OverSeats(p, before, s))
    && (OverBooked(p, after, s) ==> OverBooked(p, before, s))
    && (OverRun(p, after, s) ==> OverRun(p, before, s))
  }

  /** Fixed units stay, and a unit only ever enters slots of its domain. */
  ghost predicate UnitKept(p: Problem, before: seq<int>, after: seq<int>, u: int)
    requires Assignment(p, before) && Assignment(p, after) && IsUnit(p, u)
  {
    after[u] == before[u] || (!p.units[u].fixed && (after[u] >= 0 ==> Allows(p, u, after[u])))
  }

  ghost predicate NoNewCapacity(p: Problem, before: seq<int>, after: seq<int>)
    requires Assignment(p, before) && Assignment(p, after)
  {
    && (forall s :: IsSlot(p, s) ==> SlotNotWorse(p, before, after, s))
    && (forall u :: IsUnit(p, u) ==> UnitKept(p, before, after, u))
  }

  lemma NoNewTrans(p: Problem, a: seq<int>, b: seq<int>, c: seq<int>)
    requires Assignment(p, a) && Assignment(p, b) && Assignment(p, c)
    ensures NoNewCapacity(p, a, b) && NoNewCapacity(p, b, c) ==> NoNewCapacity(p, a, c)
    ensures NoNewClash(p, a, b) && NoNewClash(p, b, c) ==> NoNewClash(p, a, c)
  {
    if NoNewCapacity(p, a, b) && NoNewCapacity(p, b, c) {
      forall s | IsSlot(p, s) ensures SlotNotWorse(p, a, c, s) {
        assert SlotNotWorse(p, a, b, s) && SlotNotWorse(p, b, c, s);
      }
      forall u | IsUnit(p, u) ensures UnitKept(p, a, c, u) {
        assert UnitKept(p, a, b, u) && UnitKept(p, b, c, u);
      }
    }
  }

  // ----- relocate -----

  ghost predicate NoOverlapAt(p: Problem, slotOf: seq<int>, u: int, s: int)
    requires Assignment(p, slotOf) && IsUnit(p, u) && IsSlot(p, s)
  {
    forall v :: Conflict(p, u, v) && slotOf[v] >= 0 ==> !Overlaps(p, u, s, v, slotOf[v])
  }

  /** The cap only limits combining exams: an empty slot takes a unit of any size. */
  ghost predicate SeatsFit(p: Problem, slotOf: seq<int>, u: int, s: int)
    requires Assignment(p, slotOf) && IsUnit(p, u) && IsSlot(p, s)
  {
    var load := Load(p, AllSeats, slotOf, s);
    !(p.slots[s].seats > 0 && load > 0 && load + p.units[u].seats > p.slots[s].seats)
  }

  ghost predicate ExahmFits(p: Problem, slotOf: seq<int>, u: int, t: int)
    requires Assignment(p, slotOf) && IsUnit(p, u) && IsSlot(p, t)
  {
    Load(p, ExahmSeats, slotOf, t) + Load(p, OverrunSeats, slotOf, t) + p.units[u].seats <= p.slots[t].exahmSeats
  }

  /** Unit u may move to slot s. */
  ghost predicate Feasible(p: Problem, slotOf: seq<int>, u: int, s: int)
    requires Valid(p) && Assignment(p, slotOf) && IsUnit(p, u) && IsSlot(p, s)
  {
    && Allows(p, u, s)
    && NoOverlapAt(p, slotOf, u, s)
    && SeatsFit(p, slotOf, u, s)
    && (p.units[u].exahm ==> ExahmFits(p, slotOf, u, s))
    && (p.units[u].exahm ==> forall t :: t in OverrunTargets(p, u, s) ==> IsSlot(p, t) && ExahmFits(p, slotOf, u, t))
  }

  /** One unit's move changes each counter by the difference of its shares. */
  lemma CounterAfterMove(p: Problem, slotOf: seq<int>, u: int, x: int, c: Counter, s: int)
    requires Assignment(p, slotOf) && IsUnit(p, u)
    ensures Load(p, c, slotOf[u := x], s) == Load(p, c, slotOf, s) + Share(p, c, u, x, s) - Share(p, c, u, slotOf[u], s)
  {
    LoadMoves(p, c, slotOf, s, |slotOf|, u, x);
  }

  lemma TargetsValid(p: Problem, u: int, s: int, t: int)
    requires Valid(p) && t in OverrunTargets(p, u, s)
    ensures IsSlot(p, t) && t != s
  {
    assert ValidTargets(p, (u, s), p.overrun[(u, s)]);
  }

  lemma RelocateSlot(p: Problem, slotOf: seq<int>, u: int, x: int, s: int)
    requires Valid(p) && Assignment(p, slotOf) && Movable(p, u) && IsSlot(p, x) && slotOf[u] != x && IsSlot(p, s)
    requires Feasible(p, slotOf, u, x)
    ensures Assignment(p, slotOf[u := x]) && SlotNotWorse(p, slotOf, slotOf[u := x], s)
  {
    var after := slotOf[u := x];
    CounterAfterMove(p, slotOf, u, x, AllSeats, s);
    CounterAfterMove(p, slotOf, u, x, ExahmSeats, s);
    CounterAfterMove(p, slotOf, u, x, OverrunSeats, s);
    SeatUnitsMove(p, slotOf, s, |slotOf|, u, x);
    LoadVersusUnits(p, slotOf, s, |slotOf|);
    CountersNonNegative(p, slotOf, s, |slotOf|);
    CountersNonNegative(p, after, s, |slotOf|);
    if s in OverrunTargets(p, u, x) { TargetsValid(p, u, x, s); }
  }

  lemma {:induction false} CountersNonNegative(p: Problem, slotOf: seq<int>, s: int, n: nat)
    requires Valid(p) && |slotOf| == |p.units| && n <= |slotOf|
    ensures 0 <= LoadOf(p, ExahmSeats, slotOf, s, n) && 0 <= LoadOf(p, OverrunSeats, slotOf, s, n)
  {
    if n > 0 {
      assert IsUnit(p, n - 1);
      CountersNonNegative(p, slotOf, s, n - 1);
    }
  }

  /** A feasible relocation adds no hard violation of any kind. */
  lemma RelocateKeepsHard(p: Problem, slotOf: seq<int>, u: int, x: int)
    requires Valid(p) && Assignment(p, slotOf) && Movable(p, u) && IsSlot(p, x) && slotOf[u] != x
    requires Feasible(p, slotOf, u, x)
    ensures Assignment(p, slotOf[u := x])
    ensures NoNewClash(p, slotOf, slotOf[u := x]) && NoNewCapacity(p, slotOf, slotOf[u := x])
  {
    var after := slotOf[u := x];
    forall s | IsSlot(p, s) ensures SlotNotWorse(p, slotOf, after, s) {
      RelocateSlot(p, slotOf, u, x, s);
    }
    ConflictIrreflexive(p, u);
    forall a, b | Clash(p, after, a, b) ensures Clash(p, slotOf, a, b) {
      ConflictSym(p, a, b);
      OverlapsSym(p, a, after[a], b, after[b]);
      if a == u {
        RelocatedClear(p, slotOf, u, x, b);
      } else if b == u {
        RelocatedClear(p, slotOf, u, x, a);
      }
    }
  }

  lemma RelocatedClear(p: Problem, slotOf: seq<int>, u: int, x: int, b: int)
    requires Valid(p) && Assignment(p, slotOf) && IsUnit(p, u) && IsSlot(p, x) && Feasible(p, slotOf, u, x)
    requires Conflict(p, u, b) && slotOf[b] >= 0
    ensures !Overlaps(p, u, x, b, slotOf[b])
  {}

  // ----- swap -----

  function Swapped(slotOf: seq<int>, u: int, v: int): seq<int>
    requires 0 <= u < |slotOf| && 0 <= v < |slotOf|
  {
    slotOf[u := slotOf[v]][v := slotOf[u]]
  }

  /** No partner of u other than v overlaps u in slot s. */
  ghost predicate NoOverlapExcept(p: Problem, slotOf: seq<int>, u: int, s: int, v: int)
    requires Assignment(p, slotOf) && IsUnit(p, u) && IsSlot(p, s)
  {
    forall w :: Conflict(p, u, w) && w != v && slotOf[w] >= 0 ==> !Overlaps(p, u, s, w, slotOf[w])
  }

  /** Unit u takes v's place in slot s: the cap binds only if others keep seats there. */
  ghost predicate SwapSeatsFit(p: Problem, slotOf: seq<int>, u: int, v: int, s: int)
    requires Assignment(p, slotOf) && IsUnit(p, u) && IsUnit(p, v) && IsSlot(p, s)
  {
    var load := Load(p, AllSeats, slotOf, s);
    !(p.slots[s].seats > 0 && load != p.units[v].seats && load - p.units[v].seats + p.units[u].seats > p.slots[s].seats)
  }

  ghost predicate SwapExahmFits(p: Problem, slotOf: seq<int>, u: int, v: int, s: int)
    requires Assignment(p, slotOf) && IsUnit(p, u) && IsUnit(p, v) && IsSlot(p, s)
  {
    p.units[u].exahm ==>
      Load(p, ExahmSeats, slotOf, s) + Load(p, OverrunSeats, slotOf, s)
        - (if p.units[v].exahm then p.units[v].seats else 0) + p.units[u].seats <= p.slots[s].exahmSeats
  }

  /** Units u and v may exchange their slots, as the code checks it. */
  ghost predicate CanSwap(p: Problem, slotOf: seq<int>, u: int, v: int)
    requires Valid(p) && Assignment(p, slotOf) && IsUnit(p, u) && IsUnit(p, v)
  {
    && slotOf[u] >= 0 && slotOf[v] >= 0 && slotOf[u] != slotOf[v]
    && Allows(p, u, slotOf[v]) && Allows(p, v, slotOf[u])
    && NoOverlapExcept(p, slotOf, u, slotOf[v], v) && NoOverlapExcept(p, slotOf, v, slotOf[u], u)
    && SwapSeatsFit(p, slotOf, u, v, slotOf[v]) && SwapSeatsFit(p, slotOf, v, u, slotOf[u])
    && !MayOverrun(p, u) && !MayOverrun(p, v)
    && SwapExahmFits(p, slotOf, u, v, slotOf[v]) && SwapExahmFits(p, slotOf, v, u, slotOf[u])
  }

  lemma CounterAfterSwap(p: Problem, slotOf: seq<int>, u: int, v: int, c: Counter, s: int)
    requires Assignment(p, slotOf) && IsUnit(p, u) && IsUnit(p, v) && u != v
    ensures Load(p, c, Swapped(slotOf, u, v), s) == Load(p, c, slotOf, s)
              + Share(p, c, u, slotOf[v], s) - Share(p, c, u, slotOf[u], s)
              + Share(p, c, v, slotOf[u], s) - Share(p, c, v, slotOf[v], s)
  {
    LoadMoves(p, c, slotOf, s, |slotOf|, u, slotOf[v]);
    LoadMoves(p, c, slotOf[u := slotOf[v]], s, |slotOf|, v, slotOf[u]);
  }

  lemma TargetsMeanOverrun(p: Problem, u: int, s: int)
    ensures OverrunTargets(p, u, s) != [] ==> MayOverrun(p, u)
  {
    var k := (u, s);
    if k in p.overrun { assert k.0 == u; }
  }

  lemma NoTargets(p: Problem, u: int, s: int)
    requires !MayOverrun(p, u)
    ensures OverrunTargets(p, u, s) == []
  {
    TargetsMeanOverrun(p, u, s);
  }

  /** The destination of u after a swap with v; by symmetry also v's. */
  lemma SwapDestination(p: Problem, slotOf: seq<int>, u: int, v: int)
    requires Valid(p) && Assignment(p, slotOf) && IsUnit(p, u) && IsUnit(p, v) && u != v && CanSwap(p, slotOf, u, v)
    ensures Assignment(p, Swapped(slotOf, u, v))
    ensures SlotNotWorse(p, slotOf, Swapped(slotOf, u, v), slotOf[v])
  {
    var s, after := slotOf[v], Swapped(slotOf, u, v);
    CounterAfterSwap(p, slotOf, u, v, AllSeats, s);
    CounterAfterSwap(p, slotOf, u, v, ExahmSeats, s);
    CounterAfterSwap(p, slotOf, u, v, OverrunSeats, s);
    NoTargets(p, u, slotOf[u]);
    NoTargets(p, u, s);
    NoTargets(p, v, slotOf[u]);
    NoTargets(p, v, s);
    CountersNonNegative(p, after, s, |after|);
    if Load(p, AllSeats, slotOf, s) == p.units[v].seats {
      AloneInSlot(p, after, s, |after|, u);
    }
  }

  lemma SwapElsewhere(p: Problem, slotOf: seq<int>, u: int, v: int, s: int)
    requires Valid(p) && Assignment(p, slotOf) && IsUnit(p, u) && IsUnit(p, v) && u != v && CanSwap(p, slotOf, u, v)
    requires IsSlot(p, s) && s != slotOf[u] && s != slotOf[v]
    ensures Assignment(p, Swapped(slotOf, u, v)) && SlotNotWorse(p, slotOf, Swapped(slotOf, u, v), s)
  {
    CounterAfterSwap(p, slotOf, u, v, AllSeats, s);
    CounterAfterSwap(p, slotOf, u, v, ExahmSeats, s);
    CounterAfterSwap(p, slotOf, u, v, OverrunSeats, s);
    SeatUnitsMove(p, slotOf, s, |slotOf|, u, slotOf[v]);
    SeatUnitsMove(p, slotOf[u := slotOf[v]], s, |slotOf|, v, slotOf[u]);
    NoTargets(p, u, slotOf[u]);
    NoTargets(p, u, slotOf[v]);
    NoTargets(p, v, slotOf[u]);
    NoTargets(p, v, slotOf[v]);
  }

  /** A permitted swap never adds a capacity, domain or fixed-unit violation. */
  lemma SwapKeepsCapacity(p: Problem, slotOf: seq<int>, u: int, v: int)
    requires Valid(p) && Assignment(p, slotOf) && Movable(p, u) && Movable(p, v) && u != v && CanSwap(p, slotOf, u, v)
    ensures Assignment(p, Swapped(slotOf, u, v)) && NoNewCapacity(p, slotOf, Swapped(slotOf, u, v))
  {
    var after := Swapped(slotOf, u, v);
    SwapDestination(p, slotOf, u, v);
    SwapSymmetric(p, slotOf, u, v);
    SwapDestination(p, slotOf, v, u);
    forall s | IsSlot(p, s) ensures SlotNotWorse(p, slotOf, after, s) {
      if s != slotOf[u] && s != slotOf[v] { SwapElsewhere(p, slotOf, u, v, s); }
    }
  }

  lemma SwapSymmetric(p: Problem, slotOf: seq<int>, u: int, v: int)
    requires Valid(p) && Assignment(p, slotOf) && IsUnit(p, u) && IsUnit(p, v) && u != v && CanSwap(p, slotOf, u, v)
    ensures CanSwap(p, slotOf, v, u) && Swapped(slotOf, v, u) == Swapped(slotOf, u, v)
  {}

  /** Exact: a permitted swap adds no student clash if and only if the two swapped units themselves
      do not overlap in their new slots -- the one pair the check leaves out. */
  lemma SwapClashExact(p: Problem, slotOf: seq<int>, u: int, v: int)
    requires Valid(p) && Assignment(p, slotOf) && Movable(p, u) && Movable(p, v) && u != v && CanSwap(p, slotOf, u, v)
    requires !Clash(p, slotOf, u, v)
    ensures Assignment(p, Swapped(slotOf, u, v))
    ensures NoNewClash(p, slotOf, Swapped(slotOf, u, v)) <==> !(Conflict(p, u, v) && Overlaps(p, u, slotOf[v], v, slotOf[u]))
  {
    var after := Swapped(slotOf, u, v);
    if Conflict(p, u, v) && Overlaps(p, u, slotOf[v], v, slotOf[u]) {
      assert Clash(p, after, u, v);
    } else {
      SwapClashes(p, slotOf, u, v);
    }
  }

  lemma SwapClashes(p: Problem, slotOf: seq<int>, u: int, v: int)
    requires Valid(p) && Assignment(p, slotOf) && IsUnit(p, u) && IsUnit(p, v) && u != v && CanSwap(p, slotOf, u, v)
    requires !(Conflict(p, u, v) && Overlaps(p, u, slotOf[v], v, slotOf[u]))
    ensures Assignment(p, Swapped(slotOf, u, v)) && NoNewClash(p, slotOf, Swapped(slotOf, u, v))
  {
    forall a, b | Clash(p, Swapped(slotOf, u, v), a, b) ensures Clash(p, slotOf, a, b) {
      SwapClash(p, slotOf, u, v, a, b);
    }
  }

  lemma SwapClash(p: Problem, slotOf: seq<int>, u: int, v: int, a: int, b: int)
    requires Valid(p) && Assignment(p, slotOf) && IsUnit(p, u) && IsUnit(p, v) && u != v && CanSwap(p, slotOf, u, v)
    requires Assignment(p, Swapped(slotOf, u, v)) && Clash(p, Swapped(slotOf, u, v), a, b)
    requires !(Conflict(p, u, v) && Overlaps(p, u, slotOf[v], v, slotOf[u]))
    ensures Clash(p, slotOf, a, b)
  {
    var after := Swapped(slotOf, u, v);
    ConflictSym(p, a, b);
    OverlapsSym(p, a, after[a], b, after[b]);
    ConflictIrreflexive(p, a);
    var aMoved, bMoved := a == u || a == v, b == u || b == v;
    if aMoved && !bMoved {
      MovedUnitClear(p, slotOf, u, v, a, b);
    } else if bMoved && !aMoved {
      MovedUnitClear(p, slotOf, u, v, b, a);
    }
  }

  lemma MovedUnitClear(p: Problem, slotOf: seq<int>, u: int, v: int, a: int, b: int)
    requires Valid(p) && Assignment(p, slotOf) && IsUnit(p, u) && IsUnit(p, v) && u != v && CanSwap(p, slotOf, u, v)
    requires (a == u || a == v) && b != u && b != v && Conflict(p, a, b) && slotOf[b] >= 0
    ensures !Overlaps(p, a, Swapped(slotOf, u, v)[a], b, slotOf[b])
  {}

  /** With one separation per pair, a swap of conflicting units keeps their distance. */
  lemma SymmetricSeparationSafe(p: Problem, slotOf: seq<int>, u: int, v: int)
    requires Valid(p) && Assignment(p, slotOf) && Movable(p, u) && Movable(p, v) && u != v && CanSwap(p, slotOf, u, v)
    requires !Clash(p, slotOf, u, v) && SepMinutes(p, u, v) == SepMinutes(p, v, u)
    ensures Assignment(p, Swapped(slotOf, u, v)) && NoNewClash(p, slotOf, Swapped(slotOf, u, v))
  {
    SwapClashExact(p, slotOf, u, v);
  }
}
