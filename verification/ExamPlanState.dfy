/** The solver's mutable state: the assignment, the per-slot seat counters and the incrementally
    maintained soft totals. Every move keeps them equal to the recomputed objective, its undo
    restores the state bit for bit, and annealing ends at the best state it visited. */
module ExamPlanState {
  import opened ExamPlanProblem
  import opened ExamPlanLoads
  import opened ExamPlanHard
  import opened ExamPlanCost
  import opened ExamPlanTerms

  /** The five seat counters, one entry per slot each. */
  datatype Counters = Counters(all: seq<int>, own: seq<int>, exahm: seq<int>, seb: seq<int>, overrun: seq<int>)

  /** The running soft totals. */
  datatype Totals = Totals(spread: real, attract: real, load: real, fill: real, hole: real, time: real, unplaced: int)

  /** All fields of the state as one value: what Snapshot copies. */
  datatype Image = Image(slotOf: seq<int>, counters: Counters, pS: seq<real>, totals: Totals)

  /** What a move saves so that it can be taken back. */
  datatype Undo = Undo(u: int, from: int, affected: seq<int>, savedPS: seq<real>, totals: Totals)

  /** A counter agrees with the assignment. */
  ghost predicate Counts(p: Problem, c: Counter, slotOf: seq<int>, counter: seq<int>)
    requires Assignment(p, slotOf)
  {
    |counter| == |p.slots| && forall s :: IsSlot(p, s) ==> counter[s] == Load(p, c, slotOf, s)
  }

  ghost predicate Counted(p: Problem, slotOf: seq<int>, c: Counters) {
    && Assignment(p, slotOf)
    && Counts(p, AllSeats, slotOf, c.all) && Counts(p, OwnSeats, slotOf, c.own)
    && Counts(p, ExahmSeats, slotOf, c.exahm) && Counts(p, SebSeats, slotOf, c.seb)
    && Counts(p, OverrunSeats, slotOf, c.overrun)
  }

  /** The totals recomputed from the assignment, around a given spread. */
  ghost function TotalsOf(p: Problem, slotOf: seq<int>, spread: real): Totals
    requires Valid(p) && Assignment(p, slotOf)
  {
    Totals(spread, AttractOver(p, slotOf, p.attract),
           SlotsTotal(p, LoadTerm, slotOf, |p.slots|), SlotsTotal(p, FillTerm, slotOf, |p.slots|),
           HoleCost(p, HolesTotal(p, slotOf, |p.days|)), TimeTotal(p, slotOf, |slotOf|), Unplaced(p, slotOf, |slotOf|))
  }

  /** Counters, penalties and totals all agree with the assignment. */
  ghost predicate Exact(p: Problem, i: Image)
    requires Valid(p)
  {
    Counted(p, i.slotOf, i.counters) && i.pS == Penalties(p, i.slotOf) && i.totals == TotalsOf(p, i.slotOf, SpreadOver(p, i.pS))
  }

  function CostOf(p: Problem, t: Totals): real {
    t.spread + t.attract + t.load + t.fill + t.hole + t.time + UnplacedCost(p, t.unplaced)
  }

  /** The maintained objective is the recomputed one. */
  lemma CostExact(p: Problem, i: Image)
    requires Valid(p) && Exact(p, i)
    ensures CostOf(p, i.totals) == FullCost(p, i.slotOf)
  {}

  /** The undo record belongs to a move made in state before. */
  ghost predicate UndoFor(p: Problem, undo: Undo, before: Image) {
    && Movable(p, undo.u) && |before.slotOf| == |p.units| && |p.unitStudents| == |p.units|
    && undo.from == before.slotOf[undo.u] && undo.totals == before.totals
    && undo.affected == p.unitStudents[undo.u] && |undo.savedPS| == |undo.affected|
    && forall k :: 0 <= k < |undo.affected| ==> 0 <= undo.affected[k] < |before.pS| && undo.savedPS[k] == before.pS[undo.affected[k]]
  }

  // ----- counters under one move -----

  /** Whether a unit counts towards a counter of its own slot. */
  predicate CountsFor(unit: PlanUnit, c: Counter) {
    match c
    case AllSeats => true
    case OwnSeats => !unit.foreign
    case ExahmSeats => unit.exahm
    case SebSeats => unit.seb
    case OverrunSeats => false
  }

  function Bump(counter: seq<int>, s: int, on: bool, d: int): seq<int>
    requires 0 <= s < |counter|
  {
    if on then counter[s := counter[s] + d] else counter
  }

  lemma LeaveCounts(p: Problem, c: Counter, slotOf: seq<int>, counter: seq<int>, u: int)
    requires Assignment(p, slotOf) && Counts(p, c, slotOf, counter) && IsUnit(p, u) && slotOf[u] >= 0 && c != OverrunSeats
    ensures Counts(p, c, slotOf[u := -1], Bump(counter, slotOf[u], CountsFor(p.units[u], c), -p.units[u].seats))
  {
    forall s | IsSlot(p, s)
      ensures Bump(counter, slotOf[u], CountsFor(p.units[u], c), -p.units[u].seats)[s] == Load(p, c, slotOf[u := -1], s)
    {
      LoadMoves(p, c, slotOf, s, |slotOf|, u, -1);
    }
  }

  lemma EnterCounts(p: Problem, c: Counter, slotOf: seq<int>, counter: seq<int>, u: int, x: int)
    requires Assignment(p, slotOf) && Counts(p, c, slotOf, counter) && IsUnit(p, u) && slotOf[u] == -1 && IsSlot(p, x) && c != OverrunSeats
    ensures Counts(p, c, slotOf[u := x], Bump(counter, x, CountsFor(p.units[u], c), p.units[u].seats))
  {
    forall s | IsSlot(p, s)
      ensures Bump(counter, x, CountsFor(p.units[u], c), p.units[u].seats)[s] == Load(p, c, slotOf[u := x], s)
    {
      LoadMoves(p, c, slotOf, s, |slotOf|, u, x);
    }
  }

  lemma OverrunMoves(p: Problem, slotOf: seq<int>, counter: seq<int>, counter': seq<int>, u: int, x: int)
    requires Assignment(p, slotOf) && Counts(p, OverrunSeats, slotOf, counter) && IsUnit(p, u) && -1 <= x < |p.slots| && |counter'| == |counter|
    requires forall s :: IsSlot(p, s) ==> counter'[s] == counter[s] + Share(p, OverrunSeats, u, x, s) - Share(p, OverrunSeats, u, slotOf[u], s)
    ensures Counts(p, OverrunSeats, slotOf[u := x], counter')
  {
    forall s | IsSlot(p, s) ensures counter'[s] == Load(p, OverrunSeats, slotOf[u := x], s) {
      LoadMoves(p, OverrunSeats, slotOf, s, |slotOf|, u, x);
    }
  }

  /** Adds d to the counter of every overrun target. */
  method AddToTargets(counter: seq<int>, targets: seq<int>, d: int) returns (r: seq<int>)
    requires Increasing(targets) && forall t :: t in targets ==> 0 <= t < |counter|
    ensures |r| == |counter| && forall s :: 0 <= s < |r| ==> r[s] == counter[s] + (if s in targets then d else 0)
  {
    r := counter;
    for i := 0 to |targets|
      invariant |r| == |counter|
      invariant forall s :: 0 <= s < |r| ==> r[s] == counter[s] + (if s in targets[..i] then d else 0)
    {
      var t := targets[i];
      assert t in targets && targets[..i + 1] == targets[..i] + [t];
      assert t !in targets[..i];
      r := r[t := r[t] + d];
    }
    assert targets[..|targets|] == targets;
  }

  /** Equal assignments have equal counters. */
  lemma CountsUnique(p: Problem, c: Counter, slotOf: seq<int>, a: seq<int>, b: seq<int>)
    requires Assignment(p, slotOf) && Counts(p, c, slotOf, a) && Counts(p, c, slotOf, b)
    ensures a == b
  {}

  lemma CountersUnique(p: Problem, slotOf: seq<int>, a: Counters, b: Counters)
    requires Counted(p, slotOf, a) && Counted(p, slotOf, b)
    ensures a == b
  {
    CountsUnique(p, AllSeats, slotOf, a.all, b.all);
    CountsUnique(p, OwnSeats, slotOf, a.own, b.own);
    CountsUnique(p, ExahmSeats, slotOf, a.exahm, b.exahm);
    CountsUnique(p, SebSeats, slotOf, a.seb, b.seb);
    CountsUnique(p, OverrunSeats, slotOf, a.overrun, b.overrun);
  }

  /** Takes u, sitting in slotOf[u], out of the counters. */
  method LeaveSlot(p: Problem, slotOf: seq<int>, c: Counters, u: int) returns (r: Counters)
    requires Valid(p) && Counted(p, slotOf, c) && IsUnit(p, u) && slotOf[u] >= 0
    ensures Counted(p, slotOf[u := -1], r)
  {
    var unit, s := p.units[u], slotOf[u];
    LeaveCounts(p, AllSeats, slotOf, c.all, u);
    LeaveCounts(p, OwnSeats, slotOf, c.own, u);
    LeaveCounts(p, ExahmSeats, slotOf, c.exahm, u);
    LeaveCounts(p, SebSeats, slotOf, c.seb, u);
    var over := c.overrun;
    if unit.exahm {
      assert (u, s) in p.overrun ==> ValidTargets(p, (u, s), p.overrun[(u, s)]);
      over := AddToTargets(c.overrun, OverrunTargets(p, u, s), -unit.seats);
    }
    OverrunMoves(p, slotOf, c.overrun, over, u, -1);
    r := Counters(Bump(c.all, s, true, -unit.seats), Bump(c.own, s, !unit.foreign, -unit.seats),
                  Bump(c.exahm, s, unit.exahm, -unit.seats), Bump(c.seb, s, unit.seb, -unit.seats), over);
  }

  /** Adds the unplaced u to the counters of slot s. */
  method EnterSlot(p: Problem, slotOf: seq<int>, c: Counters, u: int, s: int) returns (r: Counters)
    requires Valid(p) && Counted(p, slotOf, c) && IsUnit(p, u) && slotOf[u] == -1 && IsSlot(p, s)
    ensures Counted(p, slotOf[u := s], r)
  {
    var unit := p.units[u];
    EnterCounts(p, AllSeats, slotOf, c.all, u, s);
    EnterCounts(p, OwnSeats, slotOf, c.own, u, s);
    EnterCounts(p, ExahmSeats, slotOf, c.exahm, u, s);
    EnterCounts(p, SebSeats, slotOf, c.seb, u, s);
    var over := c.overrun;
    if unit.exahm {
      assert (u, s) in p.overrun ==> ValidTargets(p, (u, s), p.overrun[(u, s)]);
      over := AddToTargets(c.overrun, OverrunTargets(p, u, s), unit.seats);
    }
    OverrunMoves(p, slotOf, c.overrun, over, u, s);
    r := Counters(Bump(c.all, s, true, unit.seats), Bump(c.own, s, !unit.foreign, unit.seats),
                  Bump(c.exahm, s, unit.exahm, unit.seats), Bump(c.seb, s, unit.seb, unit.seats), over);
  }

  class State {
    const p: Problem
    var slotOf: seq<int>
    var counters: Counters
    var pS: seq<real>
    var totals: Totals

    function Snapshot(): Image
      reads this
    {
      Image(slotOf, counters, pS, totals)
    }

    method Restore(i: Image)
      modifies this
      ensures Snapshot() == i
    {
      slotOf, counters, pS, totals := i.slotOf, i.counters, i.pS, i.totals;
    }

    /** Moves u to slot s (-1 unplaces it), updating the assignment and the counters only. */
    method SetPhysical(u: int, s: int)
      requires Valid(p) && Counted(p, slotOf, counters) && IsUnit(p, u) && -1 <= s < |p.slots|
      modifies `slotOf, `counters
      ensures Counted(p, slotOf, counters) && slotOf == old(slotOf)[u := s]
    {
      if slotOf[u] >= 0 {
        counters := LeaveSlot(p, slotOf, counters, u);
        slotOf := slotOf[u := -1];
      }
      if s >= 0 {
        counters := EnterSlot(p, slotOf, counters, u, s);
        slotOf := slotOf[u := s];
      }
    }

    /** Only the fixed units are placed. */
    constructor (p: Problem)
      requires Valid(p)
      ensures this.p == p && Counted(p, slotOf, counters)
      ensures forall u :: IsUnit(p, u) ==> slotOf[u] == if p.units[u].fixed then p.units[u].fixedSlot else -1
    {
      this.p := p;
      slotOf := seq(|p.units|, _ => -1);
      var zeros := seq(|p.slots|, _ => 0);
      counters := Counters(zeros, zeros, zeros, zeros, zeros);
      pS := seq(|p.students|, _ => 0.0);
      totals := Totals(0.0, 0.0, 0.0, 0.0, 0.0, 0.0, 0);
      new;
      EmptyCounted(p, slotOf, counters);
      for u := 0 to |p.units|
        invariant this.p == p && Counted(p, slotOf, counters)
        invariant forall v :: 0 <= v < u ==> slotOf[v] == if p.units[v].fixed then p.units[v].fixedSlot else -1
        invariant forall v :: u <= v < |p.units| ==> slotOf[v] == -1
      {
        assert IsUnit(p, u);
        if p.units[u].fixed { SetPhysical(u, p.units[u].fixedSlot); }
      }
    }

    /** The touched terms of the objective around one move of u between slots s1 and s2. */
    method TouchedTerms(u: int, s1: int, s2: int) returns (t: Touched)
      requires Valid(p) && Counted(p, slotOf, counters) && IsUnit(p, u) && -1 <= s1 < |p.slots| && -1 <= s2 < |p.slots|
      ensures t == TouchedOf(p, slotOf, u, s1, s2)
    {
      var load, fill := SlotTerms(p, slotOf, counters.all, counters.exahm, counters.seb, s1, s2);
      assert counters.own == OwnLoads(p, slotOf);
      var hole := HoleOfDays(p, slotOf, counters.own, DayOf(p, s1), DayOf(p, s2));
      RefsAreUnits(p, p.attract, u);
      var att := AttractCostOfUnit(p, slotOf, u, p.unitAttract[u]);
      t := Touched(load, fill, hole, att);
    }

    /** Moves u, updating every total by the terms the move touches. */
    method MoveUnit(u: int, newSlot: int) returns (undo: Undo)
      requires Valid(p) && Exact(p, Snapshot()) && Movable(p, u) && -1 <= newSlot < |p.slots| && newSlot != slotOf[u]
      modifies this
      ensures Exact(p, Snapshot()) && slotOf == old(slotOf)[u := newSlot]
      ensures undo.u == u && UndoFor(p, undo, old(Snapshot()))
    {
      var from := slotOf[u];
      ghost var before := slotOf;
      undo := SaveFor(u);
      var t0 := TouchedTerms(u, from, newSlot);
      SetPhysical(u, newSlot);
      var t1 := TouchedTerms(u, from, newSlot);
      ShiftedExact(p, before, u, newSlot, totals.spread);
      totals := Shifted(p, totals, u, from, newSlot, t0, t1);
      var newPS, spread := RecomputeStudents(p, before, u, newSlot, slotOf, pS, totals.spread);
      pS, totals := newPS, totals.(spread := spread);
    }

    /** The record that takes the next move of u back. */
    method SaveFor(u: int) returns (undo: Undo)
      requires Valid(p) && Exact(p, Snapshot()) && Movable(p, u)
      ensures undo.u == u && UndoFor(p, undo, Snapshot())
    {
      var affected := p.unitStudents[u];
      assert StudentList(p, u, affected);
      forall i | 0 <= i < |affected| ensures 0 <= affected[i] < |pS| {
        var si := affected[i];
        assert si in affected;
      }
      var penalties := pS;
      var saved := seq(|affected|, i requires 0 <= i < |affected| && 0 <= affected[i] < |penalties| => penalties[affected[i]]);
      undo := Undo(u, slotOf[u], affected, saved, totals);
    }

    /** Takes a move back: every field is again what it was; totals and penalties are copied back. */
    method TakeBack(undo: Undo, ghost before: Image)
      requires Valid(p) && Exact(p, before) && Exact(p, Snapshot()) && UndoFor(p, undo, before)
      requires slotOf == before.slotOf[undo.u := slotOf[undo.u]]
      modifies this
      ensures Snapshot() == before
    {
      pS := RestorePenalties(p, undo, pS, before, slotOf);
      SetPhysical(undo.u, undo.from);
      assert slotOf == before.slotOf;
      CountersUnique(p, slotOf, counters, before.counters);
      totals := undo.totals;
    }

    /** Cost totals and penalties from scratch, once after the constructive start. */
    method InitCost()
      requires Valid(p) && Counted(p, slotOf, counters)
      modifies `pS, `totals
      ensures Exact(p, Snapshot())
    {
      pS := FreshPenalties(p, slotOf);
      totals := FreshTotals(p, slotOf, counters, pS);
    }

    /** Whether u may move to s: domain, no overlapping partner, seat cap, EXaHM seats of s and of
        the slots u overruns into. */
    method MayEnter(u: int, s: int) returns (ok: bool)
      requires Valid(p) && Counted(p, slotOf, counters) && IsUnit(p, u) && IsSlot(p, s)
      ensures ok <==> Feasible(p, slotOf, u, s)
    {
      if !Allows(p, u, s) { return false; }
      ExceptSelf(p, slotOf, u, s);
      var clear := NoPartnerOverlaps(p, slotOf, u, s, u);
      if !clear { return false; }
      var seats := p.units[u].seats;
      if p.slots[s].seats > 0 && counters.all[s] > 0 && counters.all[s] + seats > p.slots[s].seats { return false; }
      if p.units[u].exahm {
        if counters.exahm[s] + counters.overrun[s] + seats > p.slots[s].exahmSeats { return false; }
        ok := TargetsFit(p, slotOf, counters, u, s);
        return;
      }
      return true;
    }

    /** Whether u and v may exchange their slots. */
    method MaySwap(u: int, v: int) returns (ok: bool)
      requires Valid(p) && Counted(p, slotOf, counters) && IsUnit(p, u) && IsUnit(p, v) && u != v
      ensures ok <==> CanSwap(p, slotOf, u, v)
    {
      var su, sv := slotOf[u], slotOf[v];
      if su < 0 || sv < 0 || su == sv { return false; }
      if !Allows(p, u, sv) || !Allows(p, v, su) { return false; }
      var uClear := NoPartnerOverlaps(p, slotOf, u, sv, v);
      if !uClear { return false; }
      var vClear := NoPartnerOverlaps(p, slotOf, v, su, u);
      if !vClear { return false; }
      var seatsU, seatsV := p.units[u].seats, p.units[v].seats;
      if p.slots[sv].seats > 0 && counters.all[sv] != seatsV && counters.all[sv] - seatsV + seatsU > p.slots[sv].seats { return false; }
      if p.slots[su].seats > 0 && counters.all[su] != seatsU && counters.all[su] - seatsU + seatsV > p.slots[su].seats { return false; }
      if MayOverrun(p, u) || MayOverrun(p, v) { return false; }
      if p.units[u].exahm &&
         counters.exahm[sv] + counters.overrun[sv] - (if p.units[v].exahm then seatsV else 0) + seatsU > p.slots[sv].exahmSeats { return false; }
      if p.units[v].exahm &&
         counters.exahm[su] + counters.overrun[su] - (if p.units[u].exahm then seatsU else 0) + seatsV > p.slots[su].exahmSeats { return false; }
      return true;
    }
  }

  /** No conflict partner of u other than except overlaps u in slot s (except == u excludes nobody). */
  method NoPartnerOverlaps(p: Problem, slotOf: seq<int>, u: int, s: int, except: int) returns (clear: bool)
    requires Valid(p) && Assignment(p, slotOf) && IsUnit(p, u) && IsSlot(p, s)
    ensures clear <==> NoOverlapExcept(p, slotOf, u, s, except)
  {
    var partners := p.hardConf[u];
    for i := 0 to |partners|
      invariant forall k :: 0 <= k < i && partners[k] != except ==> !Blocks(p, slotOf, u, s, partners[k])
    {
      var v := partners[i];
      if v != except && Blocks(p, slotOf, u, s, v) {
        PartnerBlocks(p, slotOf, u, s, except, v);
        return false;
      }
    }
    forall v | v in partners && v != except ensures !Blocks(p, slotOf, u, s, v) {
      var k :| 0 <= k < |partners| && partners[k] == v;
    }
    NoneBlocks(p, slotOf, u, s, except);
    return true;
  }

  lemma PartnerBlocks(p: Problem, slotOf: seq<int>, u: int, s: int, except: int, v: int)
    requires Valid(p) && Assignment(p, slotOf) && IsUnit(p, u) && IsSlot(p, s)
    requires v in p.hardConf[u] && v != except && Blocks(p, slotOf, u, s, v)
    ensures !NoOverlapExcept(p, slotOf, u, s, except)
  {}

  lemma NoneBlocks(p: Problem, slotOf: seq<int>, u: int, s: int, except: int)
    requires Valid(p) && Assignment(p, slotOf) && IsUnit(p, u) && IsSlot(p, s)
    requires forall v :: v in p.hardConf[u] && v != except ==> !Blocks(p, slotOf, u, s, v)
    ensures NoOverlapExcept(p, slotOf, u, s, except)
  {
    forall v | Conflict(p, u, v) && v != except && slotOf[v] >= 0 ensures !Overlaps(p, u, s, v, slotOf[v]) {
      assert v in p.hardConf[u];
      assert !Blocks(p, slotOf, u, s, v);
    }
  }

  lemma ExceptSelf(p: Problem, slotOf: seq<int>, u: int, s: int)
    requires Valid(p) && Assignment(p, slotOf) && IsUnit(p, u) && IsSlot(p, s)
    ensures NoOverlapExcept(p, slotOf, u, s, u) <==> NoOverlapAt(p, slotOf, u, s)
  {
    ConflictIrreflexive(p, u);
  }

  predicate Blocks(p: Problem, slotOf: seq<int>, u: int, s: int, v: int)
    requires Assignment(p, slotOf) && IsSlot(p, s)
  {
    IsUnit(p, v) && slotOf[v] >= 0 && Overlaps(p, u, s, v, slotOf[v])
  }

  /** The slots u would overrun into keep enough EXaHM seats. */
  method TargetsFit(p: Problem, ghost slotOf: seq<int>, c: Counters, u: int, s: int) returns (ok: bool)
    requires Valid(p) && Counted(p, slotOf, c) && IsUnit(p, u) && IsSlot(p, s)
    ensures ok <==> forall t :: t in OverrunTargets(p, u, s) ==> IsSlot(p, t) && ExahmFits(p, slotOf, u, t)
  {
    var targets := OverrunTargets(p, u, s);
    forall t | t in targets ensures IsSlot(p, t) { TargetsValid(p, u, s, t); }
    for i := 0 to |targets|
      invariant forall k :: 0 <= k < i ==> IsSlot(p, targets[k]) && ExahmFits(p, slotOf, u, targets[k])
    {
      var t := targets[i];
      assert t in targets;
      if c.exahm[t] + c.overrun[t] + p.units[u].seats > p.slots[t].exahmSeats { return false; }
    }
    return true;
  }

  method FreshPenalties(p: Problem, slotOf: seq<int>) returns (pS: seq<real>)
    requires Valid(p) && Assignment(p, slotOf)
    ensures pS == Penalties(p, slotOf)
  {
    pS := [];
    for si := 0 to |p.students|
      invariant pS == PenaltiesOf(p, slotOf, si)
    {
      var ps := StudentPenaltyAt(p, slotOf, p.students[si]);
      pS := pS + [ps];
    }
  }

  method FreshTotals(p: Problem, slotOf: seq<int>, c: Counters, pS: seq<real>) returns (t: Totals)
    requires Valid(p) && Counted(p, slotOf, c) && pS == Penalties(p, slotOf)
    ensures t == TotalsOf(p, slotOf, SpreadOver(p, pS))
  {
    var spread := SpreadSum(p, pS);
    var attract := AttractSum(p, slotOf);
    var load, fill := SlotSums(p, slotOf, c.all, c.exahm, c.seb);
    assert c.own == OwnLoads(p, slotOf);
    var hole := HoleSum(p, slotOf, c.own);
    var time, unplaced := UnitSums(p, slotOf);
    t := Totals(spread, attract, load, fill, hole, time, unplaced);
  }

  // ----- totals under one move -----

  /** The terms of the objective that a move of one unit between two slots can change. */
  datatype Touched = Touched(load: real, fill: real, hole: real, attract: real)

  ghost function TouchedOf(p: Problem, slotOf: seq<int>, u: int, s1: int, s2: int): Touched
    requires Valid(p) && Assignment(p, slotOf) && IsUnit(p, u) && -1 <= s1 < |p.slots| && -1 <= s2 < |p.slots|
  {
    RefsAreUnits(p, p.attract, u);
    Touched(TouchedTerm(p, LoadTerm, slotOf, s1, |p.slots|) + TouchedTerm(p, LoadTerm, slotOf, s2, |p.slots|),
            TouchedTerm(p, FillTerm, slotOf, s1, |p.slots|) + TouchedTerm(p, FillTerm, slotOf, s2, |p.slots|),
            HoleCost(p, TouchedHoles(p, slotOf, DayOf(p, s1), DayOf(p, s2), |p.days|)),
            AttractOfUnit(p, slotOf, u, p.unitAttract[u]))
  }

  /** The totals shifted by the difference of the touched terms. */
  function Shifted(p: Problem, t: Totals, u: int, from: int, x: int, before: Touched, after: Touched): Totals
    requires IsUnit(p, u)
  {
    Totals(t.spread, t.attract + (after.attract - before.attract), t.load + (after.load - before.load),
           t.fill + (after.fill - before.fill), t.hole + (after.hole - before.hole),
           t.time + (TimePenalty(p, u, x) - TimePenalty(p, u, from)),
           t.unplaced + (if from < 0 && x >= 0 then -1 else if from >= 0 && x < 0 then 1 else 0))
  }

  lemma HoleShift(p: Problem, slotOf: seq<int>, u: int, x: int)
    requires Valid(p) && Assignment(p, slotOf) && IsUnit(p, u) && -1 <= x < |p.slots|
    ensures var d1, d2 := DayOf(p, slotOf[u]), DayOf(p, x);
            HoleCost(p, HolesTotal(p, slotOf[u := x], |p.days|)) == HoleCost(p, HolesTotal(p, slotOf, |p.days|))
              + (HoleCost(p, TouchedHoles(p, slotOf[u := x], d1, d2, |p.days|)) - HoleCost(p, TouchedHoles(p, slotOf, d1, d2, |p.days|)))
  {
    HolesMove(p, slotOf, u, x);
    var d1, d2 := DayOf(p, slotOf[u]), DayOf(p, x);
    HoleCostLinear(p, HolesTotal(p, slotOf, |p.days|), TouchedHoles(p, slotOf[u := x], d1, d2, |p.days|), TouchedHoles(p, slotOf, d1, d2, |p.days|));
  }

  lemma HoleCostLinear(p: Problem, a: int, b: int, c: int)
    ensures HoleCost(p, a + b - c) == HoleCost(p, a) + (HoleCost(p, b) - HoleCost(p, c))
  {}

  lemma SlotShift(p: Problem, slotOf: seq<int>, u: int, x: int)
    requires Valid(p) && Assignment(p, slotOf) && Movable(p, u) && -1 <= x < |p.slots| && x != slotOf[u]
    ensures var a, b := TouchedOf(p, slotOf, u, slotOf[u], x), TouchedOf(p, slotOf[u := x], u, slotOf[u], x);
            && SlotsTotal(p, LoadTerm, slotOf[u := x], |p.slots|) == SlotsTotal(p, LoadTerm, slotOf, |p.slots|) + (b.load - a.load)
            && SlotsTotal(p, FillTerm, slotOf[u := x], |p.slots|) == SlotsTotal(p, FillTerm, slotOf, |p.slots|) + (b.fill - a.fill)
  {
    SlotsMove(p, LoadTerm, slotOf, u, x, |p.slots|);
    SlotsMove(p, FillTerm, slotOf, u, x, |p.slots|);
  }

  lemma AttractShift(p: Problem, slotOf: seq<int>, u: int, x: int)
    requires Valid(p) && Assignment(p, slotOf) && Movable(p, u) && -1 <= x < |p.slots| && x != slotOf[u]
    ensures var a, b := TouchedOf(p, slotOf, u, slotOf[u], x), TouchedOf(p, slotOf[u := x], u, slotOf[u], x);
            AttractOver(p, slotOf[u := x], p.attract) == AttractOver(p, slotOf, p.attract) + (b.attract - a.attract)
  {
    RefsAreUnits(p, p.attract, u);
    AttractMoves(p, slotOf, p.attract, u, x);
  }

  lemma UnitShift(p: Problem, slotOf: seq<int>, u: int, x: int)
    requires Valid(p) && Assignment(p, slotOf) && Movable(p, u) && -1 <= x < |p.slots| && x != slotOf[u]
    ensures TimeTotal(p, slotOf[u := x], |slotOf|) == TimeTotal(p, slotOf, |slotOf|) + (TimePenalty(p, u, x) - TimePenalty(p, u, slotOf[u]))
    ensures Unplaced(p, slotOf[u := x], |slotOf|) == Unplaced(p, slotOf, |slotOf|)
              + (if slotOf[u] < 0 && x >= 0 then -1 else if slotOf[u] >= 0 && x < 0 then 1 else 0)
  {
    TimeMoves(p, slotOf, u, x, |slotOf|);
    UnplacedMoves(p, slotOf, u, x, |slotOf|);
  }

  /** The shifted totals are the recomputed ones; the spread is recomputed per student afterwards. */
  lemma ShiftedExact(p: Problem, slotOf: seq<int>, u: int, x: int, spread: real)
    requires Valid(p) && Assignment(p, slotOf) && Movable(p, u) && -1 <= x < |p.slots| && x != slotOf[u]
    ensures Assignment(p, slotOf[u := x])
    ensures Shifted(p, TotalsOf(p, slotOf, spread), u, slotOf[u], x, TouchedOf(p, slotOf, u, slotOf[u], x), TouchedOf(p, slotOf[u := x], u, slotOf[u], x))
            == TotalsOf(p, slotOf[u := x], spread)
  {
    AttractShift(p, slotOf, u, x);
    SlotShift(p, slotOf, u, x);
    HoleShift(p, slotOf, u, x);
    UnitShift(p, slotOf, u, x);
  }

  // ----- penalties under one move -----

  /** The first n listed entries come from target, all others still from base. */
  ghost predicate Mixed(pS: seq<real>, base: seq<real>, target: seq<real>, list: seq<int>, n: nat)
    requires n <= |list|
  {
    |pS| == |base| == |target| && forall si :: 0 <= si < |pS| ==> pS[si] == if si in list[..n] then target[si] else base[si]
  }

  lemma MixStep(pS: seq<real>, base: seq<real>, target: seq<real>, list: seq<int>, n: nat)
    requires n < |list| && Mixed(pS, base, target, list, n) && 0 <= list[n] < |pS|
    ensures Mixed(pS[list[n] := target[list[n]]], base, target, list, n + 1)
  {
    assert list[..n + 1] == list[..n] + [list[n]];
  }

  lemma MixDone(pS: seq<real>, base: seq<real>, target: seq<real>, list: seq<int>)
    requires Mixed(pS, base, target, list, |list|)
    requires forall si :: 0 <= si < |base| && si !in list ==> base[si] == target[si]
    ensures pS == target
  {
    assert list[..|list|] == list;
  }

  /** Students without u keep their penalty when u moves. */
  lemma OthersKeepPenalty(p: Problem, slotOf: seq<int>, u: int, x: int)
    requires Valid(p) && Assignment(p, slotOf) && IsUnit(p, u) && -1 <= x < |p.slots|
    ensures Assignment(p, slotOf[u := x])
    ensures forall si :: 0 <= si < |p.students| && si !in p.unitStudents[u] ==> Penalties(p, slotOf)[si] == Penalties(p, slotOf[u := x])[si]
  {
    assert StudentList(p, u, p.unitStudents[u]);
    forall si | 0 <= si < |p.students| && si !in p.unitStudents[u] ensures Penalties(p, slotOf)[si] == Penalties(p, slotOf[u := x])[si] {
      UninvolvedStudent(p, slotOf, p.students[si], u, x);
    }
  }

  lemma ListedStudent(p: Problem, u: int, i: nat)
    requires Valid(p) && IsUnit(p, u) && i < |p.unitStudents[u]|
    ensures 0 <= p.unitStudents[u][i] < |p.students|
  {
    assert StudentList(p, u, p.unitStudents[u]);
    var si := p.unitStudents[u][i];
    assert si in p.unitStudents[u];
  }

  /** Recomputing u's students alone yields all penalties; the spread total follows each change. */
  method RecomputeStudents(p: Problem, ghost before: seq<int>, u: int, ghost x: int, slotOf: seq<int>, pS0: seq<real>, spread0: real)
    returns (pS: seq<real>, spread: real)
    requires Valid(p) && Assignment(p, before) && IsUnit(p, u) && -1 <= x < |p.slots| && slotOf == before[u := x]
    requires pS0 == Penalties(p, before) && spread0 == SpreadOver(p, pS0)
    ensures pS == Penalties(p, slotOf) && spread == SpreadOver(p, pS)
  {
    var list := p.unitStudents[u];
    pS, spread := pS0, spread0;
    ghost var target := Penalties(p, slotOf);
    for i := 0 to |list|
      invariant Mixed(pS, pS0, target, list, i) && spread == SpreadOver(p, pS)
    {
      var si := list[i];
      ListedStudent(p, u, i);
      var newPS := StudentPenaltyAt(p, slotOf, p.students[si]);
      SpreadUpdates(p, pS, si, newPS);
      MixStep(pS, pS0, target, list, i);
      spread := spread + (SpreadOf(p, newPS) - SpreadOf(p, pS[si]));
      pS := pS[si := newPS];
    }
    OthersKeepPenalty(p, before, u, x);
    MixDone(pS, pS0, target, list);
  }

  /** Copying the saved penalties of u's students back restores all of them. */
  method RestorePenalties(p: Problem, undo: Undo, pS0: seq<real>, ghost before: Image, ghost moved: seq<int>) returns (pS: seq<real>)
    requires Valid(p) && Assignment(p, before.slotOf) && before.pS == Penalties(p, before.slotOf) && UndoFor(p, undo, before)
    requires Assignment(p, moved) && moved == before.slotOf[undo.u := moved[undo.u]] && pS0 == Penalties(p, moved)
    ensures pS == before.pS
  {
    var list := undo.affected;
    pS := pS0;
    for i := 0 to |list|
      invariant Mixed(pS, pS0, before.pS, list, i)
    {
      MixStep(pS, pS0, before.pS, list, i);
      pS := pS[list[i] := undo.savedPS[i]];
    }
    OthersKeepPenalty(p, before.slotOf, undo.u, moved[undo.u]);
    MixDone(pS, pS0, before.pS, list);
  }

  lemma EmptyCounted(p: Problem, slotOf: seq<int>, c: Counters)
    requires |slotOf| == |p.units| && forall u :: IsUnit(p, u) ==> slotOf[u] == -1
    requires |c.all| == |p.slots| && c.all == c.own == c.exahm == c.seb == c.overrun && forall s :: IsSlot(p, s) ==> c.all[s] == 0
    ensures Counted(p, slotOf, c)
  {
    forall c, s ensures Load(p, c, slotOf, s) == 0 { EmptyLoad(p, c, slotOf, s, |slotOf|); }
  }

  lemma {:induction false} EmptyLoad(p: Problem, c: Counter, slotOf: seq<int>, s: int, n: nat)
    requires |slotOf| == |p.units| && n <= |slotOf| && forall u :: IsUnit(p, u) ==> slotOf[u] == -1
    ensures LoadOf(p, c, slotOf, s, n) == 0
  {
    if n > 0 {
      assert IsUnit(p, n - 1);
      EmptyLoad(p, c, slotOf, s, n - 1);
    }
  }
}
