/** What the built problem rewards: the laws of the distances and of the load, read off the inputs. */
module PlanDistances {
  import opened ExamPlanProblem
  import opened ExamPlanLoads
  import opened ExamPlanCost
  import opened HardSeparation
  import opened SlotDays
  import opened SlotDistances
  import opened PlanObjective
  import opened ProblemBuild

  predicate OneDay(p: Problem, a: int, b: int)
    requires |p.dayOfSlot| == |p.slots| && IsSlot(p, a) && IsSlot(p, b)
  {
    p.dayOfSlot[a] == p.dayOfSlot[b]
  }

  /** Slots a and b stand no farther apart than a' and b', as far as students are concerned: both pairs lie
      on single days, or both across days, with a gap no longer. Without the falloff only neighbours of
      one day are closer than others. */
  ghost predicate NoFarther(inp: Inputs, p: Problem, a: int, b: int, a': int, b': int)
    requires |p.dayOfSlot| == |p.slots| == |inp.slots| && IsSlot(p, a) && IsSlot(p, b) && IsSlot(p, a') && IsSlot(p, b')
  {
    if !OneDay(p, a, b) then !OneDay(p, a', b') && Gap(inp.slots, a, b) <= Gap(inp.slots, a', b')
    else
      && OneDay(p, a', b')
      && if inp.distances.falloff > 0.0 then Gap(inp.slots, a, b) <= Gap(inp.slots, a', b')
         else (forall t :: !Between(inp.slots, p.dayOfSlot, a, b, t)) || exists t :: Between(inp.slots, p.dayOfSlot, a', b', t)
  }

  /** Weights that punish nearness, and a falloff that falls. */
  ghost predicate Sensible(d: Distances) {
    d.adjacent >= d.sameDay && d.dayFactor >= 0.0 && (d.falloff > 0.0 ==> Falling(d.decay))
  }

  /** Main result: what stands no farther apart never costs a student less. */
  lemma SpreadFalls(inp: Inputs, p: Problem, a: int, b: int, a': int, b': int)
    requires p.slots == inp.slots && DistancesFrom(inp, p) && Sensible(inp.distances) && DistinctStarts(inp.slots)
    requires IsSlot(p, a) && IsSlot(p, b) && a != b && IsSlot(p, a') && IsSlot(p, b') && a' != b'
    requires NoFarther(inp, p, a, b, a', b')
    ensures p.closeness(a, b) >= p.closeness(a', b')
  {
    var d := inp.distances;
    if !OneDay(p, a, b) {
      AcrossDaysFades(d, inp.slots, p.dayOfSlot, p.slotDayPos, a, b, a', b');
    } else if d.falloff > 0.0 {
      FalloffFades(d, inp.slots, p.dayOfSlot, p.slotDayPos, a, b, a', b');
    } else {
      TieredExact(d, inp.slots, inp.dayKey, p.days, p.dayOfSlot, p.slotDayPos, a, b);
      TieredExact(d, inp.slots, inp.dayKey, p.days, p.dayOfSlot, p.slotDayPos, a', b');
    }
  }

  /** ... so moving the two exams of a student apart never makes the pair dearer. */
  lemma PairSpreadFalls(inp: Inputs, p: Problem, slotOf: seq<int>, slotOf': seq<int>, pr: Pair)
    requires p.slots == inp.slots && DistancesFrom(inp, p) && Sensible(inp.distances) && DistinctStarts(inp.slots) && ValidDays(p)
    requires Assignment(p, slotOf) && Assignment(p, slotOf') && ValidPair(p, pr) && pr.weight >= 0.0 && !pr.crossLoc
    requires Separate(p, slotOf, pr) && Separate(p, slotOf', pr)
    requires NoFarther(inp, p, slotOf[pr.a], slotOf[pr.b], slotOf'[pr.a], slotOf'[pr.b])
    ensures PairPenalty(p, slotOf, pr) >= PairPenalty(p, slotOf', pr)
  {
    SpreadFalls(inp, p, slotOf[pr.a], slotOf[pr.b], slotOf'[pr.a], slotOf'[pr.b]);
    CloserCostsMore(p, slotOf, slotOf', pr);
  }

  /** Tiered, the law of neighbours: of all slots of the day, the next one is the dearest. */
  lemma NeighbourCostsMost(inp: Inputs, p: Problem, a: int, b: int, c: int)
    requires DistancesFrom(inp, p) && inp.distances.falloff <= 0.0 && inp.distances.adjacent >= inp.distances.sameDay
    requires 0 <= a < |inp.slots| && 0 <= b < |inp.slots| && 0 <= c < |inp.slots|
    requires p.dayOfSlot[a] == p.dayOfSlot[b] == p.dayOfSlot[c] && SlotDays.Apart(p.slotDayPos[a], p.slotDayPos[b]) == 1
    ensures p.closeness(a, b) >= p.closeness(a, c)
  {}

  /** The pull on attracted units vanishes exactly in one slot. */
  lemma TogetherIsFree(inp: Inputs, p: Problem, a: int, b: int)
    requires DistancesFrom(inp, p) && DistinctStarts(inp.slots) && inp.distances.attract > 0.0
    requires 0 <= a < |inp.slots| && 0 <= b < |inp.slots|
    ensures p.farness(a, b) >= 0.0 && (p.farness(a, b) == 0.0 <==> a == b)
  {
    TogetherExact(inp.distances, inp.slots, inp.dayKey, p.days, p.dayOfSlot, p.slotDayPos, a, b);
  }

  /** Pairs carry the travel charge exactly between units of different campuses. */
  lemma CampusFlagExact(inp: Inputs, p: Problem, sitters: seq<Sitter>, si: int, j: int)
    requires Assembled(inp, p, sitters) && 0 <= si < |p.students| && 0 <= j < |p.students[si]|
    ensures var pr := p.students[si][j];
            (pr.a, pr.b) in sitters[si].pairs && (pr.crossLoc <==> LocationOf(SettingOf(inp), pr.a) != LocationOf(SettingOf(inp), pr.b))
  {
    assert PairsFor(SettingOf(inp), inp.weigh, sitters[si], p.students[si]);
    assert sitters[si].pairs[j] in sitters[si].pairs;
  }

  lemma {:induction false} AllSeats(p: Problem, slotOf: seq<int>, n: nat)
    requires |slotOf| == |p.units| && n <= |slotOf| && forall u :: IsUnit(p, u) ==> slotOf[u] >= 0
    ensures PlacedSeats(p, slotOf, n) == TotalSeats(p.units[..n])
  {
    if n > 0 {
      AllSeats(p, slotOf, n - 1);
      assert IsUnit(p, n - 1) && p.units[..n][..n - 1] == p.units[..n - 1];
    }
  }

  /** Balance: in a complete schedule the slots' seats add up to the target load of all slots, so what one
      slot holds above it another lacks. */
  lemma LoadsBalance(inp: Inputs, p: Problem, slotOf: seq<int>)
    requires p.slots == inp.slots && p.units == inp.units && inp.slots != [] && EvenLoad(inp, p.w.targetLoad)
    requires Assignment(p, slotOf) && forall u :: IsUnit(p, u) ==> slotOf[u] >= 0
    ensures SlotsSum(p, Counter.AllSeats, slotOf, |p.slots|) as real == p.w.targetLoad * |p.slots| as real
  {
    SeatsOnce(p, slotOf);
    AllSeats(p, slotOf, |slotOf|);
    assert p.units[..|p.units|] == p.units;
  }
}
