/** What the two distances between slots mean: students' pairs cost less the farther apart they stand,
    attracted units cost more, and where the code departs from that. */
module SlotDistances {
  import opened ExamPlanProblem
  import opened SlotDays

  predicate SlotsOf(slots: seq<PlanSlot>, dayOf: seq<int>, pos: seq<int>) { |dayOf| == |pos| == |slots| }

  predicate IsSlotOf(slots: seq<PlanSlot>, s: int) { 0 <= s < |slots| }

  /** No two slots of one day start together. */
  ghost predicate DistinctStarts(slots: seq<PlanSlot>) {
    forall s, t :: IsSlotOf(slots, s) && IsSlotOf(slots, t) && s != t ==> slots[s].start != slots[t].start
  }

  function Gap(slots: seq<PlanSlot>, a: int, b: int): nat
    requires IsSlotOf(slots, a) && IsSlotOf(slots, b)
  {
    Apart(slots[a].start, slots[b].start)
  }

  /** Slot t of the same day starts strictly between a and b. */
  predicate Between(slots: seq<PlanSlot>, dayOf: seq<int>, a: int, b: int, t: int)
    requires |dayOf| == |slots| && IsSlotOf(slots, a) && IsSlotOf(slots, b)
  {
    && IsSlotOf(slots, t) && dayOf[t] == dayOf[a]
    && (slots[a].start < slots[t].start < slots[b].start || slots[b].start < slots[t].start < slots[a].start)
  }

  /** Positions within a day follow the start times. */
  lemma PositionsFollowStarts(slots: seq<PlanSlot>, dayKey: int -> int, days: seq<seq<int>>, dayOf: seq<int>, pos: seq<int>, a: int, b: int)
    requires DaysExact(slots, dayKey, days, dayOf, pos) && DistinctStarts(slots)
    requires IsSlotOf(slots, a) && IsSlotOf(slots, b) && dayOf[a] == dayOf[b]
    ensures pos[a] < pos[b] <==> slots[a].start < slots[b].start
    ensures pos[a] == pos[b] <==> a == b
  {
    assert ByStart(slots, days[dayOf[a]]);
  }

  /** Two slots of a day are neighbours by position exactly when no slot of that day starts between them. */
  lemma NeighboursExact(slots: seq<PlanSlot>, dayKey: int -> int, days: seq<seq<int>>, dayOf: seq<int>, pos: seq<int>, a: int, b: int)
    requires DaysExact(slots, dayKey, days, dayOf, pos) && DistinctStarts(slots)
    requires IsSlotOf(slots, a) && IsSlotOf(slots, b) && a != b && dayOf[a] == dayOf[b]
    ensures Apart(pos[a], pos[b]) == 1 <==> forall t :: !Between(slots, dayOf, a, b, t)
  {
    PositionsFollowStarts(slots, dayKey, days, dayOf, pos, a, b);
    forall t | Between(slots, dayOf, a, b, t) ensures pos[a] < pos[t] < pos[b] || pos[b] < pos[t] < pos[a] {
      PositionsFollowStarts(slots, dayKey, days, dayOf, pos, a, t);
      PositionsFollowStarts(slots, dayKey, days, dayOf, pos, t, b);
    }
    if Apart(pos[a], pos[b]) > 1 {
      var lo := if pos[a] < pos[b] then pos[a] else pos[b];
      var t := days[dayOf[a]][lo + 1];
      PositionsFollowStarts(slots, dayKey, days, dayOf, pos, a, t);
      PositionsFollowStarts(slots, dayKey, days, dayOf, pos, t, b);
      assert Between(slots, dayOf, a, b, t);
    }
  }

  // ----- closeness: what a student's pair costs -----

  /** Tiered: directly consecutive exams of a day cost the adjacent weight, all other pairs of that day
      the same-day weight. */
  lemma TieredExact(d: Distances, slots: seq<PlanSlot>, dayKey: int -> int, days: seq<seq<int>>, dayOf: seq<int>, pos: seq<int>, a: int, b: int)
    requires DaysExact(slots, dayKey, days, dayOf, pos) && DistinctStarts(slots) && d.falloff <= 0.0
    requires IsSlotOf(slots, a) && IsSlotOf(slots, b) && a != b && dayOf[a] == dayOf[b]
    ensures (forall t :: !Between(slots, dayOf, a, b, t)) ==> Closeness(d, slots, dayOf, pos, a, b) == d.adjacent
    ensures (exists t :: Between(slots, dayOf, a, b, t)) ==> Closeness(d, slots, dayOf, pos, a, b) == d.sameDay
  {
    NeighboursExact(slots, dayKey, days, dayOf, pos, a, b);
  }

  /** The falloff starts at 1 and never rises. */
  ghost predicate Falling(decay: int -> real) {
    decay(0) == 1.0 && (forall g: nat :: decay(g) >= 0.0) && forall g: nat, h: nat :: g <= h ==> decay(h) <= decay(g)
  }

  lemma Scaled(x: real, f: real, g: real)
    requires x >= 0.0 && f <= g
    ensures x * f <= x * g
  {}

  lemma Fractions(x: real, f: real, g: real)
    requires x >= 0.0 && 0.0 <= g <= f <= 1.0
    ensures 0.0 <= x * g <= x * f <= x
  {}

  /** Continuous: within a day a longer gap never costs more, and every pair costs between the same-day
      and the adjacent weight. */
  lemma FalloffFades(d: Distances, slots: seq<PlanSlot>, dayOf: seq<int>, pos: seq<int>, a: int, b: int, a': int, b': int)
    requires SlotsOf(slots, dayOf, pos) && d.falloff > 0.0 && d.adjacent >= d.sameDay && Falling(d.decay)
    requires IsSlotOf(slots, a) && IsSlotOf(slots, b) && dayOf[a] == dayOf[b]
    requires IsSlotOf(slots, a') && IsSlotOf(slots, b') && dayOf[a'] == dayOf[b'] && Gap(slots, a, b) <= Gap(slots, a', b')
    ensures d.adjacent >= Closeness(d, slots, dayOf, pos, a, b) >= Closeness(d, slots, dayOf, pos, a', b') >= d.sameDay
    ensures Gap(slots, a, b) == 0 ==> Closeness(d, slots, dayOf, pos, a, b) == d.adjacent
  {
    var g, g' := Gap(slots, a, b), Gap(slots, a', b');
    Fractions(d.adjacent - d.sameDay, d.decay(g), d.decay(g'));
  }

  /** Across days a pair costs the day factor per whole day: gaps below an hour count as one hour. */
  lemma AcrossDaysExact(d: Distances, slots: seq<PlanSlot>, dayOf: seq<int>, pos: seq<int>, a: int, b: int)
    requires SlotsOf(slots, dayOf, pos) && IsSlotOf(slots, a) && IsSlotOf(slots, b) && dayOf[a] != dayOf[b]
    ensures Closeness(d, slots, dayOf, pos, a, b) * (if Gap(slots, a, b) < 60 then 60 else Gap(slots, a, b)) as real == d.dayFactor * 1440.0
  {
    var g := Gap(slots, a, b) as real;
    if g >= 60.0 { Quotient(d.dayFactor, g); }
  }

  lemma Quotient(f: real, g: real)
    requires g > 0.0
    ensures f * 24.0 / (g / 60.0) * g == f * 1440.0
  {
    var h := g / 60.0;
    var q := f * 24.0 / h;
    assert q * h == f * 24.0;
    assert g == h * 60.0;
    assert q * g == (q * h) * 60.0;
  }

  lemma LargerDivisor(c: real, c': real, g: real, g': real, k: real)
    requires 0.0 < g <= g' && k >= 0.0 && c * g == k && c' * g' == k
    ensures c >= c'
  {
    if c < c' {
      if c >= 0.0 {
        Scaled(c', g, g');
        StrictlyScaled(g, c, c');
      } else {
        NegativeProduct(c, g);
      }
    }
  }

  lemma StrictlyScaled(x: real, f: real, g: real)
    requires x > 0.0 && f < g
    ensures x * f < x * g
  {}

  lemma NegativeProduct(c: real, g: real)
    requires c < 0.0 && g > 0.0
    ensures c * g < 0.0
  {}

  /** ... so a longer gap across days never costs more. */
  lemma AcrossDaysFades(d: Distances, slots: seq<PlanSlot>, dayOf: seq<int>, pos: seq<int>, a: int, b: int, a': int, b': int)
    requires SlotsOf(slots, dayOf, pos) && d.dayFactor >= 0.0
    requires IsSlotOf(slots, a) && IsSlotOf(slots, b) && dayOf[a] != dayOf[b]
    requires IsSlotOf(slots, a') && IsSlotOf(slots, b') && dayOf[a'] != dayOf[b'] && Gap(slots, a, b) <= Gap(slots, a', b')
    ensures Closeness(d, slots, dayOf, pos, a, b) >= Closeness(d, slots, dayOf, pos, a', b')
  {
    AcrossDaysExact(d, slots, dayOf, pos, a, b);
    AcrossDaysExact(d, slots, dayOf, pos, a', b');
    var g, g' := if Gap(slots, a, b) < 60 then 60 else Gap(slots, a, b), if Gap(slots, a', b') < 60 then 60 else Gap(slots, a', b');
    LargerDivisor(Closeness(d, slots, dayOf, pos, a, b), Closeness(d, slots, dayOf, pos, a', b'), g as real, g' as real, d.dayFactor * 1440.0);
  }

  /** Exact: a pair across days costs no more than a non-consecutive pair of one day if and only if the gap
      is long enough for the weights. Closeness does not fall with distance across midnight otherwise. */
  lemma MidnightExact(d: Distances, slots: seq<PlanSlot>, dayOf: seq<int>, pos: seq<int>, a: int, b: int)
    requires SlotsOf(slots, dayOf, pos) && IsSlotOf(slots, a) && IsSlotOf(slots, b) && dayOf[a] != dayOf[b] && Gap(slots, a, b) >= 60
    ensures Closeness(d, slots, dayOf, pos, a, b) <= d.sameDay <==> d.dayFactor * 1440.0 <= d.sameDay * Gap(slots, a, b) as real
  {
    AcrossDaysExact(d, slots, dayOf, pos, a, b);
    ProductOrder(Closeness(d, slots, dayOf, pos, a, b), Gap(slots, a, b) as real, d.dayFactor * 1440.0, d.sameDay);
  }

  lemma ProductOrder(c: real, g: real, k: real, s: real)
    requires g > 0.0 && c * g == k
    ensures c <= s <==> k <= s * g
  {
    if c <= s { Scaled(g, c, s); } else { StrictlyScaled(g, s, c); }
  }

  /** With the default weights two hours across midnight cost 2400, thirteen hours of one day 900. */
  lemma MidnightExample()
    ensures var slots := [PlanSlot(600, 0, 0, 0), PlanSlot(960, 0, 0, 0), PlanSlot(1380, 0, 0, 0), PlanSlot(1500, 0, 0, 0)];
            var d := Distances(2500.0, 900.0, 200.0, 50.0, 0.0, _ => 0.0);
            var dayOf, pos := [0, 0, 0, 1], [0, 1, 2, 0];
            Closeness(d, slots, dayOf, pos, 2, 3) == 2400.0 && Closeness(d, slots, dayOf, pos, 0, 2) == 900.0
  {}

  lemma ClosenessSymmetric(d: Distances, slots: seq<PlanSlot>, dayOf: seq<int>, pos: seq<int>, a: int, b: int)
    requires SlotsOf(slots, dayOf, pos) && IsSlotOf(slots, a) && IsSlotOf(slots, b)
    ensures Closeness(d, slots, dayOf, pos, a, b) == Closeness(d, slots, dayOf, pos, b, a)
  {
    assert Gap(slots, a, b) == Gap(slots, b, a) && Apart(pos[a], pos[b]) == Apart(pos[b], pos[a]);
  }

  // ----- farness: what pulls attracted units together -----

  /** The nearest number of whole days, halves upwards, and at least one. */
  lemma DaysApartNearest(gap: nat)
    ensures gap >= 720 ==> -720 < 1440 * DaysApart(gap) - gap <= 720
    ensures gap < 720 ==> DaysApart(gap) == 1
  {}

  /** The pull vanishes exactly in one slot. */
  lemma TogetherExact(d: Distances, slots: seq<PlanSlot>, dayKey: int -> int, days: seq<seq<int>>, dayOf: seq<int>, pos: seq<int>, a: int, b: int)
    requires DaysExact(slots, dayKey, days, dayOf, pos) && DistinctStarts(slots) && d.attract > 0.0
    requires IsSlotOf(slots, a) && IsSlotOf(slots, b)
    ensures Farness(d, slots, dayOf, pos, a, b) >= 0.0
    ensures Farness(d, slots, dayOf, pos, a, b) == 0.0 <==> a == b
  {
    if a != b && dayOf[a] != dayOf[b] {
      Pulled(d.attract, (DaysApart(Gap(slots, a, b)) + 5) as real);
    } else if a != b && d.falloff > 0.0 {
      Pulled(d.attract, Gap(slots, a, b) as real / 60.0);
    } else if a != b {
      PositionsFollowStarts(slots, dayKey, days, dayOf, pos, a, b);
      Pulled(d.attract, Apart(pos[a], pos[b]) as real);
    }
  }

  lemma Pulled(weight: real, distance: real)
    requires weight > 0.0 && distance > 0.0
    ensures weight * distance > 0.0
  {}

  /** One step costs the attract weight: to the neighbouring slot, or an hour when the falloff is on. */
  lemma PullUnit(d: Distances, slots: seq<PlanSlot>, dayKey: int -> int, days: seq<seq<int>>, dayOf: seq<int>, pos: seq<int>, a: int, b: int)
    requires DaysExact(slots, dayKey, days, dayOf, pos) && DistinctStarts(slots)
    requires IsSlotOf(slots, a) && IsSlotOf(slots, b) && a != b && dayOf[a] == dayOf[b]
    ensures d.falloff <= 0.0 && (forall t :: !Between(slots, dayOf, a, b, t)) ==> Farness(d, slots, dayOf, pos, a, b) == d.attract
    ensures d.falloff > 0.0 && Gap(slots, a, b) == 60 ==> Farness(d, slots, dayOf, pos, a, b) == d.attract
  {
    NeighboursExact(slots, dayKey, days, dayOf, pos, a, b);
  }

  /** Within a day the pull adds up over the slots between. */
  lemma PullWithinDay(d: Distances, slots: seq<PlanSlot>, dayKey: int -> int, days: seq<seq<int>>, dayOf: seq<int>, pos: seq<int>, a: int, b: int, c: int)
    requires DaysExact(slots, dayKey, days, dayOf, pos) && DistinctStarts(slots) && d.attract >= 0.0
    requires IsSlotOf(slots, a) && IsSlotOf(slots, b) && IsSlotOf(slots, c) && Between(slots, dayOf, a, c, b) && dayOf[a] == dayOf[c]
    ensures Farness(d, slots, dayOf, pos, a, c) == Farness(d, slots, dayOf, pos, a, b) + Farness(d, slots, dayOf, pos, b, c)
  {
    PositionsFollowStarts(slots, dayKey, days, dayOf, pos, a, b);
    PositionsFollowStarts(slots, dayKey, days, dayOf, pos, b, c);
    PositionsFollowStarts(slots, dayKey, days, dayOf, pos, a, c);
    assert Apart(pos[a], pos[c]) == Apart(pos[a], pos[b]) + Apart(pos[b], pos[c]);
    assert Gap(slots, a, c) == Gap(slots, a, b) + Gap(slots, b, c);
  }

  lemma DayOrder(weight: real, m: int, n: int)
    requires weight > 0.0
    ensures weight * m as real <= weight * (n + 5) as real <==> m <= n + 5
  {
    if m <= n + 5 { Scaled(weight, m as real, (n + 5) as real); } else { StrictlyScaled(weight, (n + 5) as real, m as real); }
  }

  /** Exact: attracted units on two days are pulled at least as much as two on one day if and only if the
      latter are at most as many slots apart as there are whole days between the former, plus five. */
  lemma OtherDayExact(d: Distances, slots: seq<PlanSlot>, dayOf: seq<int>, pos: seq<int>, a: int, b: int, a': int, b': int)
    requires SlotsOf(slots, dayOf, pos) && d.attract > 0.0 && d.falloff <= 0.0
    requires IsSlotOf(slots, a) && IsSlotOf(slots, b) && a != b && dayOf[a] == dayOf[b]
    requires IsSlotOf(slots, a') && IsSlotOf(slots, b') && dayOf[a'] != dayOf[b']
    ensures Farness(d, slots, dayOf, pos, a, b) <= Farness(d, slots, dayOf, pos, a', b') <==> Apart(pos[a], pos[b]) <= DaysApart(Gap(slots, a', b')) + 5
  {
    DayOrder(d.attract, Apart(pos[a], pos[b]), DaysApart(Gap(slots, a', b')));
  }

  /** With at most seven slots a day another day is never nearer. */
  lemma ShortDaysSuffice(d: Distances, slots: seq<PlanSlot>, dayKey: int -> int, days: seq<seq<int>>, dayOf: seq<int>, pos: seq<int>,
                         a: int, b: int, a': int, b': int)
    requires DaysExact(slots, dayKey, days, dayOf, pos) && d.attract > 0.0 && d.falloff <= 0.0
    requires IsSlotOf(slots, a) && IsSlotOf(slots, b) && a != b && dayOf[a] == dayOf[b] && |days[dayOf[a]]| <= 7
    requires IsSlotOf(slots, a') && IsSlotOf(slots, b') && dayOf[a'] != dayOf[b']
    ensures Farness(d, slots, dayOf, pos, a, b) <= Farness(d, slots, dayOf, pos, a', b')
  {
    OtherDayExact(d, slots, dayOf, pos, a, b, a', b');
  }
}
