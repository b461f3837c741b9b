/** What each term of the solver's objective rewards, told without its formula: which schedules cost nothing,
    which of two are cheaper, and what adds up to what. */
module PlanObjective {
  import opened ExamPlanProblem
  import opened ExamPlanLoads
  import opened ExamPlanCost

  // ----- seats -----

  /** Unit u takes seats of slot s in the sense of the counter: it stands there (and is of that kind), or it
      keeps its EXaHM rooms into s. */
  predicate TakesSeats(p: Problem, c: Counter, u: int, su: int, s: int)
    requires IsUnit(p, u)
  {
    && su >= 0 && p.units[u].seats > 0
    && (c.OwnSeats? ==> !p.units[u].foreign) && (c.SebSeats? ==> p.units[u].seb)
    && (c.ExahmSeats? || c.OverrunSeats? ==> p.units[u].exahm)
    && (if c.OverrunSeats? then s in OverrunTargets(p, u, su) else su == s)
  }

  ghost predicate SomeSeats(p: Problem, c: Counter, slotOf: seq<int>, s: int, n: nat)
    requires |slotOf| == |p.units| && n <= |slotOf|
  {
    exists u :: 0 <= u < n && TakesSeats(p, c, u, slotOf[u], s)
  }

  lemma ShareTakes(p: Problem, c: Counter, u: int, su: int, s: int)
    requires Valid(p) && IsUnit(p, u)
    ensures Share(p, c, u, su, s) >= 0 && (Share(p, c, u, su, s) > 0 <==> TakesSeats(p, c, u, su, s))
  {}

  lemma SomeSeatsStep(p: Problem, c: Counter, slotOf: seq<int>, s: int, n: nat)
    requires |slotOf| == |p.units| && n < |slotOf| && IsUnit(p, n)
    ensures SomeSeats(p, c, slotOf, s, n + 1) <==> SomeSeats(p, c, slotOf, s, n) || TakesSeats(p, c, n, slotOf[n], s)
  {
    if SomeSeats(p, c, slotOf, s, n + 1) {
      var u :| 0 <= u < n + 1 && TakesSeats(p, c, u, slotOf[u], s);
      assert u < n || u == n;
    }
  }

  /** A counter is positive exactly when some unit takes seats there. */
  lemma {:induction false} LoadPositive(p: Problem, c: Counter, slotOf: seq<int>, s: int, n: nat)
    requires Valid(p) && |slotOf| == |p.units| && n <= |slotOf|
    ensures LoadOf(p, c, slotOf, s, n) >= 0
    ensures LoadOf(p, c, slotOf, s, n) > 0 <==> SomeSeats(p, c, slotOf, s, n)
  {
    if n > 0 {
      LoadPositive(p, c, slotOf, s, n - 1);
      SomeSeatsStep(p, c, slotOf, s, n - 1);
      ShareTakes(p, c, n - 1, slotOf[n - 1], s);
    }
  }

  /** The seats of all slots together. */
  function SlotsSum(p: Problem, c: Counter, slotOf: seq<int>, k: nat): int
    requires |slotOf| == |p.units|
  {
    if k == 0 then 0 else SlotsSum(p, c, slotOf, k - 1) + Load(p, c, slotOf, k - 1)
  }

  /** The seats of the placed units among the first n. */
  function PlacedSeats(p: Problem, slotOf: seq<int>, n: nat): int
    requires |slotOf| == |p.units| && n <= |slotOf|
  {
    if n == 0 then 0 else PlacedSeats(p, slotOf, n - 1) + (if slotOf[n - 1] >= 0 then p.units[n - 1].seats else 0)
  }

  /** Taking a unit out lowers the sum over the first k slots by its seats if it stood in one of them. */
  lemma {:induction false} SumMoves(p: Problem, slotOf: seq<int>, u: int, k: nat)
    requires Assignment(p, slotOf) && IsUnit(p, u)
    ensures SlotsSum(p, AllSeats, slotOf, k) == SlotsSum(p, AllSeats, slotOf[u := -1], k) + (if 0 <= slotOf[u] < k then p.units[u].seats else 0)
  {
    if k > 0 {
      SumMoves(p, slotOf, u, k - 1);
      LoadMoves(p, AllSeats, slotOf, k - 1, |slotOf|, u, -1);
    }
  }

  /** The first n units alone. */
  function FirstUnits(slotOf: seq<int>, n: nat): (r: seq<int>)
    requires n <= |slotOf|
    ensures |r| == |slotOf| && forall u :: 0 <= u < |r| ==> r[u] == if u < n then slotOf[u] else -1
  {
    slotOf[..n] + seq(|slotOf| - n, _ => -1)
  }

  lemma {:induction false} NoSeats(p: Problem, slotOf: seq<int>, k: nat)
    requires Assignment(p, slotOf) && forall u :: IsUnit(p, u) ==> slotOf[u] == -1
    ensures SlotsSum(p, AllSeats, slotOf, k) == 0
  {
    if k > 0 {
      NoSeats(p, slotOf, k - 1);
      EmptySlot(p, slotOf, k - 1, |slotOf|);
    }
  }

  lemma {:induction false} EmptySlot(p: Problem, slotOf: seq<int>, s: int, n: nat)
    requires Assignment(p, slotOf) && n <= |slotOf| && forall u :: IsUnit(p, u) ==> slotOf[u] == -1
    ensures LoadOf(p, AllSeats, slotOf, s, n) == 0
  {
    if n > 0 {
      EmptySlot(p, slotOf, s, n - 1);
      assert IsUnit(p, n - 1);
    }
  }

  lemma {:induction false} PlacedAgree(p: Problem, a: seq<int>, b: seq<int>, n: nat)
    requires |a| == |b| == |p.units| && n <= |a| && forall u :: 0 <= u < n ==> a[u] == b[u]
    ensures PlacedSeats(p, a, n) == PlacedSeats(p, b, n)
  {
    if n > 0 { PlacedAgree(p, a, b, n - 1); }
  }

  lemma {:induction false} FirstSeats(p: Problem, slotOf: seq<int>, n: nat)
    requires Assignment(p, slotOf) && n <= |slotOf|
    ensures SlotsSum(p, AllSeats, FirstUnits(slotOf, n), |p.slots|) == PlacedSeats(p, slotOf, n)
  {
    var now := FirstUnits(slotOf, n);
    forall u | IsUnit(p, u) ensures -1 <= now[u] < |p.slots| {}
    if n == 0 {
      NoSeats(p, now, |p.slots|);
    } else {
      FirstSeats(p, slotOf, n - 1);
      SumMoves(p, now, n - 1, |p.slots|);
      assert now[n - 1 := -1] == FirstUnits(slotOf, n - 1);
      assert IsUnit(p, n - 1);
    }
  }

  /** Conservation: the seats of all slots together are the seats of the placed units, each once. */
  lemma SeatsOnce(p: Problem, slotOf: seq<int>)
    requires Assignment(p, slotOf)
    ensures SlotsSum(p, AllSeats, slotOf, |p.slots|) == PlacedSeats(p, slotOf, |slotOf|)
  {
    FirstSeats(p, slotOf, |slotOf|);
    assert FirstUnits(slotOf, |slotOf|) == slotOf;
  }

  // ----- slot load -----

  function Quadratic(w: real, d: real): real { w * d * d }

  lemma AsQuadratic(p: Problem, seats: int, d: real)
    requires d == seats as real - p.w.targetLoad
    ensures LoadPenalty(p, seats) == Quadratic(p.w.slotLoad, d)
  {}

  lemma QuadraticShift(w: real, x: real, y: real, m: real)
    ensures Quadratic(w, x - m) + Quadratic(w, y + m) - Quadratic(w, x) - Quadratic(w, y) == 2.0 * w * (m * (y + m - x))
  {}

  /** Moving n seats from a slot with a seats to one with b changes the load term by twice n for each seat
      that the entered slot ends up above what the other one had, whatever the target. */
  lemma LoadShift(p: Problem, a: int, b: int, n: int)
    ensures LoadPenalty(p, a - n) + LoadPenalty(p, b + n) - LoadPenalty(p, a) - LoadPenalty(p, b)
            == 2.0 * p.w.slotLoad * (n as real * (b as real + n as real - a as real))
  {
    var t := p.w.targetLoad;
    var x, y, m := a as real - t, b as real - t, n as real;
    AsQuadratic(p, a, x);
    AsQuadratic(p, b, y);
    AsQuadratic(p, a - n, x - m);
    AsQuadratic(p, b + n, y + m);
    QuadraticShift(p.w.slotLoad, x, y, m);
    assert y + m - x == b as real + m - a as real;
  }

  /** Exact: with the load weight on, moving seats never costs more if and only if the entered slot ends
      up no fuller than the one left was. */
  lemma EvenerIsCheaper(p: Problem, a: int, b: int, n: int)
    requires p.w.slotLoad > 0.0 && n > 0
    ensures LoadPenalty(p, a - n) + LoadPenalty(p, b + n) <= LoadPenalty(p, a) + LoadPenalty(p, b) <==> b + n <= a
  {
    LoadShift(p, a, b, n);
    var m, d := n as real, b as real + n as real - a as real;
    SignOfReal(m, d);
    SignOfReal(2.0 * p.w.slotLoad, m * d);
  }

  lemma SignOfReal(w: real, x: real)
    requires w > 0.0
    ensures w * x <= 0.0 <==> x <= 0.0
    ensures w * x == 0.0 <==> x == 0.0
    ensures w * x > 0.0 <==> x > 0.0
  {}

  /** A slot costs nothing exactly at the target. */
  lemma LoadAtTarget(p: Problem, seats: int)
    requires p.w.slotLoad > 0.0
    ensures LoadPenalty(p, seats) >= 0.0 && (LoadPenalty(p, seats) == 0.0 <==> seats as real == p.w.targetLoad)
  {
    var d := seats as real - p.w.targetLoad;
    if d > 0.0 { SignOfReal(d, d); } else if d < 0.0 { SignOfReal(-d, -d); }
    assert d * d >= 0.0 && (d * d == 0.0 <==> d == 0.0);
    SignOfReal(p.w.slotLoad, d * d);
    assert LoadPenalty(p, seats) == p.w.slotLoad * (d * d);
  }

  // ----- T-building fill and overflow -----

  /** At equal weights, unused minus overflowing seats are the booked minus the placed ones. */
  lemma FillBalance(p: Problem, s: int, exahm: int, seb: int)
    requires IsSlot(p, s) && p.w.tbauFill == p.w.overflowSeat
    ensures TbauPenalty(p, s, exahm, seb) - OverflowPenalty(p, s, exahm, seb)
            == p.w.tbauFill * (p.slots[s].exahmSeats + p.slots[s].sebSeats - exahm - seb) as real
  {
    var booked, unused, over := p.slots[s].exahmSeats + p.slots[s].sebSeats - exahm - seb,
      Positive(p.slots[s].exahmSeats - exahm) + Positive(p.slots[s].sebSeats - seb),
      Positive(exahm - p.slots[s].exahmSeats) + Positive(seb - p.slots[s].sebSeats);
    Spread(p.w.tbauFill, unused, over, booked);
  }

  lemma Spread(w: real, a: int, b: int, c: int)
    requires a - b == c
    ensures w * a as real - w * b as real == w * c as real
  {}

  /** The fill term vanishes exactly when all booked seats are taken. */
  lemma FilledExact(p: Problem, s: int, exahm: int, seb: int)
    requires IsSlot(p, s) && p.w.tbauFill > 0.0
    ensures TbauPenalty(p, s, exahm, seb) >= 0.0
    ensures TbauPenalty(p, s, exahm, seb) == 0.0 <==> exahm >= p.slots[s].exahmSeats && seb >= p.slots[s].sebSeats
  {
    var unused := Positive(p.slots[s].exahmSeats - exahm) + Positive(p.slots[s].sebSeats - seb);
    SignOfReal(p.w.tbauFill, unused as real);
  }

  // ----- start times -----

  /** A unit is charged for its start time exactly if it is placed in a slot outside the window, has
      registrations and needs no T-building rooms. */
  lemma TimeCharged(p: Problem, u: int, s: int)
    requires IsUnit(p, u) && p.units[u].seats >= 0 && p.w.timeOfDay > 0.0 && NonNegativeTimes(p)
    ensures TimePenalty(p, u, s) >= 0.0
    ensures TimePenalty(p, u, s) > 0.0 <==>
            0 <= s < |p.severity| && p.severity[s] > 0.0 && p.units[u].seats > 0 && !p.units[u].exahm && !p.units[u].seb
  {
    if 0 <= s < |p.severity| {
      var rate := p.w.timeOfDay * p.severity[s];
      SignOfReal(p.w.timeOfDay, p.severity[s]);
      if rate > 0.0 { SignOfReal(rate, p.units[u].seats as real); } else { assert rate == 0.0; }
    }
  }

  // ----- students -----

  /** The same burden costs more on one student than spread over two, by twice the worst-case weight. */
  lemma WorstCaseExact(p: Problem, a: real, b: real)
    ensures SpreadOf(p, a + b) == SpreadOf(p, a) + SpreadOf(p, b) + 2.0 * p.w.worstCase * (a * b)
    ensures SpreadOf(p, 0.0) == 0.0
  {
    Binomial(p.w.worstCase, a, b);
  }

  lemma Binomial(w: real, a: real, b: real)
    ensures w * (a + b) * (a + b) == w * a * a + w * b * b + 2.0 * w * (a * b)
  {}

  lemma AsSpread(p: Problem, ps: real)
    ensures SpreadOf(p, ps) == ps + Quadratic(p.w.worstCase, ps)
  {}

  lemma SpreadShift(p: Problem, a: real, b: real, n: real)
    ensures SpreadOf(p, a - n) + SpreadOf(p, b + n) - SpreadOf(p, a) - SpreadOf(p, b) == 2.0 * p.w.worstCase * (n * (b + n - a))
  {
    AsSpread(p, a);
    AsSpread(p, b);
    AsSpread(p, a - n);
    AsSpread(p, b + n);
    QuadraticShift(p.w.worstCase, a, b, n);
  }

  /** Exact: shifting a burden n from a student with a to one with b lowers the spread if and only if the
      second ends up with less than the first had. */
  lemma FairerIsCheaper(p: Problem, a: real, b: real, n: real)
    requires p.w.worstCase > 0.0 && n > 0.0
    ensures SpreadOf(p, a - n) + SpreadOf(p, b + n) < SpreadOf(p, a) + SpreadOf(p, b) <==> b + n < a
  {
    SpreadShift(p, a, b, n);
    var d := b + n - a;
    SignOfReal(n, d);
    SignOfReal(2.0 * p.w.worstCase, n * d);
  }

  /** A student's penalty adds up over their pairs, however they are listed. */
  lemma {:induction false} PenaltyAdds(p: Problem, slotOf: seq<int>, a: seq<Pair>, b: seq<Pair>)
    requires Assignment(p, slotOf) && ValidPairs(p, a) && ValidPairs(p, b) && ValidDays(p)
    ensures ValidPairs(p, a + b) && StudentPenalty(p, slotOf, a + b) == StudentPenalty(p, slotOf, a) + StudentPenalty(p, slotOf, b)
  {
    if b == [] {
      assert a + b == a;
    } else {
      var front := b[..|b| - 1];
      PenaltyAdds(p, slotOf, a, front);
      assert (a + b)[..|a + b| - 1] == a + front;
    }
  }

  /** Both exams of a pair are placed, in different slots. */
  predicate Separate(p: Problem, slotOf: seq<int>, pr: Pair)
    requires Assignment(p, slotOf) && ValidPair(p, pr)
  {
    slotOf[pr.a] >= 0 && slotOf[pr.b] >= 0 && slotOf[pr.a] != slotOf[pr.b]
  }

  /** A pair at two campuses costs the travel weight more than one at one campus, exactly when both exams
      are on one day. */
  lemma TravelCharge(p: Problem, slotOf: seq<int>, pr: Pair)
    requires Assignment(p, slotOf) && ValidPair(p, pr) && ValidDays(p)
    ensures PairPenalty(p, slotOf, pr.(crossLoc := true)) - PairPenalty(p, slotOf, pr.(crossLoc := false)) ==
            if Separate(p, slotOf, pr) && p.dayOfSlot[slotOf[pr.a]] == p.dayOfSlot[slotOf[pr.b]] then pr.weight * p.w.crossCampus else 0.0
  {}

  /** With positive weights a pair costs nothing exactly if an exam is unplaced or both share a slot. */
  lemma PairFreeExact(p: Problem, slotOf: seq<int>, pr: Pair)
    requires Assignment(p, slotOf) && ValidPair(p, pr) && ValidDays(p) && pr.weight > 0.0 && p.w.crossCampus >= 0.0
    requires forall a, b :: IsSlot(p, a) && IsSlot(p, b) ==> p.closeness(a, b) > 0.0
    ensures PairPenalty(p, slotOf, pr) >= 0.0 && (PairPenalty(p, slotOf, pr) == 0.0 <==> !Separate(p, slotOf, pr))
  {
    var a, b := slotOf[pr.a], slotOf[pr.b];
    if Separate(p, slotOf, pr) {
      assert IsSlot(p, a) && IsSlot(p, b) && p.closeness(a, b) > 0.0;
      SignOfReal(pr.weight, p.closeness(a, b));
      SignOfReal(pr.weight, p.closeness(a, b) + p.w.crossCampus);
    }
  }

  /** Slots that count as closer cost a pair of one campus at least as much. */
  lemma CloserCostsMore(p: Problem, slotOf: seq<int>, slotOf': seq<int>, pr: Pair)
    requires Assignment(p, slotOf) && Assignment(p, slotOf') && ValidPair(p, pr) && ValidDays(p) && pr.weight >= 0.0 && !pr.crossLoc
    requires Separate(p, slotOf, pr) && Separate(p, slotOf', pr)
    requires p.closeness(slotOf[pr.a], slotOf[pr.b]) >= p.closeness(slotOf'[pr.a], slotOf'[pr.b])
    ensures PairPenalty(p, slotOf, pr) >= PairPenalty(p, slotOf', pr)
  {
    Ordered(pr.weight, p.closeness(slotOf'[pr.a], slotOf'[pr.b]), p.closeness(slotOf[pr.a], slotOf[pr.b]));
  }

  lemma Ordered(w: real, x: real, y: real)
    requires w >= 0.0 && x <= y
    ensures w * x <= w * y
  {}

  /** Attracted units cost their distance times the pair's weight, whatever the weight, and nothing while one
      of them is unplaced. */
  lemma PullExact(p: Problem, slotOf: seq<int>, a: int, b: int, weight: real)
    requires Assignment(p, slotOf) && IsUnit(p, a) && IsUnit(p, b)
    ensures AttractTerm(p, slotOf, a, b, weight) == weight * AttractTerm(p, slotOf, a, b, 1.0)
    ensures slotOf[a] < 0 || slotOf[b] < 0 ==> AttractTerm(p, slotOf, a, b, weight) == 0.0
    ensures slotOf[a] >= 0 && slotOf[b] >= 0 ==> AttractTerm(p, slotOf, a, b, 1.0) == p.farness(slotOf[a], slotOf[b])
  {}

  // ----- holes -----

  /** The own-occupied slots among the first n of a day. */
  function Occupied(own: seq<int>, day: seq<int>, n: nat): nat
    requires n <= |day| && forall k :: 0 <= k < |day| ==> 0 <= day[k] < |own|
  {
    if n == 0 then 0 else Occupied(own, day, n - 1) + (if own[day[n - 1]] > 0 then 1 else 0)
  }

  /** Own exams start at position first of the day and end at last. */
  ghost predicate Spans(own: seq<int>, day: seq<int>, first: int, last: int)
    requires forall k :: 0 <= k < |day| ==> 0 <= day[k] < |own|
  {
    && 0 <= first <= last < |day| && own[day[first]] > 0 && own[day[last]] > 0
    && forall k :: 0 <= k < |day| && own[day[k]] > 0 ==> first <= k <= last
  }

  lemma {:induction false} HoleSpanUpTo(own: seq<int>, day: seq<int>, first: int, last: int, n: nat)
    requires forall k :: 0 <= k < |day| ==> 0 <= day[k] < |own| && own[day[k]] >= 0
    requires Spans(own, day, first, last) && n <= |day|
    ensures HolesUpTo(own, day, n) + Occupied(own, day, n) == if n <= first then 0 else if n <= last then n - first else last + 1 - first
  {
    if n > 0 { HoleSpanUpTo(own, day, first, last, n - 1); }
  }

  /** Holes and own-occupied slots together are the span of the day from its first own exam to its last. */
  lemma HoleSpan(own: seq<int>, day: seq<int>, first: int, last: int)
    requires forall k :: 0 <= k < |day| ==> 0 <= day[k] < |own| && own[day[k]] >= 0
    requires Spans(own, day, first, last)
    ensures HolesUpTo(own, day, |day|) + Occupied(own, day, |day|) == last - first + 1
  {
    HoleSpanUpTo(own, day, first, last, |day|);
  }

  // ----- unplaced units and separations -----

  /** One hole and one unplaced unit more cost their weights. */
  lemma OneMore(p: Problem, n: int)
    ensures HoleCost(p, n + 1) - HoleCost(p, n) == p.w.hole && UnplacedCost(p, n + 1) - UnplacedCost(p, n) == p.w.unplaced
    ensures HoleCost(p, 0) == 0.0 && UnplacedCost(p, 0) == 0.0
  {}

  /** No unit counts as unplaced exactly if every movable one is placed. */
  lemma {:induction false} AllPlacedExact(p: Problem, slotOf: seq<int>, n: nat)
    requires Assignment(p, slotOf) && n <= |slotOf|
    ensures Unplaced(p, slotOf, n) == 0 <==> forall u :: 0 <= u < n && Movable(p, u) ==> slotOf[u] >= 0
  {
    if n > 0 { AllPlacedExact(p, slotOf, n - 1); }
  }

  /** Two units always overlap at the same start; without separations nowhere else. */
  lemma SameStartOverlaps(p: Problem, u: int, su: int, v: int, sv: int)
    requires Valid(p) && IsSlot(p, su) && IsSlot(p, sv)
    ensures p.slots[su].start == p.slots[sv].start ==> Overlaps(p, u, su, v, sv)
    ensures (u, v) !in p.hardSep && (v, u) !in p.hardSep ==> (Overlaps(p, u, su, v, sv) <==> p.slots[su].start == p.slots[sv].start)
  {}
}
