/** What every run of the search keeps, exactly when no run can cost a student the time between two exams,
    and whole runs from the constructive start to the schedule. */
module ExamPlanRuns {
  import opened ExamPlanProblem
  import opened ExamPlanLoads
  import opened ExamPlanCost
  import opened ExamPlanHard
  import opened ExamPlanState
  import opened ExamPlanSwaps
  import opened ExamPlanStart
  import opened ExamPlanSolve
  import opened UnevenRun

  // ----- what a run keeps -----

  lemma AppliedKeepsCapacity(p: Problem, now: seq<int>, m: Move)
    requires Valid(p) && Assignment(p, now) && Proposable(p, m) && Permitted(p, now, m)
    ensures NoNewCapacity(p, now, Applied(p, now, m))
  {
    match m {
      case Relocate(u, s) => RelocateKeepsHard(p, now, u, s);
      case Swap(u, v) => SwapKeepsCapacity(p, now, u, v);
    }
  }

  lemma StepKeepsCapacity(p: Problem, cfg: Settings, now: seq<int>, m: Move, coin: bool, tried: seq<int>, next: seq<int>)
    requires Valid(p) && StepOf(p, cfg, now, m, coin, tried, next)
    ensures Assignment(p, next) && NoNewCapacity(p, now, next)
  {
    if Permitted(p, now, m) { AppliedKeepsCapacity(p, now, m); }
  }

  /** Wherever a run stands, no slot is fuller than allowed that was not so before, fixed units stay, and
      moved units are in their domains. */
  lemma {:induction false} RunKeepsCapacity(p: Problem, cfg: Settings, moves: seq<Move>, coins: seq<bool>, trail: seq<seq<int>>, visited: seq<seq<int>>, k: nat)
    requires Valid(p) && Run(p, cfg, moves, coins, trail, visited) && k < |trail|
    ensures Assignment(p, trail[k]) && NoNewCapacity(p, trail[0], trail[k])
  {
    if k > 0 {
      RunKeepsCapacity(p, cfg, moves, coins, trail, visited, k - 1);
      assert RunStep(p, cfg, moves, coins, trail, visited, k - 1);
      StepKeepsCapacity(p, cfg, trail[k - 1], moves[k - 1], coins[k - 1], visited[k], trail[k]);
      NoNewTrans(p, trail[0], trail[k - 1], trail[k]);
    }
  }

  lemma FixedStay(p: Problem, a: seq<int>, b: seq<int>)
    requires Valid(p) && FixedPlaced(p, a) && Assignment(p, b) && NoNewCapacity(p, a, b)
    ensures FixedPlaced(p, b)
  {
    forall u | IsUnit(p, u) && p.units[u].fixed ensures b[u] == p.units[u].fixedSlot {
      assert UnitKept(p, a, b, u);
    }
  }

  // ----- which moves a run takes -----

  /** How a run judges a permitted move: a cheaper one is always taken, an equally dear one unless the run is
      strict, and a dearer one only on a lucky coin in a run that is not strict. */
  lemma StepJudged(p: Problem, cfg: Settings, moves: seq<Move>, coins: seq<bool>, trail: seq<seq<int>>, visited: seq<seq<int>>, k: nat)
    requires Valid(p) && Run(p, cfg, moves, coins, trail, visited) && k < |trail| - 1
    ensures var now, after, m := trail[k], trail[k + 1], moves[k];
            && Assignment(p, now) && Proposable(p, m) && (after == now || (Permitted(p, now, m) && after == Applied(p, now, m)))
            && (Permitted(p, now, m) ==> visited[k + 1] == Applied(p, now, m))
            && (Permitted(p, now, m) && FullCost(p, Applied(p, now, m)) < FullCost(p, now) ==> after == Applied(p, now, m))
            && (Permitted(p, now, m) && FullCost(p, Applied(p, now, m)) == FullCost(p, now) && !cfg.strict ==> after == Applied(p, now, m))
            && (after != now && FullCost(p, after) == FullCost(p, now) ==> !cfg.strict)
            && (after != now && FullCost(p, after) > FullCost(p, now) ==> !cfg.strict && coins[k])
  {
    assert RunStep(p, cfg, moves, coins, trail, visited, k);
  }

  /** A strict run only ever descends, and wherever it moved the cost fell. */
  lemma {:induction false} StrictDescends(p: Problem, cfg: Settings, moves: seq<Move>, coins: seq<bool>, trail: seq<seq<int>>, visited: seq<seq<int>>,
                                          j: nat, k: nat)
    requires Valid(p) && Run(p, cfg, moves, coins, trail, visited) && cfg.strict && j <= k < |trail|
    ensures Assignment(p, trail[j]) && Assignment(p, trail[k]) && FullCost(p, trail[k]) <= FullCost(p, trail[j])
    ensures trail[k] != trail[j] ==> FullCost(p, trail[k]) < FullCost(p, trail[j])
  {
    if j < k {
      StrictDescends(p, cfg, moves, coins, trail, visited, j, k - 1);
      StepJudged(p, cfg, moves, coins, trail, visited, k - 1);
    } else {
      RunKeepsCapacity(p, cfg, moves, coins, trail, visited, k);
    }
  }

  /** ... so it ends where it is cheapest. */
  lemma StrictEndsCheapest(p: Problem, cfg: Settings, moves: seq<Move>, coins: seq<bool>, trail: seq<seq<int>>, visited: seq<seq<int>>, i: nat, cost: real)
    requires Valid(p) && Run(p, cfg, moves, coins, trail, visited) && cfg.strict && FirstCheapest(p, trail, visited, i, cost)
    ensures trail[|trail| - 1] == trail[i]
  {
    var n := |trail| - 1;
    StrictDescends(p, cfg, moves, coins, trail, visited, i, n);
    if n > 0 { assert RunStep(p, cfg, moves, coins, trail, visited, n - 1); }
    VisitedLast(p, cfg, moves, coins, trail, visited, n);
  }

  /** Where a run stands, it has visited. */
  lemma {:induction false} VisitedLast(p: Problem, cfg: Settings, moves: seq<Move>, coins: seq<bool>, trail: seq<seq<int>>, visited: seq<seq<int>>, k: nat)
    requires Valid(p) && Run(p, cfg, moves, coins, trail, visited) && k < |trail|
    ensures exists h :: 0 <= h <= k && visited[h] == trail[k]
  {
    if k > 0 {
      assert RunStep(p, cfg, moves, coins, trail, visited, k - 1);
      if trail[k] == trail[k - 1] {
        VisitedLast(p, cfg, moves, coins, trail, visited, k - 1);
      } else {
        assert visited[k] == trail[k];
      }
    }
  }

  // ----- when no run brings a clash -----

  /** Not a swap of two conflicting units with different separations. */
  ghost predicate EvenMove(p: Problem, m: Move) {
    m.Swap? && Conflict(p, m.u, m.v) ==> SepMinutes(p, m.u, m.v) == SepMinutes(p, m.v, m.u)
  }

  ghost predicate EvenMoves(p: Problem, moves: seq<Move>) {
    forall i :: 0 <= i < |moves| ==> EvenMove(p, moves[i])
  }

  lemma ClashCarries(p: Problem, before: seq<int>, after: seq<int>)
    requires Assignment(p, before) && Assignment(p, after) && NoNewClash(p, before, after) && ClashFree(p, before)
    ensures ClashFree(p, after)
  {
    forall u, v ensures !Clash(p, after, u, v) { assert !Clash(p, before, u, v); }
  }

  lemma SafeMove(p: Problem, now: seq<int>, m: Move)
    requires Valid(p) && FixedPlaced(p, now) && ClashFree(p, now) && Proposable(p, m) && Permitted(p, now, m)
    requires SwapsSafe(p) || EvenMove(p, m)
    ensures ClashFree(p, Applied(p, now, m))
  {
    match m {
      case Relocate(u, s) =>
        RelocateKeepsHard(p, now, u, s);
        ClashCarries(p, now, now[u := s]);
      case Swap(u, v) =>
        if !ClashFree(p, Swapped(now, u, v)) {
          ClashingSwapIsUnsafe(p, now, u, v);
          assert !Clash(p, now, u, v);
          if SepMinutes(p, u, v) == SepMinutes(p, v, u) {
            SymmetricSeparationSafe(p, now, u, v);
            ClashCarries(p, now, Swapped(now, u, v));
          }
        }
    }
  }

  /** From a clash-free start a run stays free of clashes if the problem has no unsafe swap, or if its own
      swaps are even. */
  lemma {:induction false} RunKeepsClashFree(p: Problem, cfg: Settings, moves: seq<Move>, coins: seq<bool>, trail: seq<seq<int>>, visited: seq<seq<int>>, k: nat)
    requires Valid(p) && Run(p, cfg, moves, coins, trail, visited) && k < |trail|
    requires FixedPlaced(p, trail[0]) && ClashFree(p, trail[0]) && (SwapsSafe(p) || EvenMoves(p, moves))
    ensures FixedPlaced(p, trail[k]) && ClashFree(p, trail[k])
  {
    if k > 0 {
      RunKeepsClashFree(p, cfg, moves, coins, trail, visited, k - 1);
      assert RunStep(p, cfg, moves, coins, trail, visited, k - 1);
      StepKeepsCapacity(p, cfg, trail[k - 1], moves[k - 1], coins[k - 1], visited[k], trail[k]);
      FixedStay(p, trail[k - 1], trail[k]);
      if Taken(p, cfg, trail[k - 1], moves[k - 1], coins[k - 1]) { SafeMove(p, trail[k - 1], moves[k - 1]); }
    }
  }

  /** A run that starts without a clash and stands at one later. */
  ghost predicate ClashingRun(p: Problem, cfg: Settings, moves: seq<Move>, coins: seq<bool>, trail: seq<seq<int>>, visited: seq<seq<int>>, k: nat)
    requires Valid(p)
  {
    && Run(p, cfg, moves, coins, trail, visited) && k < |trail|
    && FixedPlaced(p, trail[0]) && ClashFree(p, trail[0])
    && Assignment(p, trail[k]) && !ClashFree(p, trail[k])
  }

  /** Main result: some run leads from a clash-free assignment to a clash exactly if the problem has an
      unsafe swap -- two movable units that, alone in two slots, are far enough apart one way round, not the
      other, and may be swapped. */
  lemma RunsSafeExact(p: Problem)
    requires Valid(p)
    ensures SwapsSafe(p) <==> forall cfg, moves, coins, trail, visited, k :: !ClashingRun(p, cfg, moves, coins, trail, visited, k)
  {
    if SwapsSafe(p) {
      forall cfg, moves, coins, trail, visited, k ensures !ClashingRun(p, cfg, moves, coins, trail, visited, k) {
        if ClashingRun(p, cfg, moves, coins, trail, visited, k) {
          RunKeepsClashFree(p, cfg, moves, coins, trail, visited, k);
        }
      }
    } else {
      var u, s, v, t :| UnsafeSwap(p, u, s, v, t);
      UnsafeRun(p, u, s, v, t);
    }
  }

  lemma OneMoveRun(p: Problem, cfg: Settings, now: seq<int>, m: Move, coin: bool, tried: seq<int>, next: seq<int>)
    requires Valid(p) && StepOf(p, cfg, now, m, coin, tried, next)
    ensures Run(p, cfg, [m], [coin], [now, next], [now, tried])
  {
    assert RunStep(p, cfg, [m], [coin], [now, next], [now, tried], 0);
  }

  /** A permitted swap is taken in a search that accepts every move. */
  lemma SwapTaken(p: Problem, now: seq<int>, u: int, v: int)
    requires Valid(p) && Assignment(p, now) && Movable(p, u) && Movable(p, v) && u != v && CanSwap(p, now, u, v)
    ensures StepOf(p, Settings(false, false, 0), now, Swap(u, v), true, Swapped(now, u, v), Swapped(now, u, v))
  {
    assert Permitted(p, now, Swap(u, v));
  }

  lemma ClashingSwapRun(p: Problem, now: seq<int>, u: int, v: int)
    requires Valid(p) && FixedPlaced(p, now) && ClashFree(p, now) && Movable(p, u) && Movable(p, v) && u != v && CanSwap(p, now, u, v)
    requires Assignment(p, Swapped(now, u, v)) && Clash(p, Swapped(now, u, v), u, v)
    ensures ClashingRun(p, Settings(false, false, 0), [Swap(u, v)], [true], [now, Swapped(now, u, v)], [now, Swapped(now, u, v)], 1)
  {
    SwapTaken(p, now, u, v);
    OneMoveRun(p, Settings(false, false, 0), now, Swap(u, v), true, Swapped(now, u, v), Swapped(now, u, v));
  }

  /** One accepted unsafe swap is such a run. */
  lemma UnsafeRun(p: Problem, u: int, s: int, v: int, t: int)
    requires Valid(p) && UnsafeSwap(p, u, s, v, t)
    ensures exists cfg, moves, coins, trail, visited, k :: ClashingRun(p, cfg, moves, coins, trail, visited, k)
  {
    UnsafeSwapClashes(p, u, s, v, t);
    ClashingSwapRun(p, Alone(p, u, s, v, t), u, v);
  }

  // ----- whole runs -----

  /** Main result for whole runs, whatever the random choices: the schedule is the first cheapest of
      everything the search visited and its cost the recomputed one; it starts from a plan to which no
      unplaced unit could be added; no slot is over capacity unless the fixed exams alone overfill it, every
      placed movable exam is in its domain and fixed exams stay; and without unsafe swaps -- or in a run
      whose swaps are even -- there is no student clash. */
  method Solve(p: Problem, start: seq<int>, cfg: Settings, moves: seq<Move>, coins: seq<bool>, calm: seq<bool>)
    returns (st: State, cost: real, ghost trail: seq<seq<int>>, ghost visited: seq<seq<int>>, ghost i: nat)
    requires Valid(p) && StartSlots(p, start)
    requires |coins| == |moves| && |calm| == |moves| && forall k :: 0 <= k < |moves| ==> Proposable(p, moves[k])
    ensures fresh(st) && st.p == p && Exact(p, st.Snapshot())
    ensures Run(p, cfg, moves, coins, trail, visited) && Handled(p, trail[0], {})
    ensures Extends(p, FixedPlan(p), WarmPlan(p, start, |start|)) && Extends(p, WarmPlan(p, start, |start|), trail[0])
    ensures FirstCheapest(p, trail, visited, i, cost) && st.slotOf == trail[i]
    ensures !cfg.stopWhenConverged ==> |trail| == |moves| + 1
    ensures NoNewCapacity(p, FixedPlan(p), st.slotOf)
    ensures SwapsSafe(p) || EvenMoves(p, moves) ==> ClashFree(p, st.slotOf)
  {
    st := Construct(p, start);
    ghost var first := st.slotOf;
    var stopped;
    cost, stopped, trail, visited, i := Anneal(st, cfg, moves, coins, calm);
    ExtendsTrans(p, FixedPlan(p), WarmPlan(p, start, |start|), first);
    RunKeepsCapacity(p, cfg, moves, coins, trail, visited, i);
    NoNewTrans(p, FixedPlan(p), first, st.slotOf);
    if SwapsSafe(p) || EvenMoves(p, moves) {
      FixedPlanClashFree(p);
      FixedStay(p, FixedPlan(p), first);
      RunKeepsClashFree(p, cfg, moves, coins, trail, visited, i);
    }
  }

  /** The units may swap, and the swap lowers the cost. */
  ghost predicate PayingSwap(p: Problem, now: seq<int>, u: int, v: int)
    requires Valid(p)
  {
    && Assignment(p, now) && Movable(p, u) && Movable(p, v) && u != v && CanSwap(p, now, u, v)
    && Assignment(p, Swapped(now, u, v)) && FullCost(p, Swapped(now, u, v)) < FullCost(p, now)
  }

  /** A run of one permitted swap that lowers the cost returns the swapped assignment. */
  lemma PayingSwapReturned(p: Problem, cfg: Settings, now: seq<int>, u: int, v: int, coin: bool,
                           trail: seq<seq<int>>, visited: seq<seq<int>>, i: nat, cost: real)
    requires Valid(p) && PayingSwap(p, now, u, v)
    requires Run(p, cfg, [Swap(u, v)], [coin], trail, visited) && |trail| == 2 && trail[0] == now
    requires FirstCheapest(p, trail, visited, i, cost)
    ensures trail[i] == Swapped(now, u, v)
  {
    assert RunStep(p, cfg, [Swap(u, v)], [coin], trail, visited, 0);
    assert Permitted(p, now, Swap(u, v));
    assert visited[1] == Swapped(now, u, v) && cost <= FullCost(p, visited[1]);
  }

  /** A complete current plan that a warm start keeps, and a swap that pays. */
  ghost predicate SwapReady(p: Problem, now: seq<int>, u: int, v: int) {
    && Valid(p) && PayingSwap(p, now, u, v) && StartSlots(p, now)
    && WarmPlan(p, now, |now|) == now && forall w :: IsUnit(p, w) ==> now[w] >= 0
  }

  /** Nothing can be added to a complete plan. */
  lemma CompletePlan(p: Problem, now: seq<int>, first: seq<int>)
    requires Valid(p) && Extends(p, now, first) && forall w :: IsUnit(p, w) ==> now[w] >= 0
    ensures first == now
  {}

  /** Improving a complete current plan by such a swap, accepting strictly cheaper moves only. */
  method SwapOnce(p: Problem, now: seq<int>, u: int, v: int) returns (slotOf: seq<int>)
    requires SwapReady(p, now, u, v)
    ensures slotOf == Swapped(now, u, v)
  {
    ghost var trail, visited, i;
    var st, cost;
    st, cost, trail, visited, i := Solve(p, now, Settings(true, false, 0), [Swap(u, v)], [false], [false]);
    CompletePlan(p, now, trail[0]);
    PayingSwapReturned(p, Settings(true, false, 0), now, u, v, false, trail, visited, i, cost);
    slotOf := st.slotOf;
  }

  /** Without seat caps and EXaHM only overlaps bind. */
  lemma FeasibleWithoutCaps(p: Problem, slotOf: seq<int>, u: int, s: int)
    requires Valid(p) && Assignment(p, slotOf) && IsUnit(p, u) && IsSlot(p, s) && NoOverlapAt(p, slotOf, u, s)
    requires p.slots[s].seats == 0 && !p.units[u].exahm && p.units[u].allowed == []
    ensures Feasible(p, slotOf, u, s)
  {}

  /** The long exam goes second first, then the short one before it. */
  lemma UnevenFits()
    ensures var p := UnevenPair();
            && Valid(p) && Assignment(p, [-1, -1]) && Feasible(p, [-1, -1], 0, 1)
            && Assignment(p, [1, -1]) && Feasible(p, [1, -1], 1, 0)
  {
    var p := UnevenPair();
    UnevenPairValid();
    forall v ensures !(Conflict(p, 1, v) && v != 0) { UnevenConflicts(1, v); }
    FeasibleWithoutCaps(p, [-1, -1], 0, 1);
    FeasibleWithoutCaps(p, [1, -1], 1, 0);
  }

  lemma UnevenWarm()
    ensures var p := UnevenPair(); Valid(p) && StartSlots(p, [1, 0]) && WarmPlan(p, [1, 0], 2) == [1, 0]
  {
    var p := UnevenPair();
    UnevenFits();
    assert FixedPlan(p) == [-1, -1];
    assert WarmPlan(p, [1, 0], 1) == [1, -1];
  }

  lemma Pays(p: Problem, now: seq<int>, after: seq<int>, u: int, v: int, x: real, y: real)
    requires Valid(p) && Assignment(p, now) && Movable(p, u) && Movable(p, v) && u != v && CanSwap(p, now, u, v)
    requires Assignment(p, after) && after == Swapped(now, u, v)
    requires FullCost(p, now) == x && FullCost(p, after) == y && y < x
    ensures PayingSwap(p, now, u, v)
  {}

  lemma UnevenPays()
    ensures Valid(UnevenPair()) && PayingSwap(UnevenPair(), [1, 0], 0, 1)
  {
    UnevenPermitted();
    var p, now, after := UnevenPair(), [1, 0], [0, 1];
    assert after == Swapped(now, 0, 1);
    UnevenCost(now);
    UnevenCost(after);
    Pays(p, now, after, 0, 1, 2.0, 1.0);
  }

  lemma UnevenReady()
    ensures SwapReady(UnevenPair(), [1, 0], 0, 1)
  {
    UnevenWarm();
    UnevenPays();
  }

  /** From the current plan [1, 0] the run ends in [0, 1]. */
  method UnevenSolve() returns (slotOf: seq<int>)
    ensures slotOf == [0, 1]
  {
    var now := [1, 0];
    UnevenReady();
    slotOf := SwapOnce(UnevenPair(), now, 0, 1);
  }

  /** A run that ends with a clash: the current plan is free of clashes, one swap is proposed, and although
      only strictly cheaper moves are taken, the schedule returned leaves a student 120 minutes where exam
      and way take 210. */
  method SolveReturnsClash() returns (slotOf: seq<int>)
    ensures var p := UnevenPair();
            && Assignment(p, [1, 0]) && ClashFree(p, [1, 0])
            && Assignment(p, slotOf) && Clash(p, slotOf, 0, 1)
  {
    slotOf := UnevenSolve();
    UnevenClashes();
  }
}
