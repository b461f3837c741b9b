/** The search over states: annealing with undo and best-state memory on top of the constructive start.
    Random choices are parameters, so every statement holds for every run. */
module ExamPlanSolve {
  import opened Options
  import opened ExamPlanProblem
  import opened ExamPlanLoads
  import opened ExamPlanHard
  import opened ExamPlanCost
  import opened ExamPlanState

  /** A proposed random move. */
  datatype Move = Relocate(u: int, s: int) | Swap(u: int, v: int)

  predicate Proposable(p: Problem, m: Move) {
    match m
    case Relocate(u, s) => Movable(p, u) && IsSlot(p, s)
    case Swap(u, v) => Movable(p, u) && Movable(p, v)
  }

  /** The move passes the hard checks. */
  ghost predicate Permitted(p: Problem, slotOf: seq<int>, m: Move)
    requires Valid(p) && Assignment(p, slotOf) && Proposable(p, m)
  {
    match m
    case Relocate(u, s) => s != slotOf[u] && Feasible(p, slotOf, u, s)
    case Swap(u, v) => u != v && CanSwap(p, slotOf, u, v)
  }

  function Applied(p: Problem, slotOf: seq<int>, m: Move): (r: seq<int>)
    requires |slotOf| == |p.units| && Proposable(p, m)
    ensures Assignment(p, slotOf) ==> Assignment(p, r)
  {
    match m
    case Relocate(u, s) => slotOf[u := s]
    case Swap(u, v) => Swapped(slotOf, u, v)
  }

  // ----- proposing and taking back -----

  datatype Step = One(undo: Undo) | Two(first: Undo, second: Undo)

  /** The step leads from before (through mid, for a swap) to the assignment after. */
  ghost predicate StepFrom(p: Problem, step: Step, before: Image, mid: Image, after: seq<int>)
    requires Valid(p) && Exact(p, before) && Exact(p, mid)
  {
    match step
    case One(undo) => UndoFor(p, undo, before) && |after| == |p.units| && after == before.slotOf[undo.u := after[undo.u]]
    case Two(first, second) =>
      && UndoFor(p, first, before) && mid.slotOf == before.slotOf[first.u := mid.slotOf[first.u]]
      && UndoFor(p, second, mid) && |after| == |p.units| && after == mid.slotOf[second.u := after[second.u]]
  }

  method ProposeRelocate(st: State, u: int, s: int) returns (step: Option<Step>)
    requires Valid(st.p) && Exact(st.p, st.Snapshot()) && Movable(st.p, u) && IsSlot(st.p, s)
    modifies st
    ensures Exact(st.p, st.Snapshot())
    ensures step.None? ==> st.Snapshot() == old(st.Snapshot())
    ensures step.Some? <==> s != old(st.slotOf)[u] && Feasible(st.p, old(st.slotOf), u, s)
    ensures step.Some? ==> st.slotOf == old(st.slotOf)[u := s] && step.value.One? && UndoFor(st.p, step.value.undo, old(st.Snapshot())) && step.value.undo.u == u
  {
    if s == st.slotOf[u] { return None; }
    var ok := st.MayEnter(u, s);
    if !ok { return None; }
    var undo := st.MoveUnit(u, s);
    step := Some(One(undo));
  }

  method ProposeSwap(st: State, u: int, v: int) returns (step: Option<Step>, ghost mid: Image)
    requires Valid(st.p) && Exact(st.p, st.Snapshot()) && Movable(st.p, u) && Movable(st.p, v)
    modifies st
    ensures Exact(st.p, st.Snapshot()) && Exact(st.p, mid)
    ensures step.None? ==> st.Snapshot() == old(st.Snapshot())
    ensures step.Some? <==> u != v && CanSwap(st.p, old(st.slotOf), u, v)
    ensures step.Some? ==> st.slotOf == Swapped(old(st.slotOf), u, v) && StepFrom(st.p, step.value, old(st.Snapshot()), mid, st.slotOf)
  {
    mid := st.Snapshot();
    if u == v { return None, mid; }
    var ok := st.MaySwap(u, v);
    if !ok { return None, mid; }
    var su, sv := st.slotOf[u], st.slotOf[v];
    var first := st.MoveUnit(u, sv);
    mid := st.Snapshot();
    var second := st.MoveUnit(v, su);
    step := Some(Two(first, second));
  }

  /** Applies a permitted move; None skips the step and leaves the state alone. */
  method Propose(st: State, m: Move) returns (step: Option<Step>, ghost mid: Image)
    requires Valid(st.p) && Exact(st.p, st.Snapshot()) && Proposable(st.p, m)
    modifies st
    ensures Exact(st.p, st.Snapshot()) && Exact(st.p, mid)
    ensures step.None? ==> st.Snapshot() == old(st.Snapshot())
    ensures step.Some? <==> Permitted(st.p, old(st.slotOf), m)
    ensures step.Some? ==> st.slotOf == Applied(st.p, old(st.slotOf), m) && StepFrom(st.p, step.value, old(st.Snapshot()), mid, st.slotOf)
  {
    match m {
      case Relocate(u, s) =>
        mid := st.Snapshot();
        step := ProposeRelocate(st, u, s);
      case Swap(u, v) =>
        step, mid := ProposeSwap(st, u, v);
    }
  }

  /** The undo closure: last move first. */
  method Reject(st: State, step: Step, ghost before: Image, ghost mid: Image)
    requires Valid(st.p) && Exact(st.p, before) && Exact(st.p, mid) && Exact(st.p, st.Snapshot())
    requires StepFrom(st.p, step, before, mid, st.slotOf)
    modifies st
    ensures st.Snapshot() == before
  {
    match step {
      case One(undo) =>
        st.TakeBack(undo, before);
      case Two(first, second) =>
        st.TakeBack(second, mid);
        st.TakeBack(first, before);
    }
  }

  // ----- annealing -----

  datatype Settings = Settings(strict: bool, stopWhenConverged: bool, stagnationLimit: int)

  /** Metropolis acceptance; the coin stands for the random draw. */
  predicate Accepts(cfg: Settings, delta: real, coin: bool) {
    if cfg.strict then delta < 0.0 else delta <= 0.0 || coin
  }

  /** The assignment a step tries: the proposed move if it is permitted. */
  ghost function Tried(p: Problem, now: seq<int>, m: Move): (r: seq<int>)
    requires Valid(p) && Assignment(p, now) && Proposable(p, m)
    ensures Assignment(p, r)
  {
    if Permitted(p, now, m) then Applied(p, now, m) else now
  }

  /** The move is permitted and accepted. */
  ghost predicate Taken(p: Problem, cfg: Settings, now: seq<int>, m: Move, coin: bool)
    requires Valid(p) && Assignment(p, now) && Proposable(p, m)
  {
    Permitted(p, now, m) && Accepts(cfg, FullCost(p, Tried(p, now, m)) - FullCost(p, now), coin)
  }

  /** One step of a run: what it tries, and where it stands afterwards. */
  ghost predicate StepOf(p: Problem, cfg: Settings, now: seq<int>, m: Move, coin: bool, tried: seq<int>, next: seq<int>)
    requires Valid(p)
  {
    && Assignment(p, now) && Proposable(p, m) && tried == Tried(p, now, m)
    && next == if Taken(p, cfg, now, m, coin) then tried else now
  }

  /** A run of the search: the assignments it stood at and those it tried, the start first in both. */
  ghost predicate Run(p: Problem, cfg: Settings, moves: seq<Move>, coins: seq<bool>, trail: seq<seq<int>>, visited: seq<seq<int>>)
    requires Valid(p)
  {
    && 1 <= |trail| == |visited| <= |moves| + 1 && |coins| == |moves|
    && Assignment(p, trail[0]) && visited[0] == trail[0]
    && forall k {:trigger RunStep(p, cfg, moves, coins, trail, visited, k)} :: 0 <= k < |trail| - 1 ==> RunStep(p, cfg, moves, coins, trail, visited, k)
  }

  ghost predicate RunStep(p: Problem, cfg: Settings, moves: seq<Move>, coins: seq<bool>, trail: seq<seq<int>>, visited: seq<seq<int>>, k: nat)
    requires Valid(p) && k < |trail| - 1 && |trail| == |visited| <= |moves| + 1 && |coins| == |moves|
  {
    StepOf(p, cfg, trail[k], moves[k], coins[k], visited[k + 1], trail[k + 1])
  }

  lemma RunGrows(p: Problem, cfg: Settings, moves: seq<Move>, coins: seq<bool>, trail: seq<seq<int>>, visited: seq<seq<int>>,
                 tried: seq<int>, next: seq<int>)
    requires Valid(p) && Run(p, cfg, moves, coins, trail, visited) && |trail| <= |moves|
    requires StepOf(p, cfg, trail[|trail| - 1], moves[|trail| - 1], coins[|trail| - 1], tried, next)
    ensures Run(p, cfg, moves, coins, trail + [next], visited + [tried])
  {
    var trail', visited' := trail + [next], visited + [tried];
    forall k | 0 <= k < |trail'| - 1 ensures RunStep(p, cfg, moves, coins, trail', visited', k) {
      if k < |trail| - 1 { assert RunStep(p, cfg, moves, coins, trail, visited, k); }
    }
  }

  /** Entry i of the trail is the first cheapest of everything the run visited. */
  ghost predicate FirstCheapest(p: Problem, trail: seq<seq<int>>, visited: seq<seq<int>>, i: nat, cost: real)
    requires Valid(p)
  {
    && i < |trail| && Assignment(p, trail[i]) && FullCost(p, trail[i]) == cost
    && (forall k :: 0 <= k < |visited| ==> Assignment(p, visited[k]) && cost <= FullCost(p, visited[k]))
    && (forall k :: 0 <= k < i ==> Assignment(p, trail[k]) && cost < FullCost(p, trail[k]))
  }

  lemma CheapestStays(p: Problem, trail: seq<seq<int>>, visited: seq<seq<int>>, i: nat, cost: real, tried: seq<int>, next: seq<int>)
    requires Valid(p) && FirstCheapest(p, trail, visited, i, cost) && Assignment(p, tried) && cost <= FullCost(p, tried)
    ensures FirstCheapest(p, trail + [next], visited + [tried], i, cost)
  {}

  lemma CheapestImproves(p: Problem, trail: seq<seq<int>>, visited: seq<seq<int>>, i: nat, cost: real, next: seq<int>)
    requires Valid(p) && FirstCheapest(p, trail, visited, i, cost) && Assignment(p, next) && FullCost(p, next) < cost
    requires forall k :: 0 <= k < |trail| ==> Assignment(p, trail[k]) && cost <= FullCost(p, trail[k])
    ensures FirstCheapest(p, trail + [next], visited + [next], |trail|, FullCost(p, next))
  {}

  /** One iteration: propose, judge, keep or take back. */
  method TryMove(st: State, cfg: Settings, m: Move, coin: bool, cost: real) returns (accepted: bool, newCost: real)
    requires Valid(st.p) && Exact(st.p, st.Snapshot()) && Proposable(st.p, m) && cost == CostOf(st.p, st.totals)
    modifies st
    ensures Exact(st.p, st.Snapshot()) && newCost == CostOf(st.p, st.totals)
    ensures accepted <==> Taken(st.p, cfg, old(st.slotOf), m, coin)
    ensures accepted ==> st.slotOf == Tried(st.p, old(st.slotOf), m)
    ensures !accepted ==> st.Snapshot() == old(st.Snapshot())
  {
    ghost var before := st.Snapshot();
    CostExact(st.p, before);
    var step, mid := Propose(st, m);
    if step.None? { return false, cost; }
    CostExact(st.p, st.Snapshot());
    newCost := CostOf(st.p, st.totals);
    accepted := Accepts(cfg, newCost - cost, coin);
    if !accepted {
      Reject(st, step.value, before, mid);
      newCost := cost;
    }
  }

  /** The running cost and the best state so far. */
  datatype Search = Search(cost: real, best: Image, bestCost: real, bestIter: nat)

  /** The iteration that led to entry i of the trail. */
  function FoundAt(i: nat): nat { if i == 0 then 0 else i - 1 }

  /** The state stands at the end of the trail, the memory holds entry i, the first cheapest. */
  ghost predicate Tracked(p: Problem, trail: seq<seq<int>>, visited: seq<seq<int>>, now: Image, sr: Search, i: nat)
    requires Valid(p)
  {
    && Exact(p, now) && trail != [] && now.slotOf == trail[|trail| - 1] && sr.cost == CostOf(p, now.totals)
    && Exact(p, sr.best) && i < |trail| && sr.best.slotOf == trail[i] && sr.bestCost == CostOf(p, sr.best.totals)
    && FirstCheapest(p, trail, visited, i, sr.bestCost) && sr.bestIter == FoundAt(i)
    && (forall k :: 0 <= k < |trail| ==> Assignment(p, trail[k]) && sr.bestCost <= FullCost(p, trail[k]))
  }

  lemma TrackStart(p: Problem, now: Image)
    requires Valid(p) && Exact(p, now)
    ensures Tracked(p, [now.slotOf], [now.slotOf], now, Search(CostOf(p, now.totals), now, CostOf(p, now.totals), 0), 0)
  {
    CostExact(p, now);
  }

  /** A rejected or equally cheap step leaves the memory alone. */
  lemma TrackKept(p: Problem, trail: seq<seq<int>>, visited: seq<seq<int>>, was: Image, now: Image, sr: Search, i: nat, tried: seq<int>)
    requires Valid(p) && Tracked(p, trail, visited, was, sr, i) && Exact(p, now)
    requires Assignment(p, tried) && sr.bestCost <= FullCost(p, tried) && sr.bestCost <= CostOf(p, now.totals)
    ensures Tracked(p, trail + [now.slotOf], visited + [tried], now, sr.(cost := CostOf(p, now.totals)), i)
  {
    CostExact(p, now);
    CheapestStays(p, trail, visited, i, sr.bestCost, tried, now.slotOf);
  }

  lemma TrackImproved(p: Problem, trail: seq<seq<int>>, visited: seq<seq<int>>, was: Image, now: Image, sr: Search, i: nat, it: nat)
    requires Valid(p) && Tracked(p, trail, visited, was, sr, i) && Exact(p, now) && CostOf(p, now.totals) < sr.bestCost
    requires it + 1 == |trail|
    ensures Tracked(p, trail + [now.slotOf], visited + [now.slotOf], now,
                    Search(CostOf(p, now.totals), now, CostOf(p, now.totals), it), |trail|)
  {
    CostExact(p, now);
    CheapestImproves(p, trail, visited, i, sr.bestCost, now.slotOf);
  }

  /** A run of it steps with its memory. */
  ghost predicate Searching(p: Problem, cfg: Settings, moves: seq<Move>, coins: seq<bool>, it: nat, trail: seq<seq<int>>, visited: seq<seq<int>>,
                            now: Image, sr: Search, i: nat)
    requires Valid(p)
  {
    Run(p, cfg, moves, coins, trail, visited) && |trail| == it + 1 && Tracked(p, trail, visited, now, sr, i)
  }

  lemma SearchStart(p: Problem, cfg: Settings, moves: seq<Move>, coins: seq<bool>, now: Image)
    requires Valid(p) && Exact(p, now) && |coins| == |moves|
    ensures Searching(p, cfg, moves, coins, 0, [now.slotOf], [now.slotOf], now, Search(CostOf(p, now.totals), now, CostOf(p, now.totals), 0), 0)
  {
    TrackStart(p, now);
  }

  /** The memory still holds the same best entry. */
  ghost predicate SameBest(sr: Search, i: nat, next: Search, i': nat) {
    i' == i && next.best == sr.best && next.bestIter == sr.bestIter
  }

  /** One iteration with the memory of the best. */
  method Iterate(st: State, cfg: Settings, m: Move, coin: bool, it: nat, sr: Search, ghost trail: seq<seq<int>>, ghost visited: seq<seq<int>>, ghost i: nat)
    returns (next: Search, ghost tried: seq<int>, ghost i': nat)
    requires Valid(st.p) && Tracked(st.p, trail, visited, st.Snapshot(), sr, i) && Proposable(st.p, m) && it + 1 == |trail|
    modifies st
    ensures Tracked(st.p, trail + [st.slotOf], visited + [tried], st.Snapshot(), next, i')
    ensures StepOf(st.p, cfg, old(st.slotOf), m, coin, tried, st.slotOf)
    ensures i' == |trail| || SameBest(sr, i, next, i')
  {
    ghost var was := st.Snapshot();
    CostExact(st.p, was);
    var accepted, newCost;
    accepted, newCost := TryMove(st, cfg, m, coin, sr.cost);
    tried := Tried(st.p, was.slotOf, m);
    CostExact(st.p, st.Snapshot());
    i' := i;
    if accepted && newCost < sr.bestCost {
      TrackImproved(st.p, trail, visited, was, st.Snapshot(), sr, i, it);
      next, i' := Search(newCost, st.Snapshot(), newCost, it), |trail|;
    } else {
      TrackKept(st.p, trail, visited, was, st.Snapshot(), sr, i, tried);
      next := sr.(cost := newCost);
    }
  }

  /** One iteration of the run. */
  method Advance(st: State, cfg: Settings, moves: seq<Move>, coins: seq<bool>, it: nat, sr: Search, ghost trail: seq<seq<int>>, ghost visited: seq<seq<int>>, ghost i: nat)
    returns (next: Search, ghost trail': seq<seq<int>>, ghost visited': seq<seq<int>>, ghost i': nat)
    requires Valid(st.p) && it < |moves| && Proposable(st.p, moves[it]) && |coins| == |moves|
    requires Searching(st.p, cfg, moves, coins, it, trail, visited, st.Snapshot(), sr, i)
    modifies st
    ensures Searching(st.p, cfg, moves, coins, it + 1, trail', visited', st.Snapshot(), next, i') && trail'[0] == trail[0]
    ensures i' == it + 1 || SameBest(sr, i, next, i')
  {
    ghost var tried;
    next, tried, i' := Iterate(st, cfg, moves[it], coins[it], it, sr, trail, visited, i);
    RunGrows(st.p, cfg, moves, coins, trail, visited, tried, st.slotOf);
    trail', visited' := trail + [st.slotOf], visited + [tried];
  }

  /** The best schedule is complete and has not improved for long. */
  predicate Converged(cfg: Settings, calm: bool, it: nat, sr: Search) {
    cfg.stopWhenConverged && it - sr.bestIter > cfg.stagnationLimit && (cfg.strict || calm) && sr.best.totals.unplaced == 0
  }

  /** Since entry i became the best one, the search had no reason to stop before iteration n. */
  ghost predicate NeverConverged(cfg: Settings, calm: seq<bool>, sr: Search, i: nat, n: nat)
    requires n <= |calm|
  {
    forall k :: i <= k < n ==> !Converged(cfg, calm[k], k, sr)
  }

  lemma NotYetConverged(cfg: Settings, calm: seq<bool>, sr: Search, i: nat, n: nat, next: Search, i': nat)
    requires n < |calm| && NeverConverged(cfg, calm, sr, i, n) && !Converged(cfg, calm[n], n, sr)
    requires i' == n + 1 || SameBest(sr, i, next, i')
    ensures NeverConverged(cfg, calm, next, i', n + 1)
  {}

  /** At iteration k there was no reason to go on: the best schedule, entry i, is complete and old enough. */
  predicate Idle(cfg: Settings, calm: bool, k: int, i: nat, unplaced: int) {
    cfg.stopWhenConverged && k - FoundAt(i) > cfg.stagnationLimit && (cfg.strict || calm) && unplaced == 0
  }

  /** A run of n iterations ended early exactly at the first idle one since entry i became the best. */
  ghost predicate EndsInTime(cfg: Settings, calm: seq<bool>, stopped: bool, n: nat, i: nat, unplaced: int) {
    && n <= |calm| && (if stopped then n < |calm| && Idle(cfg, calm[n], n, i, unplaced) else n == |calm|)
    && forall k {:trigger Idle(cfg, calm[k], k, i, unplaced)} :: i <= k < n ==> !Idle(cfg, calm[k], k, i, unplaced)
  }

  lemma NeverIdle(cfg: Settings, calm: seq<bool>, sr: Search, stopped: bool, n: nat, i: nat)
    requires n <= |calm| && NeverConverged(cfg, calm, sr, i, n) && sr.bestIter == FoundAt(i)
    requires if stopped then n < |calm| && Converged(cfg, calm[n], n, sr) else n == |calm|
    ensures EndsInTime(cfg, calm, stopped, n, i, sr.best.totals.unplaced)
  {
    forall k | i <= k < n ensures !Idle(cfg, calm[k], k, i, sr.best.totals.unplaced) {
      assert !Converged(cfg, calm[k], k, sr);
    }
  }

  /** The memory at the start. */
  method Begin(st: State, ghost cfg: Settings, ghost moves: seq<Move>, ghost coins: seq<bool>) returns (sr: Search)
    requires Valid(st.p) && Exact(st.p, st.Snapshot()) && |coins| == |moves|
    ensures Searching(st.p, cfg, moves, coins, 0, [st.slotOf], [st.slotOf], st.Snapshot(), sr, 0)
  {
    var cost := CostOf(st.p, st.totals);
    sr := Search(cost, st.Snapshot(), cost, 0);
    SearchStart(st.p, cfg, moves, coins, st.Snapshot());
  }

  /** Back to the best state when the run has ended after n iterations. */
  method Settle(st: State, ghost cfg: Settings, ghost moves: seq<Move>, ghost coins: seq<bool>, ghost calm: seq<bool>, ghost stopped: bool, ghost n: nat,
                sr: Search, ghost trail: seq<seq<int>>, ghost visited: seq<seq<int>>, ghost i: nat) returns (result: real)
    requires Valid(st.p) && Searching(st.p, cfg, moves, coins, n, trail, visited, st.Snapshot(), sr, i)
    requires n <= |calm| && NeverConverged(cfg, calm, sr, i, n)
    requires if stopped then n < |calm| && Converged(cfg, calm[n], n, sr) else n == |calm|
    modifies st
    ensures Exact(st.p, st.Snapshot()) && result == CostOf(st.p, st.totals)
    ensures FirstCheapest(st.p, trail, visited, i, result) && st.slotOf == trail[i]
    ensures EndsInTime(cfg, calm, stopped, n, i, st.totals.unplaced)
  {
    NeverIdle(cfg, calm, sr, stopped, n, i);
    st.Restore(sr.best);
    result := sr.bestCost;
  }

  ghost predicate AllProposable(p: Problem, moves: seq<Move>) { forall k :: 0 <= k < |moves| ==> Proposable(p, moves[k]) }

  /** The main loop, with its early exit. */
  method RunMoves(st: State, cfg: Settings, moves: seq<Move>, coins: seq<bool>, calm: seq<bool>, first: Search)
    returns (sr: Search, stopped: bool, ghost trail: seq<seq<int>>, ghost visited: seq<seq<int>>, ghost i: nat)
    requires Valid(st.p) && AllProposable(st.p, moves) && |coins| == |moves| && |calm| == |moves|
    requires Searching(st.p, cfg, moves, coins, 0, [st.slotOf], [st.slotOf], st.Snapshot(), first, 0)
    modifies st
    ensures |trail| >= 1 && Searching(st.p, cfg, moves, coins, |trail| - 1, trail, visited, st.Snapshot(), sr, i)
    ensures trail[0] == old(st.slotOf)
    ensures if stopped then |trail| <= |moves| && Converged(cfg, calm[|trail| - 1], |trail| - 1, sr) else |trail| == |moves| + 1
    ensures |trail| <= |moves| + 1 && NeverConverged(cfg, calm, sr, i, |trail| - 1)
  {
    trail, visited, i := [st.slotOf], [st.slotOf], 0;
    sr, stopped := first, false;
    for it := 0 to |moves|
      invariant Searching(st.p, cfg, moves, coins, it, trail, visited, st.Snapshot(), sr, i)
      invariant !stopped && trail[0] == old(st.slotOf) && NeverConverged(cfg, calm, sr, i, it)
    {
      if Converged(cfg, calm[it], it, sr) {
        stopped := true;
        break;
      }
      ghost var was, at := sr, i;
      sr, trail, visited, i := Advance(st, cfg, moves, coins, it, sr, trail, visited, i);
      NotYetConverged(cfg, calm, was, at, it, sr, i);
    }
  }

  /** Simulated annealing: runs the moves and leaves the state at the first cheapest assignment it ever
      visited, rejected proposals included. It stops early exactly on a complete schedule that has not
      improved for long, and then as soon as it can. calm stands for the temperature test. */
  method Anneal(st: State, cfg: Settings, moves: seq<Move>, coins: seq<bool>, calm: seq<bool>)
    returns (result: real, stopped: bool, ghost trail: seq<seq<int>>, ghost visited: seq<seq<int>>, ghost i: nat)
    requires Valid(st.p) && Exact(st.p, st.Snapshot())
    requires |coins| == |moves| && |calm| == |moves| && forall k :: 0 <= k < |moves| ==> Proposable(st.p, moves[k])
    modifies st
    ensures Exact(st.p, st.Snapshot()) && result == CostOf(st.p, st.totals)
    ensures Run(st.p, cfg, moves, coins, trail, visited) && trail[0] == old(st.slotOf)
    ensures FirstCheapest(st.p, trail, visited, i, result) && st.slotOf == trail[i]
    ensures EndsInTime(cfg, calm, stopped, |trail| - 1, i, st.totals.unplaced)
  {
    var sr := Begin(st, cfg, moves, coins);
    sr, stopped, trail, visited, i := RunMoves(st, cfg, moves, coins, calm, sr);
    result := Settle(st, cfg, moves, coins, calm, stopped, |trail| - 1, sr, trail, visited, i);
  }
}
