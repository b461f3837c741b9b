/** The constructive starts of the search. A warm start keeps the current plan where it is still feasible;
    the greedy fill then places what is left. Which unit comes next and which of its feasible slots it gets
    is left open, so every order and every slot heuristic is covered. */
module ExamPlanStart {
  import opened Seqs
  import opened ExamPlanProblem
  import opened ExamPlanLoads
  import opened ExamPlanHard
  import opened ExamPlanState
  import opened ExamPlanSwaps

  /** Only the fixed units are placed. */
  ghost function FixedPlan(p: Problem): (slotOf: seq<int>)
    requires Valid(p)
    ensures FixedPlaced(p, slotOf) && forall u :: Movable(p, u) ==> slotOf[u] == -1
  {
    seq(|p.units|, u => if 0 <= u < |p.units| && p.units[u].fixed then p.units[u].fixedSlot else -1)
  }

  /** Two fixed units never count as a clash. */
  lemma FixedPlanClashFree(p: Problem)
    requires Valid(p)
    ensures ClashFree(p, FixedPlan(p))
  {}

  /** No slot takes unit u. */
  ghost predicate Stuck(p: Problem, slotOf: seq<int>, u: int)
    requires Valid(p) && Assignment(p, slotOf) && IsUnit(p, u)
  {
    forall s :: IsSlot(p, s) ==> !Feasible(p, slotOf, u, s)
  }

  /** now is start with further units placed and nothing hard made worse. */
  ghost predicate Extends(p: Problem, start: seq<int>, now: seq<int>)
    requires Valid(p)
  {
    && Fewer(p, start, now) && NoNewCapacity(p, start, now)
    && (ClashFree(p, start) ==> ClashFree(p, now))
  }

  lemma ExtendsItself(p: Problem, start: seq<int>)
    requires Valid(p) && Assignment(p, start)
    ensures Extends(p, start, start)
  {}

  lemma ExtendsTrans(p: Problem, a: seq<int>, b: seq<int>, c: seq<int>)
    requires Valid(p) && Extends(p, a, b) && Extends(p, b, c)
    ensures Extends(p, a, c)
  {
    NoNewTrans(p, a, b, c);
  }

  /** Placing an unplaced unit where it is feasible. */
  lemma PlaceExtends(p: Problem, now: seq<int>, u: int, s: int)
    requires Valid(p) && Assignment(p, now) && Movable(p, u) && IsSlot(p, s) && now[u] == -1 && Feasible(p, now, u, s)
    ensures Extends(p, now, now[u := s])
  {
    var after := now[u := s];
    RelocateKeepsHard(p, now, u, s);
    if ClashFree(p, now) {
      forall a, b ensures !Clash(p, after, a, b) { assert !Clash(p, now, a, b); }
    }
  }

  /** A unit that found no slot finds none later, when more units are placed. */
  lemma StuckStays(p: Problem, before: seq<int>, after: seq<int>, u: int)
    requires Valid(p) && Fewer(p, before, after) && IsUnit(p, u) && Stuck(p, before, u)
    ensures Stuck(p, after, u)
  {
    forall s | IsSlot(p, s) ensures !Feasible(p, after, u, s) {
      if Feasible(p, after, u, s) { FewerFeasible(p, before, after, u, s); }
    }
  }

  // ----- warm start -----

  /** A current plan: the start slot of every unit, -1 without one. */
  ghost predicate StartSlots(p: Problem, start: seq<int>) {
    |start| == |p.units| && forall u :: IsUnit(p, u) ==> -1 <= start[u] < |p.slots|
  }

  /** The first n units offered their start slots in order. */
  ghost function WarmPlan(p: Problem, start: seq<int>, n: nat): (slotOf: seq<int>)
    requires Valid(p) && StartSlots(p, start) && n <= |start|
    ensures Assignment(p, slotOf) && forall u :: n <= u < |start| ==> slotOf[u] == FixedPlan(p)[u]
  {
    if n == 0 then FixedPlan(p)
    else
      var prev, u := WarmPlan(p, start, n - 1), n - 1;
      if Movable(p, u) && start[u] >= 0 && Feasible(p, prev, u, start[u]) then prev[u := start[u]] else prev
  }

  /** The current plan with the fixed units in their slots. */
  ghost function CurrentPlan(p: Problem, start: seq<int>): (slotOf: seq<int>)
    requires Valid(p) && StartSlots(p, start)
    ensures FixedPlaced(p, slotOf) && forall u :: Movable(p, u) ==> slotOf[u] == start[u]
  {
    seq(|p.units|, u => if 0 <= u < |p.units| then (if p.units[u].fixed then p.units[u].fixedSlot else start[u]) else -1)
  }

  /** Every movable unit of the current plan still fits beside all others. */
  ghost predicate StillFeasible(p: Problem, start: seq<int>)
    requires Valid(p) && StartSlots(p, start)
  {
    forall u {:trigger FitsBesideOthers(p, start, u)} :: IsUnit(p, u) ==> FitsBesideOthers(p, start, u)
  }

  ghost predicate FitsBesideOthers(p: Problem, start: seq<int>, u: int)
    requires Valid(p) && StartSlots(p, start) && IsUnit(p, u)
  {
    Movable(p, u) && start[u] >= 0 ==> Feasible(p, CurrentPlan(p, start)[u := -1], u, start[u])
  }

  /** The first n units kept the places of the current plan. */
  ghost predicate KeptUpTo(p: Problem, start: seq<int>, n: nat)
    requires Valid(p) && StartSlots(p, start) && n <= |start|
  {
    forall u :: 0 <= u < n ==> WarmPlan(p, start, n)[u] == CurrentPlan(p, start)[u]
  }

  /** As long as it kept every place, the warm start has placed part of the current plan. */
  lemma WarmFewer(p: Problem, start: seq<int>, n: nat)
    requires Valid(p) && StartSlots(p, start) && n < |start| && KeptUpTo(p, start, n) && Movable(p, n)
    ensures Fewer(p, WarmPlan(p, start, n), CurrentPlan(p, start)[n := -1])
  {
    var warm, current := WarmPlan(p, start, n), CurrentPlan(p, start)[n := -1];
    forall u | IsUnit(p, u) ensures warm[u] == current[u] || warm[u] == -1 {
      if u >= n { assert warm[u] == FixedPlan(p)[u]; }
    }
  }

  lemma FeasibleAtTurn(p: Problem, start: seq<int>, n: nat)
    requires Valid(p) && StartSlots(p, start) && n < |start| && KeptUpTo(p, start, n)
    requires IsUnit(p, n) && FitsBesideOthers(p, start, n)
    ensures Movable(p, n) && start[n] >= 0 ==> Feasible(p, WarmPlan(p, start, n), n, start[n])
  {
    if Movable(p, n) && start[n] >= 0 {
      WarmFewer(p, start, n);
      FewerFeasible(p, WarmPlan(p, start, n), CurrentPlan(p, start)[n := -1], n, start[n]);
    }
  }

  lemma KeptStep(p: Problem, start: seq<int>, n: nat)
    requires Valid(p) && StartSlots(p, start) && n < |start| && KeptUpTo(p, start, n)
    requires IsUnit(p, n) && FitsBesideOthers(p, start, n)
    ensures KeptUpTo(p, start, n + 1)
  {
    FeasibleAtTurn(p, start, n);
    var warm := WarmPlan(p, start, n);
    assert IsUnit(p, n) && warm[n] == FixedPlan(p)[n];
    assert WarmPlan(p, start, n + 1)[n] == CurrentPlan(p, start)[n];
  }

  /** A current plan that is still feasible survives the warm start unchanged. */
  lemma WarmKeepsPlan(p: Problem, start: seq<int>)
    requires Valid(p) && StartSlots(p, start) && StillFeasible(p, start)
    ensures WarmPlan(p, start, |start|) == CurrentPlan(p, start)
  {
    for n := 0 to |start|
      invariant KeptUpTo(p, start, n)
    {
      assert IsUnit(p, n) && FitsBesideOthers(p, start, n);
      KeptStep(p, start, n);
    }
  }

  // ----- greedy fill -----

  method FeasibleSlots(st: State, u: int) returns (feas: seq<int>)
    requires Valid(st.p) && Counted(st.p, st.slotOf, st.counters) && IsUnit(st.p, u)
    ensures forall s :: s in feas <==> IsSlot(st.p, s) && s != st.slotOf[u] && Feasible(st.p, st.slotOf, u, s)
  {
    feas := [];
    for s := 0 to |st.p.slots|
      invariant forall x :: x in feas <==> 0 <= x < s && x != st.slotOf[u] && Feasible(st.p, st.slotOf, u, x)
    {
      if st.slotOf[u] == s { continue; }
      var ok := st.MayEnter(u, s);
      if ok { feas := feas + [s]; }
    }
  }

  /** Every movable unit outside rest is placed, or no slot takes it. */
  ghost predicate Handled(p: Problem, slotOf: seq<int>, rest: set<int>)
    requires Valid(p) && Assignment(p, slotOf)
  {
    forall u :: Movable(p, u) && u !in rest ==> slotOf[u] >= 0 || Stuck(p, slotOf, u)
  }

  lemma HandledPlaced(p: Problem, now: seq<int>, rest: set<int>, u: int, s: int)
    requires Valid(p) && Assignment(p, now) && Movable(p, u) && now[u] == -1 && IsSlot(p, s) && Handled(p, now, rest)
    ensures Assignment(p, now[u := s]) && Handled(p, now[u := s], rest - {u})
  {
    forall v | Movable(p, v) && v !in rest - {u} ensures now[u := s][v] >= 0 || Stuck(p, now[u := s], v) {
      if v != u && now[v] < 0 { StuckStays(p, now, now[u := s], v); }
    }
  }

  /** One turn of the fill: u goes into one of its feasible slots, or stays unplaced without one. */
  method PlaceOne(st: State, u: int, ghost todo: set<int>)
    requires Valid(st.p) && Counted(st.p, st.slotOf, st.counters) && Movable(st.p, u) && st.slotOf[u] == -1
    requires Handled(st.p, st.slotOf, todo)
    modifies st`slotOf, st`counters
    ensures Counted(st.p, st.slotOf, st.counters) && Extends(st.p, old(st.slotOf), st.slotOf)
    ensures Handled(st.p, st.slotOf, todo - {u}) && forall v :: IsUnit(st.p, v) && v != u ==> st.slotOf[v] == old(st.slotOf)[v]
  {
    ExtendsItself(st.p, st.slotOf);
    var feas := FeasibleSlots(st, u);
    if |feas| == 0 { return; }
    ghost var first := feas[0];
    assert first in feas;
    var s :| s in feas;
    PlaceExtends(st.p, st.slotOf, u, s);
    HandledPlaced(st.p, st.slotOf, todo, u, s);
    st.SetPhysical(u, s);
  }

  /** Places the units of rest one by one. At the end no slot takes any unit that stayed unplaced. */
  method FillRemaining(st: State, rest: set<int>)
    requires Valid(st.p) && Counted(st.p, st.slotOf, st.counters)
    requires forall u :: u in rest <==> Movable(st.p, u) && st.slotOf[u] == -1
    modifies st`slotOf, st`counters
    ensures Counted(st.p, st.slotOf, st.counters) && Extends(st.p, old(st.slotOf), st.slotOf)
    ensures Handled(st.p, st.slotOf, {})
  {
    var todo := rest;
    ExtendsItself(st.p, st.slotOf);
    while todo != {}
      invariant Counted(st.p, st.slotOf, st.counters) && Extends(st.p, old(st.slotOf), st.slotOf)
      invariant forall u :: u in todo ==> Movable(st.p, u) && st.slotOf[u] == -1
      invariant Handled(st.p, st.slotOf, todo)
      decreases |todo|
    {
      ghost var w := Pick(todo);
      assert w in todo;
      var u :| u in todo;
      ghost var was := st.slotOf;
      PlaceOne(st, u, todo);
      ExtendsTrans(st.p, old(st.slotOf), was, st.slotOf);
      todo := todo - {u};
    }
  }

  /** Keeps unit u in slot s if it is feasible there; s == -1 offers nothing. */
  method Offer(st: State, u: int, s: int) returns (kept: bool)
    requires Valid(st.p) && Counted(st.p, st.slotOf, st.counters) && Movable(st.p, u) && -1 <= s < |st.p.slots| && st.slotOf[u] == -1
    modifies st`slotOf, st`counters
    ensures Counted(st.p, st.slotOf, st.counters) && Extends(st.p, old(st.slotOf), st.slotOf)
    ensures kept <==> s >= 0 && Feasible(st.p, old(st.slotOf), u, s)
    ensures st.slotOf == if kept then old(st.slotOf)[u := s] else old(st.slotOf)
  {
    kept := false;
    ExtendsItself(st.p, st.slotOf);
    if s >= 0 { kept := st.MayEnter(u, s); }
    if kept {
      PlaceExtends(st.p, st.slotOf, u, s);
      st.SetPhysical(u, s);
    }
  }

  /** The movable units among the first n that hold no slot. */
  ghost predicate RestOf(p: Problem, slotOf: seq<int>, n: nat, rest: set<int>)
    requires |slotOf| == |p.units|
  {
    forall u :: u in rest <==> Movable(p, u) && u < n && slotOf[u] == -1
  }

  /** One turn of the warm start. */
  method WarmTurn(st: State, start: seq<int>, u: nat, rest: set<int>) returns (now: set<int>)
    requires Valid(st.p) && Counted(st.p, st.slotOf, st.counters) && StartSlots(st.p, start) && u < |start|
    requires st.slotOf == WarmPlan(st.p, start, u) && RestOf(st.p, st.slotOf, u, rest)
    modifies st`slotOf, st`counters
    ensures Counted(st.p, st.slotOf, st.counters) && Extends(st.p, old(st.slotOf), st.slotOf)
    ensures st.slotOf == WarmPlan(st.p, start, u + 1) && RestOf(st.p, st.slotOf, u + 1, now)
  {
    now := rest;
    assert IsUnit(st.p, u);
    if st.p.units[u].fixed {
      ExtendsItself(st.p, st.slotOf);
    } else {
      var kept := Offer(st, u, start[u]);
      if !kept { now := rest + {u}; }
    }
  }

  /** Offers every movable unit its start slot, in the order of the units. */
  method WarmStart(st: State, start: seq<int>) returns (rest: set<int>)
    requires Valid(st.p) && Counted(st.p, st.slotOf, st.counters) && StartSlots(st.p, start) && st.slotOf == FixedPlan(st.p)
    modifies st`slotOf, st`counters
    ensures Counted(st.p, st.slotOf, st.counters) && st.slotOf == WarmPlan(st.p, start, |start|)
    ensures Extends(st.p, FixedPlan(st.p), st.slotOf) && RestOf(st.p, st.slotOf, |start|, rest)
  {
    rest := {};
    ghost var plan := st.slotOf;
    ExtendsItself(st.p, plan);
    for u := 0 to |start|
      invariant Counted(st.p, st.slotOf, st.counters) && st.slotOf == WarmPlan(st.p, start, u)
      invariant Extends(st.p, plan, st.slotOf) && RestOf(st.p, st.slotOf, u, rest)
    {
      ghost var was := st.slotOf;
      rest := WarmTurn(st, start, u, rest);
      ExtendsTrans(st.p, plan, was, st.slotOf);
    }
  }

  /** The start of the search: the fixed units in their slots, the current plan kept where it is feasible
      (a cold start has none), the rest filled in. */
  method Construct(p: Problem, start: seq<int>) returns (st: State)
    requires Valid(p) && StartSlots(p, start)
    ensures fresh(st) && st.p == p && Exact(p, st.Snapshot())
    ensures Extends(p, FixedPlan(p), WarmPlan(p, start, |start|)) && Extends(p, WarmPlan(p, start, |start|), st.slotOf)
    ensures Handled(p, st.slotOf, {})
  {
    st := new State(p);
    assert st.slotOf == FixedPlan(p);
    var rest := WarmStart(st, start);
    FillRemaining(st, rest);
    st.InitCost();
  }
}
