/** When swapping can cost a student the time between two exams. Taking units out of an assignment only
    makes room, so whether any swap is unsafe shows in assignments of two movable units alone. */
module ExamPlanSwaps {
  import opened ExamPlanProblem
  import opened ExamPlanLoads
  import opened ExamPlanHard

  // ----- fewer placed units leave more room -----

  /** Assignment a is b with some units taken out. */
  ghost predicate Fewer(p: Problem, a: seq<int>, b: seq<int>) {
    Assignment(p, a) && Assignment(p, b) && forall u :: IsUnit(p, u) ==> a[u] == b[u] || a[u] == -1
  }

  lemma {:induction false} FewerLoad(p: Problem, a: seq<int>, b: seq<int>, c: Counter, s: int, n: nat)
    requires Valid(p) && Fewer(p, a, b) && n <= |a|
    ensures LoadOf(p, c, a, s, n) <= LoadOf(p, c, b, s, n)
  {
    if n > 0 {
      FewerLoad(p, a, b, c, s, n - 1);
      assert IsUnit(p, n - 1);
    }
  }

  lemma FewerExahm(p: Problem, a: seq<int>, b: seq<int>, u: int, t: int)
    requires Valid(p) && Fewer(p, a, b) && IsUnit(p, u) && IsSlot(p, t) && ExahmFits(p, b, u, t)
    ensures ExahmFits(p, a, u, t)
  {
    FewerLoad(p, a, b, ExahmSeats, t, |a|);
    FewerLoad(p, a, b, OverrunSeats, t, |a|);
  }

  /** A slot that takes a unit also takes it beside fewer others. */
  lemma FewerFeasible(p: Problem, a: seq<int>, b: seq<int>, u: int, s: int)
    requires Valid(p) && Fewer(p, a, b) && IsUnit(p, u) && IsSlot(p, s) && Feasible(p, b, u, s)
    ensures Feasible(p, a, u, s)
  {
    FewerLoad(p, a, b, AllSeats, s, |a|);
    forall v | Conflict(p, u, v) && a[v] >= 0 ensures !Overlaps(p, u, s, v, a[v]) {
      assert a[v] == b[v];
    }
    if p.units[u].exahm {
      FewerExahm(p, a, b, u, s);
      forall t | t in OverrunTargets(p, u, s) ensures IsSlot(p, t) && ExahmFits(p, a, u, t) {
        FewerExahm(p, a, b, u, t);
      }
    }
  }

  lemma {:induction false} UnitInLoad(p: Problem, slotOf: seq<int>, c: Counter, s: int, n: nat, u: int)
    requires Valid(p) && |slotOf| == |p.units| && n <= |slotOf| && IsUnit(p, u)
    ensures LoadOf(p, c, slotOf, s, n) >= if u < n then Share(p, c, u, slotOf[u], s) else 0
  {
    if n > 0 {
      UnitInLoad(p, slotOf, c, s, n - 1, u);
      assert IsUnit(p, n - 1);
    }
  }

  /** One side of a swap: unit u finds at least as much room in v's slot beside fewer others. */
  lemma FewerSide(p: Problem, a: seq<int>, b: seq<int>, u: int, v: int)
    requires Valid(p) && Fewer(p, a, b) && IsUnit(p, u) && IsUnit(p, v) && a[v] == b[v] && IsSlot(p, b[v])
    requires NoOverlapExcept(p, b, u, b[v], v) && SwapSeatsFit(p, b, u, v, b[v]) && SwapExahmFits(p, b, u, v, b[v])
    ensures NoOverlapExcept(p, a, u, a[v], v) && SwapSeatsFit(p, a, u, v, a[v]) && SwapExahmFits(p, a, u, v, a[v])
  {
    var s := b[v];
    FewerLoad(p, a, b, AllSeats, s, |a|);
    FewerLoad(p, a, b, ExahmSeats, s, |a|);
    FewerLoad(p, a, b, OverrunSeats, s, |a|);
    UnitInLoad(p, a, AllSeats, s, |a|, v);
    forall w | Conflict(p, u, w) && w != v && a[w] >= 0 ensures !Overlaps(p, u, s, w, a[w]) {
      assert a[w] == b[w];
    }
  }

  lemma FewerCanSwap(p: Problem, a: seq<int>, b: seq<int>, u: int, v: int)
    requires Valid(p) && Fewer(p, a, b) && IsUnit(p, u) && IsUnit(p, v) && u != v && a[u] == b[u] && a[v] == b[v]
    requires CanSwap(p, b, u, v)
    ensures CanSwap(p, a, u, v)
  {
    FewerSide(p, a, b, u, v);
    FewerSide(p, a, b, v, u);
  }

  lemma FewerClashFree(p: Problem, a: seq<int>, b: seq<int>)
    requires Fewer(p, a, b) && ClashFree(p, b)
    ensures ClashFree(p, a)
  {
    forall u, v ensures !Clash(p, a, u, v) {
      assert !Clash(p, b, u, v);
    }
  }

  // ----- unsafe swaps -----

  /** Every fixed unit stands in its slot. */
  ghost predicate FixedPlaced(p: Problem, slotOf: seq<int>) {
    Assignment(p, slotOf) && forall u :: IsUnit(p, u) && p.units[u].fixed ==> slotOf[u] == p.units[u].fixedSlot
  }

  /** The fixed units, u in slot s and v in slot t: nothing else is placed. */
  ghost function Alone(p: Problem, u: int, s: int, v: int, t: int): (a: seq<int>)
    requires Valid(p) && Movable(p, u) && Movable(p, v) && u != v && IsSlot(p, s) && IsSlot(p, t)
    ensures FixedPlaced(p, a) && a[u] == s && a[v] == t
  {
    seq(|p.units|, i => if i == u then s else if i == v then t else if 0 <= i < |p.units| && p.units[i].fixed then p.units[i].fixedSlot else -1)
  }

  /** Alone in slots s and t two units that share a student are far enough apart and may swap, yet not
      far enough the other way round. */
  ghost predicate UnsafeSwap(p: Problem, u: int, s: int, v: int, t: int)
    requires Valid(p)
  {
    && Movable(p, u) && Movable(p, v) && u != v && IsSlot(p, s) && IsSlot(p, t)
    && Conflict(p, u, v) && Overlaps(p, u, t, v, s)
    && ClashFree(p, Alone(p, u, s, v, t)) && CanSwap(p, Alone(p, u, s, v, t), u, v)
  }

  /** No two units and no two slots make an unsafe swap. */
  ghost predicate SwapsSafe(p: Problem)
    requires Valid(p)
  {
    forall u, s, v, t :: !UnsafeSwap(p, u, s, v, t)
  }

  /** Any permitted swap that brings a clash into a clash-free assignment is one of the two units alone. */
  lemma ClashingSwapIsUnsafe(p: Problem, slotOf: seq<int>, u: int, v: int)
    requires Valid(p) && FixedPlaced(p, slotOf) && ClashFree(p, slotOf) && Movable(p, u) && Movable(p, v) && u != v
    requires CanSwap(p, slotOf, u, v)
    requires Assignment(p, Swapped(slotOf, u, v)) && !ClashFree(p, Swapped(slotOf, u, v))
    ensures UnsafeSwap(p, u, slotOf[u], v, slotOf[v])
  {
    var a := Alone(p, u, slotOf[u], v, slotOf[v]);
    FewerClashFree(p, a, slotOf);
    FewerCanSwap(p, a, slotOf, u, v);
    assert !Clash(p, slotOf, u, v);
    SwapClashExact(p, slotOf, u, v);
    var x, y :| Clash(p, Swapped(slotOf, u, v), x, y);
    assert !Clash(p, slotOf, x, y);
  }

  /** An unsafe swap indeed leads from a clash-free assignment to a clash. */
  lemma UnsafeSwapClashes(p: Problem, u: int, s: int, v: int, t: int)
    requires Valid(p) && UnsafeSwap(p, u, s, v, t)
    ensures Assignment(p, Swapped(Alone(p, u, s, v, t), u, v)) && Clash(p, Swapped(Alone(p, u, s, v, t), u, v), u, v)
  {
    var a := Alone(p, u, s, v, t);
    assert !Clash(p, a, u, v);
  }

  /** One separation per pair of conflicting movable units makes every swap safe. */
  lemma EvenSeparationsAreSafe(p: Problem)
    requires Valid(p)
    requires forall u, v :: Movable(p, u) && Movable(p, v) && Conflict(p, u, v) ==> SepMinutes(p, u, v) == SepMinutes(p, v, u)
    ensures SwapsSafe(p)
  {
    forall u, s, v, t ensures !UnsafeSwap(p, u, s, v, t) {
      if UnsafeSwap(p, u, s, v, t) {
        UnsafeSwapClashes(p, u, s, v, t);
        var a := Alone(p, u, s, v, t);
        assert !Clash(p, a, u, v);
        SymmetricSeparationSafe(p, a, u, v);
        assert false;
      }
    }
  }
}
