/** The seat counters of a slot as sums over the assignment. slotOf[u] is u's slot, -1 if unplaced. */
module ExamPlanLoads {
  import opened ExamPlanProblem

  /** The five counters kept per slot. */
  datatype Counter = AllSeats | OwnSeats | ExahmSeats | SebSeats | OverrunSeats

  ghost predicate Assignment(p: Problem, slotOf: seq<int>) {
    |slotOf| == |p.units| && forall u :: IsUnit(p, u) ==> -1 <= slotOf[u] < |p.slots|
  }

  /** What unit u, placed in slot su, adds to the counter of slot s. */
  function Share(p: Problem, c: Counter, u: int, su: int, s: int): int
    requires IsUnit(p, u)
  {
    var unit := p.units[u];
    if su < 0 then 0
    else match c
      case AllSeats => if su == s then unit.seats else 0
      case OwnSeats => if su == s && !unit.foreign then unit.seats else 0
      case ExahmSeats => if su == s && unit.exahm then unit.seats else 0
      case SebSeats => if su == s && unit.seb then unit.seats else 0
      case OverrunSeats => if unit.exahm && s in OverrunTargets(p, u, su) then unit.seats else 0
  }

  /** The counter of slot s over the first n units. */
  function LoadOf(p: Problem, c: Counter, slotOf: seq<int>, s: int, n: nat): int
    requires |slotOf| == |p.units| && n <= |slotOf|
  {
    if n == 0 then 0 else LoadOf(p, c, slotOf, s, n - 1) + Share(p, c, n - 1, slotOf[n - 1], s)
  }

  function Load(p: Problem, c: Counter, slotOf: seq<int>, s: int): int
    requires |slotOf| == |p.units|
  {
    LoadOf(p, c, slotOf, s, |slotOf|)
  }

  /** The seat-consuming units in slot s among the first n. */
  function SeatUnitsOf(p: Problem, slotOf: seq<int>, s: int, n: nat): nat
    requires |slotOf| == |p.units| && n <= |slotOf|
  {
    if n == 0 then 0 else SeatUnitsOf(p, slotOf, s, n - 1) + (if slotOf[n - 1] == s && p.units[n - 1].seats > 0 then 1 else 0)
  }

  function SeatUnits(p: Problem, slotOf: seq<int>, s: int): nat
    requires |slotOf| == |p.units|
  {
    SeatUnitsOf(p, slotOf, s, |slotOf|)
  }

  /** Moving one unit changes a counter by the difference of its two shares. */
  lemma {:induction false} LoadMoves(p: Problem, c: Counter, slotOf: seq<int>, s: int, n: nat, u: int, x: int)
    requires |slotOf| == |p.units| && n <= |slotOf| && IsUnit(p, u)
    ensures LoadOf(p, c, slotOf[u := x], s, n) ==
            LoadOf(p, c, slotOf, s, n) + (if u < n then Share(p, c, u, x, s) - Share(p, c, u, slotOf[u], s) else 0)
  {
    if n > 0 { LoadMoves(p, c, slotOf, s, n - 1, u, x); }
  }

  lemma {:induction false} SeatUnitsMove(p: Problem, slotOf: seq<int>, s: int, n: nat, u: int, x: int)
    requires |slotOf| == |p.units| && n <= |slotOf| && IsUnit(p, u)
    ensures SeatUnitsOf(p, slotOf[u := x], s, n) ==
            SeatUnitsOf(p, slotOf, s, n) +
            (if u < n && p.units[u].seats > 0 then (if x == s then 1 else 0) - (if slotOf[u] == s then 1 else 0) else 0)
  {
    if n > 0 { SeatUnitsMove(p, slotOf, s, n - 1, u, x); }
  }

  /** Counters never go negative, and a counter without seats means a slot without seat-consuming units. */
  lemma {:induction false} LoadVersusUnits(p: Problem, slotOf: seq<int>, s: int, n: nat)
    requires Valid(p) && |slotOf| == |p.units| && n <= |slotOf| && s >= 0
    ensures 0 <= LoadOf(p, AllSeats, slotOf, s, n)
    ensures LoadOf(p, AllSeats, slotOf, s, n) == 0 <==> SeatUnitsOf(p, slotOf, s, n) == 0
  {
    if n > 0 {
      assert IsUnit(p, n - 1);
      LoadVersusUnits(p, slotOf, s, n - 1);
    }
  }

  /** A slot holding no more seats than one of its units holds no other seat-consuming unit. */
  lemma {:induction false} AloneInSlot(p: Problem, slotOf: seq<int>, s: int, n: nat, u: int)
    requires Valid(p) && |slotOf| == |p.units| && n <= |slotOf| && IsUnit(p, u) && u < n && s >= 0 && slotOf[u] == s
    requires LoadOf(p, AllSeats, slotOf, s, n) == p.units[u].seats
    ensures SeatUnitsOf(p, slotOf, s, n) <= 1
  {
    LoadMoves(p, AllSeats, slotOf, s, n, u, -1);
    LoadVersusUnits(p, slotOf[u := -1], s, n);
    SeatUnitsMove(p, slotOf, s, n, u, -1);
  }
}
