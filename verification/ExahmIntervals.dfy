/** Capacity over time of the booked EXaHM/SEB rooms: the event sweep over all window
    boundaries, the pointwise meaning it must agree with, and the booking-window gate.
    Times are integers (nanoseconds). */
module ExahmIntervals {
  import opened Seqs
  import opened Options

  /** Booked rooms of one interval: [from, until) with the seats of each kind. */
  datatype Booking = Booking(from: int, until: int, exahm: bool, seb: bool, seats: int, sebSeats: int)

  /** A placed exam: seat demand, kind and occupancy window [from, to). */
  datatype CumExam = CumExam(id: int, seats: int, exahm: bool, from: int, to: int)

  /** Demand of a kind above the booked seats during [from, to). */
  datatype Overload = Overload(exahm: bool, from: int, to: int, demand: int, seats: int, examIds: seq<int>)

  // ----- demand and supply at one instant -----

  predicate Holds(e: CumExam, t: int) { e.from <= t < e.to }

  predicate Open(b: Booking, t: int) { b.from <= t < b.until }

  function ExahmDemand(exams: seq<CumExam>, t: int): int {
    if exams == [] then 0
    else
      var e := exams[|exams| - 1];
      ExahmDemand(exams[..|exams| - 1], t) + (if Holds(e, t) && e.exahm then e.seats else 0)
  }

  function TotalDemand(exams: seq<CumExam>, t: int): int {
    if exams == [] then 0
    else
      var e := exams[|exams| - 1];
      TotalDemand(exams[..|exams| - 1], t) + (if Holds(e, t) then e.seats else 0)
  }

  function ActiveIds(exams: seq<CumExam>, t: int): seq<int> {
    if exams == [] then []
    else
      var e := exams[|exams| - 1];
      ActiveIds(exams[..|exams| - 1], t) + (if Holds(e, t) then [e.id] else [])
  }

  /** The ids listed at an instant are those of the exams holding rooms then. */
  lemma {:induction false} ActiveIdsExact(exams: seq<CumExam>, t: int, id: int)
    ensures id in ActiveIds(exams, t) <==> exists i :: 0 <= i < |exams| && Holds(exams[i], t) && exams[i].id == id
  {
    if exams != [] {
      var n := |exams| - 1;
      ActiveIdsExact(exams[..n], t, id);
      assert forall i :: 0 <= i < n ==> exams[..n][i] == exams[i];
    }
  }

  function ExahmSupply(bookings: seq<Booking>, t: int): int {
    if bookings == [] then 0
    else
      var b := bookings[|bookings| - 1];
      ExahmSupply(bookings[..|bookings| - 1], t) + (if Open(b, t) && b.exahm then b.seats else 0)
  }

  /** Seats of any kind: an EXaHM room counts its physical seats even when it is SEB-capable too. */
  function TotalSupply(bookings: seq<Booking>, t: int): int {
    if bookings == [] then 0
    else
      var b := bookings[|bookings| - 1];
      TotalSupply(bookings[..|bookings| - 1], t) +
      (if !Open(b, t) then 0 else if b.exahm then b.seats else if b.seb then b.sebSeats else 0)
  }

  predicate Overloaded(exams: seq<CumExam>, bookings: seq<Booking>, t: int) {
    ExahmDemand(exams, t) > ExahmSupply(bookings, t) || TotalDemand(exams, t) > TotalSupply(bookings, t)
  }

  /** What a record claims about one instant of its interval. The EXaHM shortage wins over the total one. */
  predicate Describes(o: Overload, exams: seq<CumExam>, bookings: seq<Booking>, t: int) {
    && o.exahm == (ExahmDemand(exams, t) > ExahmSupply(bookings, t))
    && o.demand == (if o.exahm then ExahmDemand(exams, t) else TotalDemand(exams, t))
    && o.seats == (if o.exahm then ExahmSupply(bookings, t) else TotalSupply(bookings, t))
    && o.demand > o.seats
    && o.examIds == ActiveIds(exams, t)
  }

  // ----- the sweep -----

  function ExamBounds(exams: seq<CumExam>): seq<int> {
    if exams == [] then []
    else ExamBounds(exams[..|exams| - 1]) + [exams[|exams| - 1].from, exams[|exams| - 1].to]
  }

  function BookingBounds(bookings: seq<Booking>): seq<int> {
    if bookings == [] then []
    else BookingBounds(bookings[..|bookings| - 1]) + [bookings[|bookings| - 1].from, bookings[|bookings| - 1].until]
  }

  /** All boundaries, deduplicated and ascending. */
  function Times(exams: seq<CumExam>, bookings: seq<Booking>): seq<int> {
    SortKeys(ExamBounds(exams) + BookingBounds(bookings))
  }

  /** The record of one elementary interval, judged at its midpoint. */
  function RecordOf(exams: seq<CumExam>, bookings: seq<Booking>, lo: int, hi: int): Option<Overload>
    requires lo < hi
  {
    var mid := lo + (hi - lo) / 2;
    var xd, xs := ExahmDemand(exams, mid), ExahmSupply(bookings, mid);
    var td, ts := TotalDemand(exams, mid), TotalSupply(bookings, mid);
    if xd > xs then Some(Overload(true, lo, hi, xd, xs, ActiveIds(exams, mid)))
    else if td > ts then Some(Overload(false, lo, hi, td, ts, ActiveIds(exams, mid)))
    else None
  }

  /** The records of the first n elementary intervals. */
  function Records(exams: seq<CumExam>, bookings: seq<Booking>, times: seq<int>, n: nat): seq<Overload>
    requires Ascending(times) && (n == 0 || n < |times|)
  {
    if n == 0 then []
    else Records(exams, bookings, times, n - 1) +
         match RecordOf(exams, bookings, times[n - 1], times[n]) case None => [] case Some(o) => [o]
  }

  /** The complete report. */
  function Sweep(exams: seq<CumExam>, bookings: seq<Booking>): seq<Overload> {
    if exams == [] || bookings == [] then []
    else
      var times := Times(exams, bookings);
      Records(exams, bookings, times, if times == [] then 0 else |times| - 1)
  }

  function FirstOnly<T>(s: seq<T>): seq<T> { if s == [] then [] else [s[0]] }

  /** Seats of the rooms open at mid. */
  method OpenSeats(bookings: seq<Booking>, mid: int) returns (exahmSeats: int, totalSeats: int)
    ensures exahmSeats == ExahmSupply(bookings, mid) && totalSeats == TotalSupply(bookings, mid)
  {
    exahmSeats, totalSeats := 0, 0;
    for j := 0 to |bookings|
      invariant exahmSeats == ExahmSupply(bookings[..j], mid) && totalSeats == TotalSupply(bookings[..j], mid)
    {
      assert bookings[..j + 1][..j] == bookings[..j];
      var b := bookings[j];
      if b.from > mid || !(b.until > mid) { continue; }
      if b.exahm {
        exahmSeats, totalSeats := exahmSeats + b.seats, totalSeats + b.seats;
      } else if b.seb {
        totalSeats := totalSeats + b.sebSeats;
      }
    }
    assert bookings[..|bookings|] == bookings;
  }

  /** Demand and ids of the exams occupying rooms at mid. */
  method OccupiedSeats(exams: seq<CumExam>, mid: int) returns (exahmDem: int, totalDem: int, ids: seq<int>)
    ensures exahmDem == ExahmDemand(exams, mid) && totalDem == TotalDemand(exams, mid) && ids == ActiveIds(exams, mid)
  {
    exahmDem, totalDem, ids := 0, 0, [];
    for j := 0 to |exams|
      invariant exahmDem == ExahmDemand(exams[..j], mid) && totalDem == TotalDemand(exams[..j], mid)
      invariant ids == ActiveIds(exams[..j], mid)
    {
      assert exams[..j + 1][..j] == exams[..j];
      var e := exams[j];
      if e.from > mid || !(e.to > mid) { continue; }
      ids := ids + [e.id];
      if e.exahm { exahmDem := exahmDem + e.seats; }
      totalDem := totalDem + e.seats;
    }
    assert exams[..|exams|] == exams;
  }

  /** Judges one elementary interval at its midpoint. */
  method Judge(exams: seq<CumExam>, bookings: seq<Booking>, lo: int, hi: int) returns (o: Option<Overload>)
    requires lo < hi
    ensures o == RecordOf(exams, bookings, lo, hi)
  {
    var mid := lo + (hi - lo) / 2;
    var exahmSeats, totalSeats := OpenSeats(bookings, mid);
    var exahmDem, totalDem, ids := OccupiedSeats(exams, mid);
    if exahmDem > exahmSeats {
      o := Some(Overload(true, lo, hi, exahmDem, exahmSeats, ids));
    } else if totalDem > totalSeats {
      o := Some(Overload(false, lo, hi, totalDem, totalSeats, ids));
    } else {
      o := None;
    }
  }

  /** The records among some judgements. */
  function Found(judged: seq<Option<Overload>>): seq<Overload> {
    if judged == [] then []
    else
      var before, last := Found(judged[..|judged| - 1]), judged[|judged| - 1];
      if last.None? then before else before + [last.value]
  }

  /** The judgements of the first n elementary intervals. */
  ghost function Judged(exams: seq<CumExam>, bookings: seq<Booking>, times: seq<int>, n: nat): (judged: seq<Option<Overload>>)
    requires Ascending(times) && (n == 0 || n < |times|)
    ensures |judged| == n && Found(judged) == Records(exams, bookings, times, n)
    ensures forall i :: 0 <= i < n ==> judged[i] == RecordOf(exams, bookings, times[i], times[i + 1])
  {
    if n == 0 then []
    else
      var before, last := Judged(exams, bookings, times, n - 1), RecordOf(exams, bookings, times[n - 1], times[n]);
      assert (before + [last])[..n - 1] == before;
      before + [last]
  }

  lemma FoundStep(judged: seq<Option<Overload>>, i: nat)
    requires i < |judged|
    ensures var before := Found(judged[..i]);
            Found(judged[..i + 1]) == if judged[i].None? then before else before + [judged[i].value]
  {
    assert judged[..i + 1][..i] == judged[..i];
  }

  lemma {:induction false} FoundPrefix(judged: seq<Option<Overload>>, i: nat)
    requires i <= |judged|
    ensures Found(judged[..i]) <= Found(judged)
  {
    if i < |judged| {
      assert judged[..|judged| - 1][..i] == judged[..i];
      FoundPrefix(judged[..|judged| - 1], i);
    } else {
      assert judged[..i] == judged;
    }
  }

  /** The loop over the elementary intervals; with stopAtFirst it returns at the first overload. */
  method SweepIntervals(exams: seq<CumExam>, bookings: seq<Booking>, times: seq<int>, stopAtFirst: bool, ghost judged: seq<Option<Overload>>)
      returns (out: seq<Overload>)
    requires Ascending(times) && |judged| + 1 == |times|
    requires forall i :: 0 <= i < |judged| ==> judged[i] == RecordOf(exams, bookings, times[i], times[i + 1])
    ensures out == if stopAtFirst then FirstOnly(Found(judged)) else Found(judged)
  {
    out := [];
    var i := 0;
    while i + 1 < |times|
      invariant 0 <= i <= |judged|
      invariant out == Found(judged[..i])
      invariant stopAtFirst ==> out == []
    {
      FoundStep(judged, i);
      var o := Judge(exams, bookings, times[i], times[i + 1]);
      i := i + 1;
      if o.None? { continue; }
      out := out + [o.value];
      if stopAtFirst {
        FoundPrefix(judged, i);
        return;
      }
    }
    assert judged[..i] == judged;
  }

  /** The sweep as it runs. */
  method CumulativeOverloads(exams: seq<CumExam>, bookings: seq<Booking>, stopAtFirst: bool) returns (out: seq<Overload>)
    ensures out == if stopAtFirst then FirstOnly(Sweep(exams, bookings)) else Sweep(exams, bookings)
  {
    if |exams| == 0 || |bookings| == 0 { return []; }
    var times := Times(exams, bookings);
    if |times| == 0 { return []; }
    out := SweepIntervals(exams, bookings, times, stopAtFirst, Judged(exams, bookings, times, |times| - 1));
  }

  // ----- nothing changes between two boundaries -----

  ghost predicate NoBoundBetween(bounds: seq<int>, lo: int, hi: int) {
    forall b :: b in bounds ==> b <= lo || hi <= b
  }

  lemma {:induction false} DemandConstant(exams: seq<CumExam>, lo: int, hi: int, t: int)
    requires NoBoundBetween(ExamBounds(exams), lo, hi) && lo <= t < hi
    ensures ExahmDemand(exams, t) == ExahmDemand(exams, lo)
    ensures TotalDemand(exams, t) == TotalDemand(exams, lo)
    ensures ActiveIds(exams, t) == ActiveIds(exams, lo)
  {
    if exams != [] {
      var front, e := exams[..|exams| - 1], exams[|exams| - 1];
      assert e.from in ExamBounds(exams) && e.to in ExamBounds(exams);
      assert forall b :: b in ExamBounds(front) ==> b in ExamBounds(exams);
      DemandConstant(front, lo, hi, t);
    }
  }

  lemma {:induction false} SupplyConstant(bookings: seq<Booking>, lo: int, hi: int, t: int)
    requires NoBoundBetween(BookingBounds(bookings), lo, hi) && lo <= t < hi
    ensures ExahmSupply(bookings, t) == ExahmSupply(bookings, lo)
    ensures TotalSupply(bookings, t) == TotalSupply(bookings, lo)
  {
    if bookings != [] {
      var front, b := bookings[..|bookings| - 1], bookings[|bookings| - 1];
      assert b.from in BookingBounds(bookings) && b.until in BookingBounds(bookings);
      assert forall x :: x in BookingBounds(front) ==> x in BookingBounds(bookings);
      SupplyConstant(front, lo, hi, t);
    }
  }

  /** Outside the hull of all windows nobody sits and no demand can exceed the supply. */
  lemma {:induction false} NoDemandOutside(exams: seq<CumExam>, t: int)
    requires (forall b :: b in ExamBounds(exams) ==> t < b) || (forall b :: b in ExamBounds(exams) ==> b <= t)
    ensures ExahmDemand(exams, t) == 0 && TotalDemand(exams, t) == 0
  {
    if exams != [] {
      var front, e := exams[..|exams| - 1], exams[|exams| - 1];
      assert e.from in ExamBounds(exams) && e.to in ExamBounds(exams);
      assert forall b :: b in ExamBounds(front) ==> b in ExamBounds(exams);
      assert !Holds(e, t);
      NoDemandOutside(front, t);
    }
  }

  lemma {:induction false} NoSupplyOutside(bookings: seq<Booking>, t: int)
    requires (forall b :: b in BookingBounds(bookings) ==> t < b) || (forall b :: b in BookingBounds(bookings) ==> b <= t)
    ensures ExahmSupply(bookings, t) == 0 && TotalSupply(bookings, t) == 0
  {
    if bookings != [] {
      var front, b := bookings[..|bookings| - 1], bookings[|bookings| - 1];
      assert b.from in BookingBounds(bookings) && b.until in BookingBounds(bookings);
      assert forall x :: x in BookingBounds(front) ==> x in BookingBounds(bookings);
      assert !Open(b, t);
      NoSupplyOutside(front, t);
    }
  }

  /** Judging one midpoint decides every instant of an elementary interval. */
  lemma MidpointDecides(exams: seq<CumExam>, bookings: seq<Booking>, lo: int, hi: int, t: int)
    requires NoBoundBetween(ExamBounds(exams), lo, hi) && NoBoundBetween(BookingBounds(bookings), lo, hi)
    requires lo <= t < hi
    ensures RecordOf(exams, bookings, lo, hi).Some? <==> Overloaded(exams, bookings, t)
    ensures RecordOf(exams, bookings, lo, hi).Some? ==>
              var o := RecordOf(exams, bookings, lo, hi).value;
              o.from == lo && o.to == hi && Describes(o, exams, bookings, t)
  {
    var mid := lo + (hi - lo) / 2;
    DemandConstant(exams, lo, hi, t);
    DemandConstant(exams, lo, hi, mid);
    SupplyConstant(bookings, lo, hi, t);
    SupplyConstant(bookings, lo, hi, mid);
  }

  // ----- exactness -----

  ghost predicate Covers(o: Overload, t: int) { o.from <= t < o.to }

  ghost predicate Reported(records: seq<Overload>, t: int) {
    exists k :: 0 <= k < |records| && Covers(records[k], t)
  }

  ghost predicate DisjointAscending(records: seq<Overload>) {
    && (forall k :: 0 <= k < |records| ==> records[k].from < records[k].to)
    && (forall j, k :: 0 <= j < k < |records| ==> records[j].to <= records[k].from)
  }

  ghost predicate AllBoundsIn(exams: seq<CumExam>, bookings: seq<Booking>, times: seq<int>) {
    && Ascending(times)
    && (forall b :: b in ExamBounds(exams) ==> b in times)
    && (forall b :: b in BookingBounds(bookings) ==> b in times)
  }

  lemma NeighboursEnclose(bounds: seq<int>, times: seq<int>, i: nat)
    requires Ascending(times) && i + 1 < |times| && (forall b :: b in bounds ==> b in times)
    ensures NoBoundBetween(bounds, times[i], times[i + 1])
  {
    forall b | b in bounds ensures b <= times[i] || times[i + 1] <= b {
      var k :| 0 <= k < |times| && times[k] == b;
    }
  }

  lemma {:induction false} RecordsShape(exams: seq<CumExam>, bookings: seq<Booking>, times: seq<int>, n: nat)
    requires AllBoundsIn(exams, bookings, times) && n < |times|
    ensures var r := Records(exams, bookings, times, n);
            DisjointAscending(r) && forall k :: 0 <= k < |r| ==> times[0] <= r[k].from && r[k].to <= times[n]
  {
    if n > 0 { RecordsShape(exams, bookings, times, n - 1); }
  }

  lemma {:induction false} RecordsDescribe(exams: seq<CumExam>, bookings: seq<Booking>, times: seq<int>, n: nat, k: nat, t: int)
    requires AllBoundsIn(exams, bookings, times) && n < |times|
    requires k < |Records(exams, bookings, times, n)| && Covers(Records(exams, bookings, times, n)[k], t)
    ensures Describes(Records(exams, bookings, times, n)[k], exams, bookings, t)
  {
    if k < |Records(exams, bookings, times, n - 1)| {
      RecordsDescribe(exams, bookings, times, n - 1, k, t);
    } else {
      IntervalDecided(exams, bookings, times, n - 1, t);
    }
  }

  lemma IntervalDecided(exams: seq<CumExam>, bookings: seq<Booking>, times: seq<int>, i: nat, t: int)
    requires AllBoundsIn(exams, bookings, times) && i + 1 < |times|
    requires times[i] <= t < times[i + 1]
    ensures RecordOf(exams, bookings, times[i], times[i + 1]).Some? <==> Overloaded(exams, bookings, t)
    ensures RecordOf(exams, bookings, times[i], times[i + 1]).Some? ==>
              var o := RecordOf(exams, bookings, times[i], times[i + 1]).value;
              o.from == times[i] && o.to == times[i + 1] && Describes(o, exams, bookings, t)
  {
    NeighboursEnclose(ExamBounds(exams), times, i);
    NeighboursEnclose(BookingBounds(bookings), times, i);
    MidpointDecides(exams, bookings, times[i], times[i + 1], t);
  }

  /** An overloaded instant has a record: the one of its elementary interval. */
  lemma {:induction false} RecordsComplete(exams: seq<CumExam>, bookings: seq<Booking>, times: seq<int>, n: nat, t: int)
    requires AllBoundsIn(exams, bookings, times) && n < |times|
    requires times[0] <= t < times[n] && Overloaded(exams, bookings, t)
    ensures Reported(Records(exams, bookings, times, n), t)
  {
    var r := Records(exams, bookings, times, n);
    if t < times[n - 1] {
      RecordsComplete(exams, bookings, times, n - 1, t);
      var p := Records(exams, bookings, times, n - 1);
      var k :| 0 <= k < |p| && Covers(p[k], t);
      assert r[k] == p[k];
    } else {
      IntervalDecided(exams, bookings, times, n - 1, t);
      assert Covers(r[|r| - 1], t);
    }
  }

  /** Main result: at every instant the report is exact, and what a record says holds throughout it. */
  lemma SweepExact(exams: seq<CumExam>, bookings: seq<Booking>)
    requires exams != [] && bookings != []
    ensures var r := Sweep(exams, bookings);
            && DisjointAscending(r)
            && (forall k, t :: 0 <= k < |r| && Covers(r[k], t) ==> Describes(r[k], exams, bookings, t))
            && (forall t :: Overloaded(exams, bookings, t) <==> Reported(r, t))
  {
    var times, r := Times(exams, bookings), Sweep(exams, bookings);
    assert exams[|exams| - 1].from in ExamBounds(exams);
    assert exams[|exams| - 1].from in times;
    var n := |times| - 1;
    RecordsShape(exams, bookings, times, n);
    forall k, t | 0 <= k < |r| && Covers(r[k], t) ensures Describes(r[k], exams, bookings, t) {
      RecordsDescribe(exams, bookings, times, n, k, t);
    }
    forall t | Overloaded(exams, bookings, t) ensures Reported(r, t) {
      if t < times[0] || times[n] <= t {
        NothingOutside(exams, bookings, times, t);
      } else {
        RecordsComplete(exams, bookings, times, n, t);
      }
    }
  }

  lemma NothingOutside(exams: seq<CumExam>, bookings: seq<Booking>, times: seq<int>, t: int)
    requires AllBoundsIn(exams, bookings, times) && times != []
    requires t < times[0] || times[|times| - 1] <= t
    ensures !Overloaded(exams, bookings, t)
  {
    forall b | b in times ensures times[0] <= b <= times[|times| - 1] {
      var k :| 0 <= k < |times| && times[k] == b;
    }
    NoDemandOutside(exams, t);
    NoSupplyOutside(bookings, t);
  }

  // ----- the early returns -----

  /** The exam takes seats at some instant. */
  predicate Seated(e: CumExam) { e.seats > 0 && e.from < e.to }

  lemma {:induction false} DemandAtLeast(exams: seq<CumExam>, i: nat, t: int)
    requires i < |exams| && forall k :: 0 <= k < |exams| ==> exams[k].seats >= 0
    ensures TotalDemand(exams, t) >= ExahmDemand(exams, t) >= 0
    ensures Holds(exams[i], t) ==> TotalDemand(exams, t) >= exams[i].seats
  {
    var n := |exams| - 1;
    var front := exams[..n];
    assert forall k :: 0 <= k < n ==> front[k] == exams[k];
    if n > 0 { DemandAtLeast(front, if i < n then i else 0, t); }
  }

  lemma {:induction false} NobodySeated(exams: seq<CumExam>, t: int)
    requires forall k :: 0 <= k < |exams| ==> exams[k].seats >= 0 && !Seated(exams[k])
    ensures ExahmDemand(exams, t) == 0 && TotalDemand(exams, t) == 0
  {
    if exams != [] {
      var front := exams[..|exams| - 1];
      assert forall k :: 0 <= k < |front| ==> front[k] == exams[k];
      NobodySeated(front, t);
    }
  }

  lemma {:induction false} SupplyNonNegative(bookings: seq<Booking>, t: int)
    requires forall k :: 0 <= k < |bookings| ==> bookings[k].seats >= 0 && bookings[k].sebSeats >= 0
    ensures ExahmSupply(bookings, t) >= 0 && TotalSupply(bookings, t) >= 0
  {
    if bookings != [] {
      var front := bookings[..|bookings| - 1];
      assert forall k :: 0 <= k < |front| ==> front[k] == bookings[k];
      SupplyNonNegative(front, t);
    }
  }

  /** With the early returns: on real seat numbers the report tells the truth about every instant if and
      only if there are bookings or no exam takes a seat. Without bookings it is always silent. */
  lemma SilentWithoutBookings(exams: seq<CumExam>, bookings: seq<Booking>)
    requires forall k :: 0 <= k < |exams| ==> exams[k].seats >= 0
    requires forall k :: 0 <= k < |bookings| ==> bookings[k].seats >= 0 && bookings[k].sebSeats >= 0
    ensures (forall t :: Overloaded(exams, bookings, t) <==> Reported(Sweep(exams, bookings), t)) <==>
            bookings != [] || forall k :: 0 <= k < |exams| ==> !Seated(exams[k])
  {
    if bookings != [] && exams != [] {
      SweepExact(exams, bookings);
    } else if forall k :: 0 <= k < |exams| ==> !Seated(exams[k]) {
      forall t ensures !Overloaded(exams, bookings, t) && !Reported(Sweep(exams, bookings), t) {
        NobodySeated(exams, t);
        SupplyNonNegative(bookings, t);
      }
    } else {
      var k :| 0 <= k < |exams| && Seated(exams[k]);
      var t := exams[k].from;
      DemandAtLeast(exams, k, t);
      assert Overloaded(exams, bookings, t) && !Reported(Sweep(exams, bookings), t);
    }
  }
}
