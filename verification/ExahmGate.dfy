/** The booking-window gate of EXaHM/SEB exams and how it relates to the capacity sweep. */
module ExahmGate {
  import opened ExahmIntervals
  import opened Options

  const MINUTE := 60_000_000_000
  const DEFAULT_BUFFER := 30 * MINUTE

  datatype RoomConstraints = RoomConstraints(preExamMinutes: Option<int>, postExamMinutes: Option<int>)
  datatype Constraints = Constraints(room: Option<RoomConstraints>)

  /** A positive override replaces the fallback; zero and negative values are ignored. */
  function BufferOr(minutes: Option<int>, fallback: int): int {
    if minutes.Some? && minutes.value > 0 then minutes.value * MINUTE else fallback
  }

  function Buffers(c: Option<Constraints>, fallback: int): (int, int) {
    if c.None? || c.value.room.None? then (fallback, fallback)
    else (BufferOr(c.value.room.value.preExamMinutes, fallback), BufferOr(c.value.room.value.postExamMinutes, fallback))
  }

  /** Setup/teardown a booking has to cover. */
  function RoomBuffers(c: Option<Constraints>): (int, int) { Buffers(c, DEFAULT_BUFFER) }

  /** Setup/teardown an exam keeps its rooms busy: a default buffer is shared, so half of it. */
  function OccBuffers(c: Option<Constraints>): (int, int) { Buffers(c, DEFAULT_BUFFER / 2) }

  /** Rooms are never held longer than the booking is required to last. */
  lemma OccupancyWithinBooking(c: Option<Constraints>)
    ensures 0 < OccBuffers(c).0 <= RoomBuffers(c).0
    ensures 0 < OccBuffers(c).1 <= RoomBuffers(c).1
  {}

  /** A positive override counts in full for bookings and for occupancy; without one a booking needs half
      an hour and the exam holds its rooms for a quarter. */
  lemma OverrideExact(room: RoomConstraints)
    ensures var c := Some(Constraints(Some(room)));
            && (room.preExamMinutes.Some? && room.preExamMinutes.value > 0
                ==> RoomBuffers(c).0 == OccBuffers(c).0 == room.preExamMinutes.value * MINUTE)
            && (room.postExamMinutes.Some? && room.postExamMinutes.value > 0
                ==> RoomBuffers(c).1 == OccBuffers(c).1 == room.postExamMinutes.value * MINUTE)
            && (room.preExamMinutes.None? || room.preExamMinutes.value <= 0 ==> RoomBuffers(c).0 == 30 * MINUTE && OccBuffers(c).0 == 15 * MINUTE)
            && (room.postExamMinutes.None? || room.postExamMinutes.value <= 0 ==> RoomBuffers(c).1 == 30 * MINUTE && OccBuffers(c).1 == 15 * MINUTE)
  {}

  /** The exam overrides neither buffer. */
  predicate DefaultBuffers(c: Option<Constraints>) {
    c.None? || c.value.room.None? || (c.value.room.value.preExamMinutes.None? && c.value.room.value.postExamMinutes.None?)
  }

  /** An exam placed at start holds its rooms at t. */
  predicate Occupies(start: int, dur: int, c: Option<Constraints>, t: int) {
    start - OccBuffers(c).0 <= t < start + dur + OccBuffers(c).1
  }

  /** A default buffer is shared: two consecutive exams hold rooms at the same time exactly if less than one
      buffer lies between them. */
  lemma SharedBufferExact(start: int, dur: int, c: Option<Constraints>, next: int, dur': int, c': Option<Constraints>)
    requires DefaultBuffers(c) && DefaultBuffers(c') && dur >= 0 && dur' >= 0 && start + dur <= next
    ensures (exists t :: Occupies(start, dur, c, t) && Occupies(next, dur', c', t)) <==> next - (start + dur) < 30 * MINUTE
  {
    if next - (start + dur) < 30 * MINUTE {
      var t := if start > next - 15 * MINUTE then start else next - 15 * MINUTE;
      assert Occupies(start, dur, c, t) && Occupies(next, dur', c', t);
    }
  }

  predicate CoversWindow(b: Booking, winStart: int, winEnd: int) {
    b.from <= winStart && winEnd <= b.until
  }

  /** Seats one covering booking offers an exam of the kind. */
  function UsableSeats(b: Booking, exahm: bool): int {
    if exahm then (if b.exahm then b.seats else 0)
    else if b.seb then b.sebSeats
    else if b.exahm then b.seats
    else 0
  }

  function WindowSeats(bookings: seq<Booking>, exahm: bool, winStart: int, winEnd: int): int {
    if bookings == [] then 0
    else
      var b := bookings[|bookings| - 1];
      WindowSeats(bookings[..|bookings| - 1], exahm, winStart, winEnd) +
      (if CoversWindow(b, winStart, winEnd) then UsableSeats(b, exahm) else 0)
  }

  method ExahmWindowSeats(bookings: seq<Booking>, exahm: bool, start: int, dur: int, pre: int, post: int) returns (seats: int)
    ensures seats == WindowSeats(bookings, exahm, start - pre, start + dur + post)
  {
    var winStart, winEnd := start - pre, start + dur + post;
    seats := 0;
    for j := 0 to |bookings|
      invariant seats == WindowSeats(bookings[..j], exahm, winStart, winEnd)
    {
      assert bookings[..j + 1][..j] == bookings[..j];
      var b := bookings[j];
      if !CoversWindow(b, winStart, winEnd) { continue; }
      if exahm {
        if b.exahm { seats := seats + b.seats; }
      } else if b.seb {
        seats := seats + b.sebSeats;
      } else if b.exahm {
        seats := seats + b.seats;
      }
    }
    assert bookings[..|bookings|] == bookings;
  }

  ghost predicate RealSeats(bookings: seq<Booking>) {
    forall b :: b in bookings ==> b.seats >= 0 && b.sebSeats >= 0
  }

  /** The occupancy of an exam placed at start. */
  function Placed(id: int, seats: int, exahm: bool, start: int, dur: int, c: Option<Constraints>): CumExam {
    CumExam(id, seats, exahm, start - OccBuffers(c).0, start + dur + OccBuffers(c).1)
  }

  function GateSeats(bookings: seq<Booking>, exahm: bool, start: int, dur: int, c: Option<Constraints>): int {
    WindowSeats(bookings, exahm, start - RoomBuffers(c).0, start + dur + RoomBuffers(c).1)
  }

  lemma {:induction false} CoveringSeatsAreOpen(bookings: seq<Booking>, winStart: int, winEnd: int, t: int)
    requires RealSeats(bookings) && winStart <= t < winEnd
    ensures 0 <= WindowSeats(bookings, true, winStart, winEnd) <= ExahmSupply(bookings, t) <= TotalSupply(bookings, t)
  {
    if bookings != [] {
      assert bookings[|bookings| - 1] in bookings;
      CoveringSeatsAreOpen(bookings[..|bookings| - 1], winStart, winEnd, t);
    }
  }

  /** A room that is EXaHM- and SEB-capable: the gate counts sebSeats, the sweep counts seats. */
  predicate SebOverstated(b: Booking) { b.exahm && b.seb && b.sebSeats > b.seats }

  lemma {:induction false} CoveringSebSeatsAreOpen(bookings: seq<Booking>, winStart: int, winEnd: int, t: int)
    requires RealSeats(bookings) && winStart <= t < winEnd
    requires forall b :: b in bookings ==> !SebOverstated(b)
    ensures 0 <= WindowSeats(bookings, false, winStart, winEnd) <= TotalSupply(bookings, t)
    ensures 0 <= ExahmSupply(bookings, t)
  {
    if bookings != [] {
      assert bookings[|bookings| - 1] in bookings;
      CoveringSebSeatsAreOpen(bookings[..|bookings| - 1], winStart, winEnd, t);
    }
  }

  /** With bookings, an empty report means: no instant is overloaded. */
  lemma EmptySweepMeansFeasible(exams: seq<CumExam>, bookings: seq<Booking>)
    requires bookings != []
    ensures Sweep(exams, bookings) == [] <==>
            exams == [] || forall t :: !Overloaded(exams, bookings, t)
  {
    if exams != [] {
      SweepExact(exams, bookings);
      var r := Sweep(exams, bookings);
      if r != [] {
        assert Covers(r[0], r[0].from);
        assert Reported(r, r[0].from);
      }
    }
  }

  lemma Singleton(e: CumExam, t: int)
    ensures ExahmDemand([e], t) == if Holds(e, t) && e.exahm then e.seats else 0
    ensures TotalDemand([e], t) == if Holds(e, t) then e.seats else 0
  {
    assert [e][..0] == [];
  }

  /** Main result: an EXaHM exam the gate admits never overloads the bookings by itself. */
  lemma GateImpliesSweep(bookings: seq<Booking>, id: int, seats: int, start: int, dur: int, c: Option<Constraints>)
    requires RealSeats(bookings) && GateSeats(bookings, true, start, dur, c) >= seats
    ensures Sweep([Placed(id, seats, true, start, dur, c)], bookings) == []
  {
    var e := Placed(id, seats, true, start, dur, c);
    if bookings != [] {
      forall t ensures !Overloaded([e], bookings, t) {
        Singleton(e, t);
        CoveringSeatsAreOpen(bookings, t, t + 1, t);
        if Holds(e, t) { CoveringSeatsAreOpen(bookings, start - RoomBuffers(c).0, start + dur + RoomBuffers(c).1, t); }
      }
      EmptySweepMeansFeasible([e], bookings);
    }
  }

  /** The same for a SEB exam, as long as no room is SEB-overstated. */
  lemma SebGateImpliesSweep(bookings: seq<Booking>, id: int, seats: int, start: int, dur: int, c: Option<Constraints>)
    requires RealSeats(bookings) && GateSeats(bookings, false, start, dur, c) >= seats
    requires forall b :: b in bookings ==> !SebOverstated(b)
    ensures Sweep([Placed(id, seats, false, start, dur, c)], bookings) == []
  {
    var e := Placed(id, seats, false, start, dur, c);
    if bookings != [] {
      forall t ensures !Overloaded([e], bookings, t) {
        Singleton(e, t);
        CoveringSebSeatsAreOpen(bookings, t, t + 1, t);
        if Holds(e, t) { CoveringSebSeatsAreOpen(bookings, start - RoomBuffers(c).0, start + dur + RoomBuffers(c).1, t); }
      }
      EmptySweepMeansFeasible([e], bookings);
    }
  }

  // ----- the EXaHM gate, exactly -----

  /** EXaHM seats open at t in rooms that do not cover the window. */
  function ExahmSpare(bookings: seq<Booking>, winStart: int, winEnd: int, t: int): int {
    if bookings == [] then 0
    else
      var b := bookings[|bookings| - 1];
      ExahmSpare(bookings[..|bookings| - 1], winStart, winEnd, t) + (if !CoversWindow(b, winStart, winEnd) && Open(b, t) && b.exahm then b.seats else 0)
  }

  lemma {:induction false} ExahmParts(bookings: seq<Booking>, winStart: int, winEnd: int, t: int)
    requires RealSeats(bookings) && winStart <= t < winEnd
    ensures ExahmSupply(bookings, t) == WindowSeats(bookings, true, winStart, winEnd) + ExahmSpare(bookings, winStart, winEnd, t)
    ensures 0 <= ExahmSpare(bookings, winStart, winEnd, t) && 0 <= ExahmSupply(bookings, t) <= TotalSupply(bookings, t)
  {
    if bookings != [] {
      assert bookings[|bookings| - 1] in bookings;
      ExahmParts(bookings[..|bookings| - 1], winStart, winEnd, t);
    }
  }

  function SpareAt(bookings: seq<Booking>, start: int, dur: int, c: Option<Constraints>, t: int): int {
    ExahmSpare(bookings, start - RoomBuffers(c).0, start + dur + RoomBuffers(c).1, t)
  }

  /** The sweep accepts a single EXaHM exam exactly if at every instant of its occupancy the covering rooms
      and the spare seats hold it. */
  lemma ExahmAlone(bookings: seq<Booking>, id: int, seats: int, start: int, dur: int, c: Option<Constraints>)
    requires RealSeats(bookings) && bookings != [] && dur >= 0
    ensures Sweep([Placed(id, seats, true, start, dur, c)], bookings) == [] <==>
            forall t :: Occupies(start, dur, c, t) ==> seats <= GateSeats(bookings, true, start, dur, c) + SpareAt(bookings, start, dur, c, t)
  {
    var e := Placed(id, seats, true, start, dur, c);
    forall t ensures Overloaded([e], bookings, t) <==>
                     Occupies(start, dur, c, t) && seats > GateSeats(bookings, true, start, dur, c) + SpareAt(bookings, start, dur, c, t)
    {
      Singleton(e, t);
      ExahmParts(bookings, t, t + 1, t);
      if Occupies(start, dur, c, t) { ExahmParts(bookings, start - RoomBuffers(c).0, start + dur + RoomBuffers(c).1, t); }
    }
    EmptySweepMeansFeasible([e], bookings);
  }

  /** Exact: gate and sweep agree on every EXaHM exam at this time if and only if at some instant of its
      occupancy no other EXaHM room is open. Rooms booked too short are never counted. */
  lemma GateExact(bookings: seq<Booking>, id: int, start: int, dur: int, c: Option<Constraints>)
    requires RealSeats(bookings) && bookings != [] && dur >= 0
    ensures (forall seats :: Sweep([Placed(id, seats, true, start, dur, c)], bookings) == [] <==> seats <= GateSeats(bookings, true, start, dur, c))
            <==> exists t :: Occupies(start, dur, c, t) && SpareAt(bookings, start, dur, c, t) == 0
  {
    var gate := GateSeats(bookings, true, start, dur, c);
    forall t | Occupies(start, dur, c, t) ensures SpareAt(bookings, start, dur, c, t) >= 0 {
      ExahmParts(bookings, start - RoomBuffers(c).0, start + dur + RoomBuffers(c).1, t);
    }
    if t :| Occupies(start, dur, c, t) && SpareAt(bookings, start, dur, c, t) == 0 {
      forall seats ensures Sweep([Placed(id, seats, true, start, dur, c)], bookings) == [] <==> seats <= gate {
        ExahmAlone(bookings, id, seats, start, dur, c);
      }
    } else {
      ExahmAlone(bookings, id, gate + 1, start, dur, c);
    }
  }

  lemma {:induction false} AllCover(bookings: seq<Booking>, winStart: int, winEnd: int, t: int)
    requires forall b :: b in bookings ==> b.from <= winStart && winEnd <= b.until
    ensures ExahmSpare(bookings, winStart, winEnd, t) == 0
  {
    if bookings != [] {
      assert bookings[|bookings| - 1] in bookings;
      AllCover(bookings[..|bookings| - 1], winStart, winEnd, t);
    }
  }

  /** If every booking covers exam, setup and teardown, the gate is the sweep. */
  lemma CoveringGateExact(bookings: seq<Booking>, id: int, seats: int, start: int, dur: int, c: Option<Constraints>)
    requires RealSeats(bookings) && bookings != [] && dur >= 0
    requires forall b :: b in bookings ==> b.from <= start - RoomBuffers(c).0 && start + dur + RoomBuffers(c).1 <= b.until
    ensures Sweep([Placed(id, seats, true, start, dur, c)], bookings) == [] <==> seats <= GateSeats(bookings, true, start, dur, c)
  {
    GateExact(bookings, id, start, dur, c);
    AllCover(bookings, start - RoomBuffers(c).0, start + dur + RoomBuffers(c).1, start);
    assert Occupies(start, dur, c, start) && SpareAt(bookings, start, dur, c, start) == 0;
  }

  // ----- the SEB gate, exactly -----

  /** What the gate counts too much: SEB beyond physical seats of the covering EXaHM rooms. */
  function Excess(bookings: seq<Booking>, winStart: int, winEnd: int): int {
    if bookings == [] then 0
    else
      var b := bookings[|bookings| - 1];
      Excess(bookings[..|bookings| - 1], winStart, winEnd) +
      (if CoversWindow(b, winStart, winEnd) && b.exahm && b.seb then b.sebSeats - b.seats else 0)
  }

  /** What the sweep finds in addition: seats open at t in rooms that do not cover the window. */
  function Spare(bookings: seq<Booking>, winStart: int, winEnd: int, t: int): int {
    if bookings == [] then 0
    else
      var b := bookings[|bookings| - 1];
      Spare(bookings[..|bookings| - 1], winStart, winEnd, t) +
      (if CoversWindow(b, winStart, winEnd) || !Open(b, t) then 0 else if b.exahm then b.seats else if b.seb then b.sebSeats else 0)
  }

  lemma {:induction false} SupplyParts(bookings: seq<Booking>, winStart: int, winEnd: int, t: int)
    requires winStart <= t < winEnd
    ensures TotalSupply(bookings, t) ==
            WindowSeats(bookings, false, winStart, winEnd) - Excess(bookings, winStart, winEnd) + Spare(bookings, winStart, winEnd, t)
  {
    if bookings != [] { SupplyParts(bookings[..|bookings| - 1], winStart, winEnd, t); }
  }

  predicate SparedAt(bookings: seq<Booking>, start: int, dur: int, c: Option<Constraints>, t: int) {
    Excess(bookings, start - RoomBuffers(c).0, start + dur + RoomBuffers(c).1)
    <= Spare(bookings, start - RoomBuffers(c).0, start + dur + RoomBuffers(c).1, t)
  }

  /** At every instant the exam holds its rooms, the spare seats make up for the excess. */
  ghost predicate ExcessSpared(bookings: seq<Booking>, start: int, dur: int, c: Option<Constraints>) {
    forall t :: start - OccBuffers(c).0 <= t < start + dur + OccBuffers(c).1 ==> SparedAt(bookings, start, dur, c, t)
  }

  /** Exactly: the gate is sound for every SEB exam it admits at this time if and only if what it counts
      too much is spare elsewhere throughout the exam's occupancy. */
  lemma SebGateExact(bookings: seq<Booking>, id: int, start: int, dur: int, c: Option<Constraints>)
    requires RealSeats(bookings) && dur >= 0
    ensures (forall seats :: seats <= GateSeats(bookings, false, start, dur, c)
                             ==> Sweep([Placed(id, seats, false, start, dur, c)], bookings) == [])
            <==> ExcessSpared(bookings, start, dur, c)
  {
    var gate := GateSeats(bookings, false, start, dur, c);
    if ExcessSpared(bookings, start, dur, c) {
      forall seats | seats <= gate ensures Sweep([Placed(id, seats, false, start, dur, c)], bookings) == [] {
        SparedIsSound(bookings, id, seats, start, dur, c);
      }
    } else {
      NotSparedIsUnsound(bookings, id, start, dur, c);
    }
  }

  lemma SparedIsSound(bookings: seq<Booking>, id: int, seats: int, start: int, dur: int, c: Option<Constraints>)
    requires RealSeats(bookings) && ExcessSpared(bookings, start, dur, c)
    requires seats <= GateSeats(bookings, false, start, dur, c)
    ensures Sweep([Placed(id, seats, false, start, dur, c)], bookings) == []
  {
    var e := Placed(id, seats, false, start, dur, c);
    var winStart, winEnd := start - RoomBuffers(c).0, start + dur + RoomBuffers(c).1;
    if bookings != [] {
      forall t ensures !Overloaded([e], bookings, t) {
        Singleton(e, t);
        CoveringSeatsAreOpen(bookings, t, t + 1, t);
        if Holds(e, t) {
          SupplyParts(bookings, winStart, winEnd, t);
          assert SparedAt(bookings, start, dur, c, t);
        }
      }
      EmptySweepMeansFeasible([e], bookings);
    }
  }

  lemma NotSparedIsUnsound(bookings: seq<Booking>, id: int, start: int, dur: int, c: Option<Constraints>)
    requires dur >= 0 && !ExcessSpared(bookings, start, dur, c)
    ensures Sweep([Placed(id, GateSeats(bookings, false, start, dur, c), false, start, dur, c)], bookings) != []
  {
    var winStart, winEnd := start - RoomBuffers(c).0, start + dur + RoomBuffers(c).1;
    var t :| start - OccBuffers(c).0 <= t < start + dur + OccBuffers(c).1 && !SparedAt(bookings, start, dur, c, t);
    var e := Placed(id, GateSeats(bookings, false, start, dur, c), false, start, dur, c);
    SupplyParts(bookings, winStart, winEnd, t);
    Singleton(e, t);
    assert Overloaded([e], bookings, t);
    EmptySweepMeansFeasible([e], bookings);
  }

  /** What the sweep finds at t beyond the gate's count. */
  function SurplusAt(bookings: seq<Booking>, start: int, dur: int, c: Option<Constraints>, t: int): int {
    Spare(bookings, start - RoomBuffers(c).0, start + dur + RoomBuffers(c).1, t)
    - Excess(bookings, start - RoomBuffers(c).0, start + dur + RoomBuffers(c).1)
  }

  /** The sweep accepts a single SEB exam exactly if at every instant of its occupancy the gate's count and
      the surplus hold it. */
  lemma SebAlone(bookings: seq<Booking>, id: int, seats: int, start: int, dur: int, c: Option<Constraints>)
    requires RealSeats(bookings) && bookings != [] && dur >= 0
    ensures Sweep([Placed(id, seats, false, start, dur, c)], bookings) == [] <==>
            forall t :: Occupies(start, dur, c, t) ==> seats <= GateSeats(bookings, false, start, dur, c) + SurplusAt(bookings, start, dur, c, t)
  {
    var e := Placed(id, seats, false, start, dur, c);
    forall t ensures Overloaded([e], bookings, t) <==>
                     Occupies(start, dur, c, t) && seats > GateSeats(bookings, false, start, dur, c) + SurplusAt(bookings, start, dur, c, t)
    {
      Singleton(e, t);
      ExahmParts(bookings, t, t + 1, t);
      if Occupies(start, dur, c, t) { SupplyParts(bookings, start - RoomBuffers(c).0, start + dur + RoomBuffers(c).1, t); }
    }
    EmptySweepMeansFeasible([e], bookings);
  }

  ghost predicate NeverShort(bookings: seq<Booking>, start: int, dur: int, c: Option<Constraints>) {
    forall t :: Occupies(start, dur, c, t) ==> SurplusAt(bookings, start, dur, c, t) >= 0
  }

  ghost predicate SomewhereEven(bookings: seq<Booking>, start: int, dur: int, c: Option<Constraints>) {
    exists t :: Occupies(start, dur, c, t) && SurplusAt(bookings, start, dur, c, t) == 0
  }

  /** Exact: gate and sweep agree on every SEB exam at this time if and only if the excess is spared
      throughout, and at some instant nothing more than it. */
  lemma SebAgreesExact(bookings: seq<Booking>, id: int, start: int, dur: int, c: Option<Constraints>)
    requires RealSeats(bookings) && bookings != [] && dur >= 0
    ensures (forall seats :: Sweep([Placed(id, seats, false, start, dur, c)], bookings) == [] <==> seats <= GateSeats(bookings, false, start, dur, c))
            <==> NeverShort(bookings, start, dur, c) && SomewhereEven(bookings, start, dur, c)
  {
    var gate := GateSeats(bookings, false, start, dur, c);
    if NeverShort(bookings, start, dur, c) && SomewhereEven(bookings, start, dur, c) {
      forall seats ensures Sweep([Placed(id, seats, false, start, dur, c)], bookings) == [] <==> seats <= gate {
        SebAlone(bookings, id, seats, start, dur, c);
      }
    } else {
      SebAlone(bookings, id, gate, start, dur, c);
      SebAlone(bookings, id, gate + 1, start, dur, c);
    }
  }

  /** One covering room: sound exactly if the room is not overstated. */
  lemma OneRoomGateExact(b: Booking, id: int, start: int, dur: int, c: Option<Constraints>)
    requires RealSeats([b]) && dur >= 0
    requires CoversWindow(b, start - RoomBuffers(c).0, start + dur + RoomBuffers(c).1)
    ensures (forall seats :: seats <= GateSeats([b], false, start, dur, c)
                             ==> Sweep([Placed(id, seats, false, start, dur, c)], [b]) == [])
            <==> !SebOverstated(b)
  {
    var room := [b];
    SebGateExact(room, id, start, dur, c);
    forall t ensures SparedAt(room, start, dur, c, t) <==> !SebOverstated(b) {
      OneRoom(b, start - RoomBuffers(c).0, start + dur + RoomBuffers(c).1, t);
    }
    assert start - OccBuffers(c).0 <= start < start + dur + OccBuffers(c).1;
    assert SparedAt(room, start, dur, c, start) <==> !SebOverstated(b);
    assert ExcessSpared(room, start, dur, c) <==> !SebOverstated(b);
  }

  lemma OneRoom(b: Booking, winStart: int, winEnd: int, t: int)
    requires CoversWindow(b, winStart, winEnd)
    ensures Excess([b], winStart, winEnd) == if b.exahm && b.seb then b.sebSeats - b.seats else 0
    ensures Spare([b], winStart, winEnd, t) == 0
  {
    assert [b][..0] == [];
  }

  // ----- feasibility survives removing exams and adding bookings -----

  ghost predicate RealDemand(exams: seq<CumExam>) {
    forall e :: e in exams ==> e.seats >= 0
  }

  /** Taking one exam out of the list takes exactly its share out of the demand. */
  lemma {:induction false} DemandWithout(exams: seq<CumExam>, i: nat, t: int)
    requires i < |exams|
    ensures var rest := exams[..i] + exams[i + 1..];
            && ExahmDemand(exams, t) == ExahmDemand(rest, t) + ExahmDemand([exams[i]], t)
            && TotalDemand(exams, t) == TotalDemand(rest, t) + TotalDemand([exams[i]], t)
    decreases |exams|
  {
    var n := |exams| - 1;
    Singleton(exams[i], t);
    if i == n {
      assert exams[..i] + exams[i + 1..] == exams[..n];
    } else {
      DemandWithout(exams[..n], i, t);
      var rest := exams[..i] + exams[i + 1..];
      assert exams[..n][..i] + exams[..n][i + 1..] == rest[..|rest| - 1];
      assert rest[|rest| - 1] == exams[n];
      assert exams[..n][i] == exams[i];
    }
  }

  lemma {:induction false} SupplyWithout(bookings: seq<Booking>, i: nat, t: int)
    requires i < |bookings|
    ensures var rest := bookings[..i] + bookings[i + 1..];
            && ExahmSupply(bookings, t) == ExahmSupply(rest, t) + ExahmSupply([bookings[i]], t)
            && TotalSupply(bookings, t) == TotalSupply(rest, t) + TotalSupply([bookings[i]], t)
    decreases |bookings|
  {
    var n := |bookings| - 1;
    assert [bookings[i]][..0] == [];
    if i == n {
      assert bookings[..i] + bookings[i + 1..] == bookings[..n];
    } else {
      SupplyWithout(bookings[..n], i, t);
      var rest := bookings[..i] + bookings[i + 1..];
      assert bookings[..n][..i] + bookings[..n][i + 1..] == rest[..|rest| - 1];
      assert rest[|rest| - 1] == bookings[n];
      assert bookings[..n][i] == bookings[i];
    }
  }

  lemma SplitAt<T>(s: seq<T>, x: T) returns (i: nat)
    requires x in multiset(s)
    ensures i < |s| && s[i] == x && multiset(s[..i] + s[i + 1..]) == multiset(s) - multiset{x}
  {
    i :| 0 <= i < |s| && s[i] == x;
    assert s == s[..i] + [s[i]] + s[i + 1..];
  }

  lemma {:induction false} DemandMonotone(sub: seq<CumExam>, exams: seq<CumExam>, t: int)
    requires RealDemand(exams) && multiset(sub) <= multiset(exams)
    ensures ExahmDemand(sub, t) <= ExahmDemand(exams, t) && TotalDemand(sub, t) <= TotalDemand(exams, t)
    decreases |exams|
  {
    if sub == [] {
      if exams != [] {
        assert exams[|exams| - 1] in exams;
        DemandMonotone(sub, exams[..|exams| - 1], t);
      }
    } else {
      var front, x := sub[..|sub| - 1], sub[|sub| - 1];
      assert sub == front + [x];
      assert x in multiset(sub);
      var i := SplitAt(exams, x);
      var rest := exams[..i] + exams[i + 1..];
      DemandWithout(exams, i, t);
      Singleton(x, t);
      assert forall e :: e in rest ==> e in exams;
      DemandMonotone(front, rest, t);
    }
  }

  lemma {:induction false} SupplyMonotone(bookings: seq<Booking>, more: seq<Booking>, t: int)
    requires RealSeats(more) && multiset(bookings) <= multiset(more)
    ensures ExahmSupply(bookings, t) <= ExahmSupply(more, t) && TotalSupply(bookings, t) <= TotalSupply(more, t)
    decreases |more|
  {
    if bookings == [] {
      if more != [] {
        assert more[|more| - 1] in more;
        SupplyMonotone(bookings, more[..|more| - 1], t);
      }
    } else {
      var front, x := bookings[..|bookings| - 1], bookings[|bookings| - 1];
      assert bookings == front + [x];
      assert x in multiset(bookings);
      var i := SplitAt(more, x);
      var rest := more[..i] + more[i + 1..];
      SupplyWithout(more, i, t);
      assert [x][..0] == [];
      assert forall b :: b in rest ==> b in more;
      SupplyMonotone(front, rest, t);
    }
  }

  /** Main result: a feasible exam set stays feasible with fewer exams and more bookings. */
  lemma FeasibilityMonotone(sub: seq<CumExam>, exams: seq<CumExam>, bookings: seq<Booking>, more: seq<Booking>)
    requires RealDemand(exams) && multiset(sub) <= multiset(exams)
    requires RealSeats(more) && bookings != [] && multiset(bookings) <= multiset(more)
    requires Sweep(exams, bookings) == []
    ensures Sweep(sub, more) == []
  {
    if sub != [] {
      assert sub[0] in multiset(sub);
      assert exams != [];
      assert bookings[0] in multiset(bookings);
      assert more != [];
      EmptySweepMeansFeasible(exams, bookings);
      forall t ensures !Overloaded(sub, more, t) {
        assert !Overloaded(exams, bookings, t);
        DemandMonotone(sub, exams, t);
        SupplyMonotone(bookings, more, t);
      }
      EmptySweepMeansFeasible(sub, more);
    }
  }
}
