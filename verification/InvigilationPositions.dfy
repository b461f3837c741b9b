/** The positions of the invigilation plan: one per planned room and slot, one reserve per slot; the fixed
    assignments; and the write-back of a finished plan. Starts are seconds. */
module InvigilationPositions {
  import opened Names
  import opened Options

  datatype PlannedRoom = PlannedRoom(name: string, duration: int, nta: bool)

  datatype Position = Position(start: int, room: string, isReserve: bool, isNta: bool, isSelf: bool, minutes: int, block: int)

  /** A slot's room, or its reserve. */
  type Key = (int, Option<string>)

  function KeyOf(p: Position): Key { (p.start, if p.isReserve then None else Some(p.room)) }

  /** The rooms planned at a start, and the examiners who invigilate their own room. */
  datatype Setting = Setting(rooms: map<int, seq<PlannedRoom>>, self: map<(int, string), int>)

  function RoomsAt(t: Setting, start: int): seq<PlannedRoom> { if start in t.rooms then t.rooms[start] else [] }

  function Max(a: int, b: int): int { if a > b then a else b }

  predicate HasRoom(rooms: seq<PlannedRoom>, name: string) { exists i :: 0 <= i < |rooms| && rooms[i].name == name }

  /** The longest duration of a room, never below 0. */
  function MaxDuration(rooms: seq<PlannedRoom>, name: string): int {
    if rooms == [] then 0
    else
      var last := rooms[|rooms| - 1];
      Max(MaxDuration(rooms[..|rooms| - 1], name), if last.name == name then last.duration else 0)
  }

  predicate AnyNta(rooms: seq<PlannedRoom>, name: string) { exists i :: 0 <= i < |rooms| && rooms[i].name == name && rooms[i].nta }

  function SlotMax(rooms: seq<PlannedRoom>): int {
    if rooms == [] then 0 else Max(SlotMax(rooms[..|rooms| - 1]), rooms[|rooms| - 1].duration)
  }

  // ----- what the positions shall be -----

  predicate Wanted(t: Setting, slots: seq<int>, key: Key) {
    && key.0 in slots && RoomsAt(t, key.0) != []
    && (key.1.Some? ==> HasRoom(RoomsAt(t, key.0), key.1.value))
  }

  function PositionFor(t: Setting, key: Key): Position {
    var (start, rooms) := (key.0, RoomsAt(t, key.0));
    if key.1.None? then Position(start, "", true, false, false, 60, SlotMax(rooms))
    else
      var name := key.1.value;
      var self := (start, name) in t.self;
      var block := MaxDuration(rooms, name);
      Position(start, name, false, AnyNta(rooms, name), self, if self then 0 else block, block)
  }

  /** Positions built so far, with the two index maps and the self-invigilations. */
  datatype Build = Build(positions: seq<Position>, roomIndex: map<(int, string), nat>, reserveAt: map<int, nat>, fixed: map<nat, int>)

  function Find(b: Build, key: Key): Option<nat> {
    if key.1.None? then (if key.0 in b.reserveAt then Some(b.reserveAt[key.0]) else None)
    else if (key.0, key.1.value) in b.roomIndex then Some(b.roomIndex[(key.0, key.1.value)]) else None
  }

  ghost predicate IndexedAt(t: Setting, b: Build, i: nat)
    requires i < |b.positions|
  {
    var key := KeyOf(b.positions[i]);
    && Find(b, key) == Some(i)
    && b.positions[i] == PositionFor(t, key)
    && (if b.positions[i].isSelf then i in b.fixed && b.fixed[i] == t.self[(key.0, key.1.value)] else i !in b.fixed)
  }

  /** The two index maps and the positions are inverse to each other; fixed is the self-invigilations. */
  ghost predicate Indexed(t: Setting, b: Build) {
    && (forall i {:trigger IndexedAt(t, b, i)} :: 0 <= i < |b.positions| ==> IndexedAt(t, b, i))
    && (forall i :: i in b.fixed ==> i < |b.positions|)
    && (forall key {:trigger Find(b, key)} :: Find(b, key).Some? ==> Find(b, key).value < |b.positions| && KeyOf(b.positions[Find(b, key).value]) == key)
  }

  ghost predicate Complete(t: Setting, slots: seq<int>, b: Build) {
    Indexed(t, b) && forall key {:trigger Find(b, key)} :: Find(b, key).Some? <==> Wanted(t, slots, key)
  }

  function AddPosition(t: Setting, b: Build, key: Key): Build {
    var n, pos := |b.positions|, PositionFor(t, key);
    Build(b.positions + [pos],
          if key.1.Some? then b.roomIndex[(key.0, key.1.value) := n] else b.roomIndex,
          if key.1.None? then b.reserveAt[key.0 := n] else b.reserveAt,
          if pos.isSelf then b.fixed[n := t.self[(key.0, key.1.value)]] else b.fixed)
  }

  lemma AddIndexed(t: Setting, b: Build, key: Key)
    requires Indexed(t, b) && Find(b, key).None?
    ensures var c := AddPosition(t, b, key);
            Indexed(t, c) && forall k {:trigger Find(c, k)} :: Find(c, k) == if k == key then Some(|b.positions|) else Find(b, k)
  {
    var c := AddPosition(t, b, key);
    forall k ensures Find(c, k) == if k == key then Some(|b.positions|) else Find(b, k) {}
    forall i | 0 <= i < |c.positions| ensures IndexedAt(t, c, i) {
      if i < |b.positions| { assert IndexedAt(t, b, i); }
    }
  }

  // ----- the sweep over the slots -----

  datatype RoomInfo = RoomInfo(maxDuration: int, isNta: bool)

  ghost predicate Grouped(rooms: seq<PlannedRoom>, m: map<string, RoomInfo>, name: string) {
    if name in m then HasRoom(rooms, name) && m[name] == RoomInfo(MaxDuration(rooms, name), AnyNta(rooms, name))
    else !HasRoom(rooms, name) && MaxDuration(rooms, name) == 0 && !AnyNta(rooms, name)
  }

  lemma GroupStep(rooms: seq<PlannedRoom>, i: nat, name: string)
    requires i < |rooms|
    ensures HasRoom(rooms[..i + 1], name) <==> HasRoom(rooms[..i], name) || rooms[i].name == name
    ensures AnyNta(rooms[..i + 1], name) <==> AnyNta(rooms[..i], name) || (rooms[i].name == name && rooms[i].nta)
    ensures MaxDuration(rooms[..i + 1], name) == Max(MaxDuration(rooms[..i], name), if rooms[i].name == name then rooms[i].duration else 0)
    ensures MaxDuration(rooms[..i], name) >= 0
  {
    var now, next := rooms[..i], rooms[..i + 1];
    assert next[..i] == now && next[i] == rooms[i];
    assert forall j :: 0 <= j < i ==> now[j] == next[j];
    DurationNonNegative(now, name);
    if HasRoom(now, name) {
      var j :| 0 <= j < |now| && now[j].name == name;
      assert next[j].name == name;
    }
    if AnyNta(now, name) {
      var j :| 0 <= j < |now| && now[j].name == name && now[j].nta;
      assert next[j].name == name && next[j].nta;
    }
  }

  lemma {:induction false} DurationNonNegative(rooms: seq<PlannedRoom>, name: string)
    ensures MaxDuration(rooms, name) >= 0
  {
    if rooms != [] { DurationNonNegative(rooms[..|rooms| - 1], name); }
  }

  /** Planned rooms by name, and the longest duration of the slot. */
  method GroupRooms(rooms: seq<PlannedRoom>) returns (roomMap: map<string, RoomInfo>, slotMaxDuration: int)
    ensures forall name :: Grouped(rooms, roomMap, name)
    ensures slotMaxDuration == SlotMax(rooms)
  {
    roomMap, slotMaxDuration := map[], 0;
    for i := 0 to |rooms|
      invariant forall name {:trigger Grouped(rooms[..i], roomMap, name)} :: Grouped(rooms[..i], roomMap, name)
      invariant slotMaxDuration == SlotMax(rooms[..i])
    {
      var room := rooms[i];
      ghost var was, next := roomMap, rooms[..i + 1];
      assert next[..i] == rooms[..i];
      if room.duration > slotMaxDuration { slotMaxDuration := room.duration; }
      var info := if room.name in roomMap then roomMap[room.name] else RoomInfo(0, false);
      if room.duration > info.maxDuration { info := info.(maxDuration := room.duration); }
      if room.nta { info := info.(isNta := true); }
      roomMap := roomMap[room.name := info];
      forall name ensures Grouped(next, roomMap, name) {
        assert Grouped(rooms[..i], was, name);
        GroupStep(rooms, i, name);
      }
    }
    assert rooms[..|rooms|] == rooms;
    forall name ensures Grouped(rooms, roomMap, name) {}
  }

  /** The slot's positions among those of the names so far; the reserve comes last. */
  predicate InSlot(t: Setting, start: int, names: seq<string>, reserve: bool, key: Key) {
    key.0 == start && if key.1.None? then reserve else key.1.value in names
  }

  ghost predicate Extended(t: Setting, before: Build, start: int, names: seq<string>, reserve: bool, now: Build) {
    Indexed(t, now) && forall key {:trigger Find(now, key)} :: Find(now, key).Some? <==> Find(before, key).Some? || InSlot(t, start, names, reserve, key)
  }

  /** One position: the room's as grouped, or the reserve. */
  method AppendRoom(t: Setting, b: Build, start: int, name: string, info: RoomInfo) returns (c: Build)
    requires info == RoomInfo(MaxDuration(RoomsAt(t, start), name), AnyNta(RoomsAt(t, start), name))
    ensures c == AddPosition(t, b, (start, Some(name)))
  {
    var pos := Position(start, name, false, info.isNta, false, info.maxDuration, info.maxDuration);
    var n, fixed := |b.positions|, b.fixed;
    if (start, name) in t.self {
      pos := pos.(isSelf := true, minutes := 0);
      fixed := fixed[n := t.self[(start, name)]];
    }
    c := Build(b.positions + [pos], b.roomIndex[(start, name) := n], b.reserveAt, fixed);
  }

  method AppendReserve(t: Setting, b: Build, start: int, slotMaxDuration: int) returns (c: Build)
    requires slotMaxDuration == SlotMax(RoomsAt(t, start))
    ensures c == AddPosition(t, b, (start, None))
  {
    var n := |b.positions|;
    c := Build(b.positions + [Position(start, "", true, false, false, 60, slotMaxDuration)], b.roomIndex, b.reserveAt[start := n], b.fixed);
  }

  method AppendRooms(t: Setting, b: Build, start: int, names: seq<string>, roomMap: map<string, RoomInfo>) returns (c: Build)
    requires Indexed(t, b) && forall key: Key {:trigger Find(b, key)} :: key.0 == start ==> Find(b, key).None?
    requires forall i, j :: 0 <= i < j < |names| ==> names[i] != names[j]
    requires forall i :: 0 <= i < |names| ==> names[i] in roomMap && Grouped(RoomsAt(t, start), roomMap, names[i])
    ensures Extended(t, b, start, names, false, c)
  {
    c := b;
    for i := 0 to |names|
      invariant Extended(t, b, start, names[..i], false, c)
    {
      var name := names[i];
      var key: Key := (start, Some(name));
      assert names[..i + 1] == names[..i] + [name] && name !in names[..i];
      assert Find(c, key).Some? <==> Find(b, key).Some? || InSlot(t, start, names[..i], false, key);
      AddIndexed(t, c, key);
      c := AppendRoom(t, c, start, name, roomMap[name]);
    }
    assert names[..|names|] == names;
  }

  method AddSlot(t: Setting, b: Build, slots: seq<int>, k: nat) returns (c: Build)
    requires k < |slots| && slots[k] !in slots[..k] && Complete(t, slots[..k], b)
    ensures Complete(t, slots[..k + 1], c)
  {
    var start := slots[k];
    var rooms := RoomsAt(t, start);
    assert slots[..k + 1] == slots[..k] + [start];
    if |rooms| == 0 {
      forall key ensures Find(b, key).Some? <==> Wanted(t, slots[..k + 1], key) {}
      return b;
    }
    var roomMap, slotMaxDuration := GroupRooms(rooms);
    var roomNames := SortNames(roomMap.Keys);
    forall i | 0 <= i < |roomNames| ensures roomNames[i] in roomMap && Grouped(rooms, roomMap, roomNames[i]) { assert roomNames[i] in roomNames; }
    c := AppendRooms(t, b, start, roomNames, roomMap);
    ghost var withRooms := c;
    var reserve: Key := (start, None);
    assert Find(c, reserve).Some? <==> Find(b, reserve).Some? || InSlot(t, start, roomNames, false, reserve);
    AddIndexed(t, c, reserve);
    c := AppendReserve(t, c, start, slotMaxDuration);
    SlotComplete(t, b, withRooms, c, slots, k, roomNames, roomMap);
  }

  lemma SlotComplete(t: Setting, b: Build, withRooms: Build, c: Build, slots: seq<int>, k: nat, names: seq<string>, roomMap: map<string, RoomInfo>)
    requires k < |slots| && RoomsAt(t, slots[k]) != [] && Complete(t, slots[..k], b)
    requires Extended(t, b, slots[k], names, false, withRooms) && Indexed(t, c)
    requires forall key: Key {:trigger Find(c, key)} :: Find(c, key).Some? <==> key == (slots[k], None) || Find(withRooms, key).Some?
    requires forall name :: name in names <==> name in roomMap
    requires forall name :: Grouped(RoomsAt(t, slots[k]), roomMap, name)
    ensures Complete(t, slots[..k + 1], c)
  {
    assert slots[..k + 1] == slots[..k] + [slots[k]];
    forall key: Key ensures Find(c, key).Some? <==> Wanted(t, slots[..k + 1], key) {
      assert Find(withRooms, key).Some? <==> Find(b, key).Some? || InSlot(t, slots[k], names, false, key);
      assert Find(b, key).Some? <==> Wanted(t, slots[..k], key);
      if key.1.Some? { assert Grouped(RoomsAt(t, slots[k]), roomMap, key.1.value); }
    }
  }

  ghost predicate DistinctStarts(slots: seq<int>) { forall i, j :: 0 <= i < j < |slots| ==> slots[i] != slots[j] }

  /** All positions: exactly one per start and planned room name and one reserve per slot with rooms. */
  method SweepSlots(t: Setting, slots: seq<int>) returns (b: Build)
    requires DistinctStarts(slots)
    ensures Complete(t, slots, b)
  {
    b := Build([], map[], map[], map[]);
    for k := 0 to |slots|
      invariant Complete(t, slots[..k], b)
    {
      assert slots[k] !in slots[..k];
      b := AddSlot(t, b, slots, k);
    }
    assert slots[..|slots|] == slots;
  }

  /** What completeness says about one key: exactly one position, with the longest duration as its block. */
  lemma OnePositionPerKey(t: Setting, slots: seq<int>, b: Build, key: Key)
    requires Complete(t, slots, b)
    ensures (exists i :: 0 <= i < |b.positions| && KeyOf(b.positions[i]) == key) <==> Wanted(t, slots, key)
    ensures forall i, j :: 0 <= i < |b.positions| && 0 <= j < |b.positions| && KeyOf(b.positions[i]) == key && KeyOf(b.positions[j]) == key ==> i == j
    ensures forall i :: 0 <= i < |b.positions| && KeyOf(b.positions[i]) == key ==> b.positions[i] == PositionFor(t, key)
  {
    forall i | 0 <= i < |b.positions| && KeyOf(b.positions[i]) == key
      ensures Find(b, key) == Some(i) && b.positions[i] == PositionFor(t, key)
    {
      assert IndexedAt(t, b, i);
    }
    assert Find(b, key).Some? <==> Wanted(t, slots, key);
  }

  /** The block of a room is reached by one of its entries and exceeded by none. */
  lemma {:induction false} BlockIsMaximum(rooms: seq<PlannedRoom>, name: string)
    ensures forall i :: 0 <= i < |rooms| && rooms[i].name == name ==> rooms[i].duration <= MaxDuration(rooms, name)
    ensures MaxDuration(rooms, name) == 0 || exists i :: 0 <= i < |rooms| && rooms[i].name == name && rooms[i].duration == MaxDuration(rooms, name)
  {
    if rooms != [] {
      var front := rooms[..|rooms| - 1];
      BlockIsMaximum(front, name);
      assert forall i :: 0 <= i < |front| ==> front[i] == rooms[i];
      DurationNonNegative(front, name);
    }
  }

  /** The block of a reserve is the longest of its slot: no shorter than any room's, and some entry's. */
  lemma {:induction false} SlotMaximum(rooms: seq<PlannedRoom>)
    ensures forall i :: 0 <= i < |rooms| ==> rooms[i].duration <= SlotMax(rooms) && MaxDuration(rooms, rooms[i].name) <= SlotMax(rooms)
    ensures SlotMax(rooms) >= 0 && (SlotMax(rooms) == 0 || exists i :: 0 <= i < |rooms| && rooms[i].duration == SlotMax(rooms))
  {
    if rooms != [] {
      var front := rooms[..|rooms| - 1];
      SlotMaximum(front);
      assert forall i :: 0 <= i < |front| ==> front[i] == rooms[i];
    }
    forall i | 0 <= i < |rooms| ensures MaxDuration(rooms, rooms[i].name) <= SlotMax(rooms) {
      BlockIsMaximum(rooms, rooms[i].name);
    }
  }

  /** What a position counts for an invigilator: the reserve an hour, the own room nothing, any other room
      its longest duration. */
  lemma MinutesCounted(t: Setting, slots: seq<int>, b: Build, i: nat)
    requires Complete(t, slots, b) && i < |b.positions|
    ensures var p := b.positions[i];
            && (p.isReserve ==> p.minutes == 60 && !p.isSelf && p.block == SlotMax(RoomsAt(t, p.start)))
            && (!p.isReserve ==> (p.isSelf <==> (p.start, p.room) in t.self) && p.block == MaxDuration(RoomsAt(t, p.start), p.room))
            && (!p.isReserve ==> p.minutes == if p.isSelf then 0 else p.block)
            && (p.isNta <==> !p.isReserve && AnyNta(RoomsAt(t, p.start), p.room))
  {
    assert IndexedAt(t, b, i);
  }

  // ----- pre-planned invigilations -----

  datatype PrePlanned = PrePlanned(start: Option<int>, room: Option<string>, invigilator: int)

  /** The last pre-planned invigilator of a key. */
  function PrePlannedFor(pps: seq<PrePlanned>, key: Key): Option<int> {
    if pps == [] then None
    else
      var pp := pps[|pps| - 1];
      if pp.start == Some(key.0) && pp.room == key.1 then Some(pp.invigilator) else PrePlannedFor(pps[..|pps| - 1], key)
  }

  predicate Matches(t: Setting, slots: seq<int>, pp: PrePlanned) {
    pp.start.Some? && Wanted(t, slots, (pp.start.value, pp.room))
  }

  /** Self-invigilations, overridden by the pre-planning. */
  function FixedFor(t: Setting, pps: seq<PrePlanned>, key: Key): Option<int> {
    if PrePlannedFor(pps, key).Some? then PrePlannedFor(pps, key)
    else if key.1.Some? && (key.0, key.1.value) in t.self then Some(t.self[(key.0, key.1.value)])
    else None
  }

  predicate PlansFor(pp: PrePlanned, key: Key) { pp.start == Some(key.0) && pp.room == key.1 }

  /** The last pre-planning of a position decides, over a self-invigilation too. */
  lemma {:induction false} LastPrePlanned(t: Setting, pps: seq<PrePlanned>, key: Key, k: nat)
    requires k < |pps| && PlansFor(pps[k], key) && forall i :: k < i < |pps| ==> !PlansFor(pps[i], key)
    ensures PrePlannedFor(pps, key) == FixedFor(t, pps, key) == Some(pps[k].invigilator)
  {
    if k < |pps| - 1 { LastPrePlanned(t, pps[..|pps| - 1], key, k); }
  }

  ghost predicate FixedExact(t: Setting, b: Build, pps: seq<PrePlanned>, fixed: map<nat, int>) {
    && (forall i: nat {:trigger Lookup(fixed, i)} :: i < |b.positions| ==> Lookup(fixed, i) == FixedFor(t, pps, KeyOf(b.positions[i])))
    && (forall i :: i in fixed ==> i < |b.positions|)
  }

  /** None if a pre-planned invigilation has no position. */
  method ApplyPrePlanned(t: Setting, slots: seq<int>, b: Build, pps: seq<PrePlanned>) returns (fixed: Option<map<nat, int>>)
    requires Complete(t, slots, b)
    ensures fixed.Some? <==> forall i :: 0 <= i < |pps| ==> Matches(t, slots, pps[i])
    ensures fixed.Some? ==> FixedExact(t, b, pps, fixed.value)
  {
    var now: map<nat, int> := b.fixed;
    forall i: nat | i < |b.positions| ensures Lookup(now, i) == FixedFor(t, pps[..0], KeyOf(b.positions[i])) {
      assert IndexedAt(t, b, i);
    }
    for k := 0 to |pps|
      invariant forall i :: 0 <= i < k ==> Matches(t, slots, pps[i])
      invariant FixedExact(t, b, pps[..k], now)
    {
      var pp := pps[k];
      if pp.start.None? { return None; }
      var key: Key := (pp.start.value, pp.room);
      var idx := Find(b, key);
      if idx.None? { return None; }
      PrePlannedStep(t, b, pps, k, now, key);
      now := now[idx.value := pp.invigilator];
    }
    assert pps[..|pps|] == pps;
    return Some(now);
  }

  lemma PrePlannedStep(t: Setting, b: Build, pps: seq<PrePlanned>, k: nat, now: map<nat, int>, key: Key)
    requires Indexed(t, b) && k < |pps| && FixedExact(t, b, pps[..k], now)
    requires pps[k].start == Some(key.0) && pps[k].room == key.1 && Find(b, key).Some?
    ensures FixedExact(t, b, pps[..k + 1], now[Find(b, key).value := pps[k].invigilator])
  {
    var next := pps[..k + 1];
    assert next[..k] == pps[..k];
    var now' := now[Find(b, key).value := pps[k].invigilator];
    forall i: nat | i < |b.positions| ensures Lookup(now', i) == FixedFor(t, next, KeyOf(b.positions[i])) {
      assert IndexedAt(t, b, i);
      assert Lookup(now, i) == FixedFor(t, pps[..k], KeyOf(b.positions[i]));
    }
  }

  // ----- writing a plan back -----

  datatype Invigilation = Invigilation(start: int, room: Option<string>, duration: int, invigilator: int, isReserve: bool, prePlanned: bool)

  predicate Written(p: Position, invigilator: Option<int>) { invigilator.Some? && !p.isSelf }

  function Saved(p: Position, invigilator: int, prePlanned: bool): Invigilation {
    Invigilation(p.start, if p.isReserve then None else Some(p.room), p.block, invigilator, p.isReserve, prePlanned)
  }

  function SavedUpTo(positions: seq<Position>, assign: seq<Option<int>>, fixed: map<nat, int>, n: nat): seq<Invigilation>
    requires n <= |positions| == |assign|
  {
    if n == 0 then []
    else
      SavedUpTo(positions, assign, fixed, n - 1) +
      (if Written(positions[n - 1], assign[n - 1]) then [Saved(positions[n - 1], assign[n - 1].value, n - 1 in fixed)] else [])
  }

  method WriteBack(positions: seq<Position>, assign: seq<Option<int>>, fixed: map<nat, int>) returns (toSave: seq<Invigilation>)
    requires |positions| == |assign|
    ensures toSave == SavedUpTo(positions, assign, fixed, |positions|)
  {
    toSave := [];
    for i := 0 to |positions|
      invariant toSave == SavedUpTo(positions, assign, fixed, i)
    {
      if assign[i].None? { continue; }
      var pos := positions[i];
      if pos.isSelf { continue; }
      var roomName := if pos.isReserve then None else Some(pos.room);
      toSave := toSave + [Invigilation(pos.start, roomName, pos.block, assign[i].value, pos.isReserve, i in fixed)];
    }
  }

  function SavedKey(s: Invigilation): Key { (s.start, s.room) }

  predicate SavedFrom(b: Build, assign: seq<Option<int>>, fixed: map<nat, int>, i: nat, s: Invigilation)
    requires i < |b.positions| == |assign|
  {
    Written(b.positions[i], assign[i]) && s == Saved(b.positions[i], assign[i].value, i in fixed)
  }

  lemma {:induction false} SavedExact(b: Build, assign: seq<Option<int>>, fixed: map<nat, int>, n: nat)
    requires n <= |b.positions| == |assign|
    ensures forall s :: s in SavedUpTo(b.positions, assign, fixed, n) <==> exists i :: 0 <= i < n && SavedFrom(b, assign, fixed, i, s)
  {
    if n > 0 {
      SavedExact(b, assign, fixed, n - 1);
      forall s ensures s in SavedUpTo(b.positions, assign, fixed, n) <==> exists i :: 0 <= i < n && SavedFrom(b, assign, fixed, i, s) {
        var front := SavedUpTo(b.positions, assign, fixed, n - 1);
        if SavedFrom(b, assign, fixed, n - 1, s) { assert s == SavedUpTo(b.positions, assign, fixed, n)[|front|]; }
      }
    }
  }

  ghost predicate DistinctKeys(saved: seq<Invigilation>) {
    forall i, j :: 0 <= i < j < |saved| ==> SavedKey(saved[i]) != SavedKey(saved[j])
  }

  lemma {:induction false} SavedDistinct(t: Setting, b: Build, assign: seq<Option<int>>, fixed: map<nat, int>, n: nat)
    requires Indexed(t, b) && n <= |b.positions| == |assign|
    ensures DistinctKeys(SavedUpTo(b.positions, assign, fixed, n))
  {
    if n > 0 {
      SavedDistinct(t, b, assign, fixed, n - 1);
      SavedExact(b, assign, fixed, n - 1);
      var front := SavedUpTo(b.positions, assign, fixed, n - 1);
      forall k | 0 <= k < |front| ensures SavedKey(front[k]) != KeyOf(b.positions[n - 1]) {
        var s := front[k];
        assert s in front;
        var i :| 0 <= i < n - 1 && SavedFrom(b, assign, fixed, i, s);
        assert IndexedAt(t, b, i) && IndexedAt(t, b, n - 1);
      }
      if Written(b.positions[n - 1], assign[n - 1]) {
        assert SavedUpTo(b.positions, assign, fixed, n) == front + [Saved(b.positions[n - 1], assign[n - 1].value, n - 1 in fixed)];
      } else {
        assert SavedUpTo(b.positions, assign, fixed, n) == front;
      }
    }
  }

  /** Main result: the written plan holds every assigned position that is not a self-invigilation once,
      under its own key, with its invigilator, its block as duration, and the pre-planned flag exactly for
      fixed positions -- and nothing else. */
  lemma WriteBackExact(t: Setting, slots: seq<int>, b: Build, assign: seq<Option<int>>, fixed: map<nat, int>, key: Key)
    requires Complete(t, slots, b) && |assign| == |b.positions|
    ensures var saved := SavedUpTo(b.positions, assign, fixed, |b.positions|);
            && (forall i, j :: 0 <= i < |saved| && 0 <= j < |saved| && SavedKey(saved[i]) == SavedKey(saved[j]) ==> i == j)
            && ((exists s :: s in saved && SavedKey(s) == key) <==>
                Wanted(t, slots, key) && Written(PositionFor(t, key), assign[Find(b, key).value]))
            && (forall s :: s in saved && SavedKey(s) == key ==>
                  && Find(b, key).Some? && assign[Find(b, key).value] == Some(s.invigilator)
                  && (s.prePlanned <==> Find(b, key).value in fixed) && (s.isReserve <==> key.1.None?)
                  && s.duration == if key.1.None? then SlotMax(RoomsAt(t, key.0)) else MaxDuration(RoomsAt(t, key.0), key.1.value))
  {
    var saved := SavedUpTo(b.positions, assign, fixed, |b.positions|);
    SavedExact(b, assign, fixed, |b.positions|);
    SavedDistinct(t, b, assign, fixed, |b.positions|);
    assert Find(b, key).Some? <==> Wanted(t, slots, key);
    if Wanted(t, slots, key) {
      var i := Find(b, key).value;
      assert IndexedAt(t, b, i);
      if Written(b.positions[i], assign[i]) {
        var s := Saved(b.positions[i], assign[i].value, i in fixed);
        assert SavedFrom(b, assign, fixed, i, s) && s in saved;
      }
    }
    forall s | s in saved && SavedKey(s) == key
      ensures Wanted(t, slots, key) && SavedFrom(b, assign, fixed, Find(b, key).value, s) && IndexedAt(t, b, Find(b, key).value)
    {
      var i :| 0 <= i < |b.positions| && SavedFrom(b, assign, fixed, i, s);
      assert IndexedAt(t, b, i);
    }
  }

  /** A pre-planned invigilation that the plan respects reaches the database exactly if its position is
      not a self-invigilation: there the self-invigilation overrides it silently. */
  lemma PrePlannedWrittenExact(t: Setting, slots: seq<int>, b: Build, pps: seq<PrePlanned>, assign: seq<Option<int>>, fixed: map<nat, int>, key: Key)
    requires Complete(t, slots, b) && FixedExact(t, b, pps, fixed) && |assign| == |b.positions|
    requires forall i :: i in fixed && i < |assign| ==> assign[i] == Some(fixed[i])
    requires Wanted(t, slots, key) && PrePlannedFor(pps, key).Some?
    ensures (exists s :: s in SavedUpTo(b.positions, assign, fixed, |b.positions|) && SavedKey(s) == key &&
                         s.invigilator == PrePlannedFor(pps, key).value && s.prePlanned)
            <==> !PositionFor(t, key).isSelf
  {
    var saved := SavedUpTo(b.positions, assign, fixed, |b.positions|);
    assert Find(b, key).Some?;
    var i := Find(b, key).value;
    assert IndexedAt(t, b, i);
    assert Lookup(fixed, i) == FixedFor(t, pps, key);
    WriteBackExact(t, slots, b, assign, fixed, key);
    SavedExact(b, assign, fixed, |b.positions|);
    if !PositionFor(t, key).isSelf {
      var s := Saved(b.positions[i], assign[i].value, i in fixed);
      assert SavedFrom(b, assign, fixed, i, s) && s in saved && SavedKey(s) == key;
    }
  }
}
