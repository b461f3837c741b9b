/** Maintenance of the stored SameSlot lists: editing one exam's constraints rewrites the lists of its
    old and new partners, so that the stored groups stay groups. */
module SameSlotConstraints {
  import opened Seqs
  import opened Options
  import opened Graph
  import opened SameSlotRoots

  /** What an exam needs of its rooms, as stored. */
  datatype RoomConstraints = RoomConstraints(allowedRooms: seq<string>, placesWithSocket: bool, lab: bool, seb: bool, exahm: bool,
                                             kdpJiraURL: Option<string>, maxStudents: Option<int>, additionalSeats: Option<int>,
                                             preExamMinutes: Option<int>, postExamMinutes: Option<int>, comments: Option<string>)

  /** ... and as entered; None is a field that was not sent. */
  datatype RoomFields = RoomFields(allowedRooms: Option<seq<string>>, placesWithSocket: Option<bool>, lab: Option<bool>, seb: Option<bool>,
                                   exahm: Option<bool>, kdpJiraURL: Option<string>, maxStudents: Option<int>, additionalSeats: Option<int>,
                                   preExamMinutes: Option<int>, postExamMinutes: Option<int>, comments: Option<string>)

  /** The stored constraints but for the same-slot list. Days and times are opaque numbers. */
  datatype Settings = Settings(notPlannedByMe: bool, doNotPublish: bool, location: Option<string>, planningFk: Option<string>, online: bool,
                               room: Option<RoomConstraints>, fixedDay: Option<int>, fixedTime: Option<int>,
                               excludeDays: seq<int>, possibleDays: seq<int>)

  datatype Fields = Fields(notPlannedByMe: Option<bool>, doNotPublish: Option<bool>, location: Option<string>, planningFk: Option<string>,
                           online: Option<bool>, room: RoomFields, fixedDay: Option<int>, fixedTime: Option<int>,
                           excludeDays: seq<int>, possibleDays: seq<int>)

  const NO_SETTINGS := Settings(false, false, None, None, false, None, None, None, [], [])
  const NO_ROOM := RoomConstraints([], false, false, false, false, None, None, None, None, None, None)

  datatype ConstraintsDoc = ConstraintsDoc(sameSlot: seq<int>, settings: Settings)

  type Docs = map<int, ConstraintsDoc>

  datatype Input = Input(sameSlot: seq<int>, fields: Fields)

  // ----- what is stored of an input -----

  predicate Is(b: Option<bool>) { b == Some(true) }

  function NonEmpty(t: Option<string>): Option<string> { if t == Some("") then None else t }

  function PositiveOnly(n: Option<int>): Option<int> { if n.Some? && n.value > 0 then n else None }

  /** The exam is planned by somebody else. */
  predicate NotMine(f: Fields) { Is(f.notPlannedByMe) }

  /** One of the fields that bring room constraints about was sent. */
  predicate RoomAsked(r: RoomFields) {
    r.placesWithSocket.Some? || r.lab.Some? || r.seb.Some? || r.exahm.Some? || r.additionalSeats.Some?
    || r.preExamMinutes.Some? || r.postExamMinutes.Some? || r.allowedRooms.Some?
  }

  function Named(rooms: seq<string>): (r: seq<string>)
    ensures "" !in r && forall x :: x in r <==> x in rooms && x != ""
  {
    if rooms == [] then []
    else
      assert rooms == rooms[..|rooms| - 1] + [rooms[|rooms| - 1]];
      Named(rooms[..|rooms| - 1]) + (if rooms[|rooms| - 1] == "" then [] else [rooms[|rooms| - 1]])
  }

  function StoredRoom(r: RoomFields): RoomConstraints {
    RoomConstraints(if r.allowedRooms.Some? then Named(r.allowedRooms.value) else [], Is(r.placesWithSocket), Is(r.lab), Is(r.seb), Is(r.exahm),
                    NonEmpty(r.kdpJiraURL), PositiveOnly(r.maxStudents), PositiveOnly(r.additionalSeats),
                    PositiveOnly(r.preExamMinutes), PositiveOnly(r.postExamMinutes), NonEmpty(r.comments))
  }

  /** What is stored; of an exam not planned by me only what concerns others. */
  function Stored(f: Fields): Settings {
    if NotMine(f) then NO_SETTINGS.(notPlannedByMe := true, doNotPublish := Is(f.doNotPublish), location := NonEmpty(f.location), planningFk := NonEmpty(f.planningFk))
    else Settings(false, Is(f.doNotPublish), NonEmpty(f.location), NonEmpty(f.planningFk), Is(f.online),
                  if RoomAsked(f.room) then Some(StoredRoom(f.room)) else None, f.fixedDay, f.fixedTime, f.excludeDays, f.possibleDays)
  }

  method NamedRooms(rooms: seq<string>) returns (r: seq<string>)
    ensures r == Named(rooms)
  {
    r := [];
    for i := 0 to |rooms|
      invariant r == Named(rooms[..i])
    {
      assert rooms[..i + 1][..i] == rooms[..i];
      if rooms[i] != "" { r := r + [rooms[i]]; }
    }
    assert rooms[..|rooms|] == rooms;
  }

  method ReadRoom(f: RoomFields) returns (r: RoomConstraints)
    ensures r == StoredRoom(f)
  {
    var rooms := [];
    if f.allowedRooms.Some? { rooms := NamedRooms(f.allowedRooms.value); }
    r := RoomConstraints(rooms, Is(f.placesWithSocket), Is(f.lab), Is(f.seb), Is(f.exahm), NonEmpty(f.kdpJiraURL), PositiveOnly(f.maxStudents),
                         PositiveOnly(f.additionalSeats), PositiveOnly(f.preExamMinutes), PositiveOnly(f.postExamMinutes), NonEmpty(f.comments));
  }

  method ReadSettings(f: Fields) returns (s: Settings)
    ensures s == Stored(f)
  {
    s := NO_SETTINGS.(doNotPublish := Is(f.doNotPublish), location := NonEmpty(f.location), planningFk := NonEmpty(f.planningFk));
    if NotMine(f) {
      s := s.(notPlannedByMe := true);
    } else {
      s := s.(online := Is(f.online));
      if RoomAsked(f.room) {
        var room := ReadRoom(f.room);
        s := s.(room := Some(room));
      }
      s := s.(fixedDay := f.fixedDay, fixedTime := f.fixedTime, excludeDays := f.excludeDays, possibleDays := f.possibleDays);
    }
  }

  /** A room wish that brings no room constraints about by itself. */
  predicate MeantForRooms(r: RoomFields) {
    NonEmpty(r.kdpJiraURL).Some? || PositiveOnly(r.maxStudents).Some? || NonEmpty(r.comments).Some?
  }

  /** Exactly: a Jira link, a limit of students and a comment entered for an exam of mine are stored unless
      none of the fields that bring room constraints about is sent along. */
  lemma RoomWishesExact(f: Fields)
    requires !NotMine(f)
    ensures (Stored(f).room.Some? && Stored(f).room.value == StoredRoom(f.room)) || (Stored(f).room.None? && StoredRoom(f.room) == NO_ROOM)
            <==> RoomAsked(f.room) || !MeantForRooms(f.room)
  {}

  /** The stored settings as the form sends them again. */
  function AsFields(s: Settings): Fields {
    Fields(Some(s.notPlannedByMe), Some(s.doNotPublish), s.location, s.planningFk, Some(s.online),
           match s.room
           case None => RoomFields(None, None, None, None, None, None, None, None, None, None, None)
           case Some(r) => RoomFields(Some(r.allowedRooms), Some(r.placesWithSocket), Some(r.lab), Some(r.seb), Some(r.exahm), r.kdpJiraURL,
                                      r.maxStudents, r.additionalSeats, r.preExamMinutes, r.postExamMinutes, r.comments),
           s.fixedDay, s.fixedTime, s.excludeDays, s.possibleDays)
  }

  lemma {:induction false} NamedStable(rooms: seq<string>)
    requires "" !in rooms
    ensures Named(rooms) == rooms
  {
    if rooms != [] {
      var n := |rooms| - 1;
      assert rooms == rooms[..n] + [rooms[n]];
      assert rooms[n] in rooms;
      NamedStable(rooms[..n]);
    }
  }

  /** Sending what was stored stores the same again. */
  lemma StoredStable(f: Fields)
    ensures Stored(AsFields(Stored(f))) == Stored(f)
  {
    if !NotMine(f) && RoomAsked(f.room) {
      NamedStable(StoredRoom(f.room).allowedRooms);
    }
  }

  /** Settings that can be entered: no empty texts, positive numbers only. */
  predicate Enterable(s: Settings) {
    && s.location != Some("") && s.planningFk != Some("")
    && (s.room.Some? ==>
          var r := s.room.value;
          "" !in r.allowedRooms && r.kdpJiraURL != Some("") && r.comments != Some("")
          && PositiveOnly(r.maxStudents) == r.maxStudents && PositiveOnly(r.additionalSeats) == r.additionalSeats
          && PositiveOnly(r.preExamMinutes) == r.preExamMinutes && PositiveOnly(r.postExamMinutes) == r.postExamMinutes)
  }

  /** Of an exam planned by somebody else only this is of interest. */
  predicate OthersOnly(s: Settings) {
    s == NO_SETTINGS.(notPlannedByMe := true, doNotPublish := s.doNotPublish, location := s.location, planningFk := s.planningFk)
  }

  /** Exact: every field entered is stored as entered if and only if the exam is mine or nothing but what
      concerns others was entered. */
  lemma EnteredIsStored(s: Settings)
    requires Enterable(s)
    ensures Stored(AsFields(s)) == s <==> !s.notPlannedByMe || OthersOnly(s)
  {
    if s.room.Some? { NamedStable(s.room.value.allowedRooms); }
  }

  // ----- same-slot lists -----

  ghost function Partners(docs: Docs, a: int): set<int> {
    if a in docs then Elements(docs[a].sameSlot) else {}
  }

  ghost function Group(docs: Docs, a: int): set<int> { Partners(docs, a) + {a} }

  /** The stored lists are groups: nobody is its own partner, and partners list the same group. */
  ghost predicate Cliques(docs: Docs) {
    forall a {:trigger Partners(docs, a)} :: a !in Partners(docs, a) && forall b :: b in Partners(docs, a) ==> Group(docs, b) == Group(docs, a)
  }

  /** The partner lists after an edit of exam a. */
  ghost function NewPartners(docs: Docs, a: int, input: Input, x: int): set<int> {
    if NotMine(input.fields) then (if x == a then {} else Partners(docs, x))
    else if x == a then Elements(input.sameSlot)
    else if x in input.sameSlot then Elements(input.sameSlot) + {a} - {x}
    else if x in Partners(docs, a) then {}
    else Partners(docs, x)
  }

  function SettingsOf(docs: Docs, x: int): Settings { if x in docs then docs[x].settings else NO_SETTINGS }

  ghost predicate EditedAt(docs: Docs, a: int, input: Input, now: Docs, x: int) {
    && Partners(now, x) == NewPartners(docs, a, input, x)
    && SettingsOf(now, x) == if x == a then Stored(input.fields) else SettingsOf(docs, x)
  }

  /** The whole effect of AddConstraints on the collection. */
  ghost predicate Edited(docs: Docs, a: int, input: Input, now: Docs) {
    forall x {:trigger EditedAt(docs, a, input, now, x)} :: EditedAt(docs, a, input, now, x)
  }

  class ConstraintsCollection {
    var docs: Docs

    /** Replace or insert. */
    method Put(a: int, doc: ConstraintsDoc)
      modifies this
      ensures docs == old(docs)[a := doc]
    {
      docs := docs[a := doc];
    }

    method RmSameSlotConstraints(a: int)
      modifies this
      ensures docs == if a in old(docs) then old(docs)[a := old(docs)[a].(sameSlot := [])] else old(docs)
    {
      if a !in docs { return; }
      Put(a, docs[a].(sameSlot := []));
    }

    /** Stores the group for one member: sorted, without repetition and without the member itself. */
    method AddAncodeToSameSlotConstraints(a: int, ancodesToAdd: seq<int>)
      modifies this
      ensures exists l :: Ascending(l) && Elements(l) == Elements(ancodesToAdd) - {a} &&
                          docs == old(docs)[a := ConstraintsDoc(l, SettingsOf(old(docs), a))]
    {
      var unique: seq<int> := [];
      for i := 0 to |ancodesToAdd|
        invariant docs == old(docs)
        invariant Ascending(unique) && forall x :: x in unique <==> x in ancodesToAdd[..i] && x != a
      {
        assert ancodesToAdd[..i + 1] == ancodesToAdd[..i] + [ancodesToAdd[i]];
        if ancodesToAdd[i] != a { unique := InsertKey(unique, ancodesToAdd[i]); }
      }
      assert ancodesToAdd[..|ancodesToAdd|] == ancodesToAdd;
      forall x ensures x in Elements(unique) <==> x in Elements(ancodesToAdd) - {a} {}
      Put(a, ConstraintsDoc(unique, SettingsOf(docs, a)));
    }

    /** Clears the lists of partners that are no longer wanted. */
    method DropPartners(a: int, keep: seq<int>)
      modifies this
      ensures Dropped(old(docs), Partners(old(docs), a) - Elements(keep), docs)
    {
      if a !in docs { return; }
      var rest := set x | x in docs[a].sameSlot && x !in keep;
      ghost var all := rest;
      assert all == Partners(docs, a) - Elements(keep) && all - rest == {};
      while rest != {}
        invariant rest <= all && Dropped(old(docs), all - rest, docs)
        decreases |rest|
      {
        ghost var w := Pick(rest);
        assert w in rest;
        var x :| x in rest;
        ghost var before, gone := docs, all - rest;
        RmSameSlotConstraints(x);
        rest := rest - {x};
        forall y ensures DroppedAt(old(docs), all - rest, docs, y) {
          assert DroppedAt(old(docs), gone, before, y);
          assert y in all - rest <==> y in gone || y == x;
        }
      }
      assert all - {} == all;
    }

    method AddPartners(a: int, sameSlot: seq<int>)
      modifies this
      ensures Added(old(docs), a, sameSlot, sameSlot, docs)
    {
      assert |sameSlot[..0]| == 0;
      for i := 0 to |sameSlot|
        invariant Added(old(docs), a, sameSlot, sameSlot[..i], docs)
      {
        ghost var before := docs;
        AddAncodeToSameSlotConstraints(sameSlot[i], sameSlot + [a]);
        ghost var done := sameSlot[..i + 1];
        assert done == sameSlot[..i] + [sameSlot[i]];
        assert Elements(sameSlot + [a]) == Elements(sameSlot) + {a};
        forall y ensures AddedAt(old(docs), a, sameSlot, done, docs, y) {
          assert AddedAt(old(docs), a, sameSlot, sameSlot[..i], before, y);
        }
      }
      assert sameSlot[..|sameSlot|] == sameSlot;
    }

    /** Editing an exam's constraints. */
    method AddConstraints(a: int, input: Input)
      modifies this
      ensures Edited(old(docs), a, input, docs)
    {
      var settings := ReadSettings(input.fields);
      var doc := ConstraintsDoc([], settings);
      if !NotMine(input.fields) {
        DropPartners(a, input.sameSlot);
        ghost var mid := docs;
        if |input.sameSlot| > 0 {
          doc := doc.(sameSlot := input.sameSlot);
          AddPartners(a, input.sameSlot);
        }
        ghost var added := docs;
        Put(a, doc);
        forall x ensures EditedAt(old(docs), a, input, docs, x) {
          assert DroppedAt(old(docs), Partners(old(docs), a) - Elements(input.sameSlot), mid, x);
          assert AddedAt(mid, a, input.sameSlot, input.sameSlot, added, x);
        }
      } else {
        Put(a, doc);
      }
    }

    method RmConstraints(a: int)
      modifies this
      ensures docs == old(docs) - {a}
    {
      docs := docs - {a};
    }
  }

  ghost predicate DroppedAt(docs: Docs, gone: set<int>, now: Docs, y: int) {
    && Partners(now, y) == (if y in gone then {} else Partners(docs, y))
    && SettingsOf(now, y) == SettingsOf(docs, y)
  }

  ghost predicate Dropped(docs: Docs, gone: set<int>, now: Docs) {
    forall y {:trigger DroppedAt(docs, gone, now, y)} :: DroppedAt(docs, gone, now, y)
  }

  ghost predicate AddedAt(docs: Docs, a: int, group: seq<int>, done: seq<int>, now: Docs, y: int) {
    && Partners(now, y) == (if y in done then Elements(group) + {a} - {y} else Partners(docs, y))
    && SettingsOf(now, y) == SettingsOf(docs, y)
  }

  ghost predicate Added(docs: Docs, a: int, group: seq<int>, done: seq<int>, now: Docs) {
    forall y {:trigger AddedAt(docs, a, group, done, now, y)} :: AddedAt(docs, a, group, done, now, y)
  }

  // ----- groups stay groups -----

  /** No new partner leaves anybody behind: its whole group comes along, or it is in the exam's own. */
  ghost predicate BringsGroup(docs: Docs, a: int, sameSlot: seq<int>) {
    forall p :: p in sameSlot ==> Partners(docs, p) <= Elements(sameSlot) + {a} + Partners(docs, a)
  }

  lemma GroupOfPartner(docs: Docs, a: int, b: int)
    requires Cliques(docs) && b in Partners(docs, a)
    ensures a in Partners(docs, b) && Group(docs, b) == Group(docs, a)
  {
    assert a !in Partners(docs, a) && a in Group(docs, b);
  }

  lemma EditKeepsCliques(docs: Docs, a: int, input: Input, now: Docs)
    requires Cliques(docs) && Edited(docs, a, input, now) && !NotMine(input.fields)
    requires a !in input.sameSlot && BringsGroup(docs, a, input.sameSlot)
    ensures Cliques(now)
  {
    var group := Elements(input.sameSlot) + {a};
    forall x ensures x !in Partners(now, x) && forall y :: y in Partners(now, x) ==> Group(now, y) == Group(now, x) {
      assert EditedAt(docs, a, input, now, x);
      forall y | y in Partners(now, x) ensures Group(now, y) == Group(now, x) {
        assert EditedAt(docs, a, input, now, y);
        if x in group {
          assert Group(now, x) == group && Group(now, y) == group;
        } else {
          GroupOfPartner(docs, x, y);
          OutsiderStaysOutside(docs, a, input.sameSlot, x, y);
        }
      }
    }
  }

  /** A partner of an untouched exam is untouched. */
  lemma OutsiderStaysOutside(docs: Docs, a: int, sameSlot: seq<int>, x: int, y: int)
    requires Cliques(docs) && BringsGroup(docs, a, sameSlot) && y in Partners(docs, x)
    requires x != a && x !in sameSlot && x !in Partners(docs, a)
    ensures y != a && y !in sameSlot && y !in Partners(docs, a)
  {
    GroupOfPartner(docs, x, y);
    if y in Partners(docs, a) { GroupOfPartner(docs, a, y); }
  }

  /** Main result: an edit of an exam planned by me keeps the stored lists groups exactly when the exam
      is not listed with itself and every new partner brings its whole group along. Free partners
      and partners already in the group always qualify. */
  lemma EditKeepsCliquesExact(docs: Docs, a: int, input: Input, now: Docs)
    requires Cliques(docs) && Edited(docs, a, input, now) && !NotMine(input.fields)
    ensures Cliques(now) <==> a !in input.sameSlot && BringsGroup(docs, a, input.sameSlot)
  {
    if a !in input.sameSlot && BringsGroup(docs, a, input.sameSlot) {
      EditKeepsCliques(docs, a, input, now);
    } else if a in input.sameSlot {
      assert EditedAt(docs, a, input, now, a);
      assert a in Partners(now, a);
    } else {
      var p :| p in input.sameSlot && !(Partners(docs, p) <= Elements(input.sameSlot) + {a} + Partners(docs, a));
      var left := Partners(docs, p) - (Elements(input.sameSlot) + {a} + Partners(docs, a));
      var q := Pick(left);
      assert q in left;
      GroupOfPartner(docs, p, q);
      assert EditedAt(docs, a, input, now, q) && EditedAt(docs, a, input, now, p);
      assert p in Partners(now, q) && q !in Group(now, p) && q in Group(now, q);
    }
  }

  /** What the edit leaves: the exam and its partners are one group, dropped partners are free, and
      everybody outside keeps the group it had. */
  lemma GroupsAfterEdit(docs: Docs, a: int, input: Input, now: Docs, x: int)
    requires Cliques(docs) && Edited(docs, a, input, now) && !NotMine(input.fields)
    requires a !in input.sameSlot && BringsGroup(docs, a, input.sameSlot)
    ensures Cliques(now)
    ensures x == a || x in input.sameSlot ==> Group(now, x) == Elements(input.sameSlot) + {a}
    ensures x in Partners(docs, a) && x !in input.sameSlot ==> Group(now, x) == {x}
    ensures x != a && x !in input.sameSlot && x !in Partners(docs, a) ==> Group(now, x) == Group(docs, x)
  {
    EditKeepsCliques(docs, a, input, now);
    assert EditedAt(docs, a, input, now, x);
  }

  /** Handing an exam to another planner drops its list only: its partners keep naming it. */
  lemma HandoverExact(docs: Docs, a: int, input: Input, now: Docs)
    requires Cliques(docs) && Edited(docs, a, input, now) && NotMine(input.fields)
    ensures Cliques(now) <==> Partners(docs, a) == {}
  {
    assert EditedAt(docs, a, input, now, a);
    if Partners(docs, a) == {} {
      forall x ensures Partners(now, x) == Partners(docs, x) { assert EditedAt(docs, a, input, now, x); }
      SamePartnersCliques(docs, now);
    } else {
      forall x ensures x == a || Partners(now, x) == Partners(docs, x) { assert EditedAt(docs, a, input, now, x); }
      LeavesOneNaming(docs, now, a);
    }
  }

  lemma SamePartnersCliques(docs: Docs, now: Docs)
    requires Cliques(docs) && forall x {:trigger Partners(now, x)} :: Partners(now, x) == Partners(docs, x)
    ensures Cliques(now)
  {
    forall x ensures x !in Partners(now, x) && forall y :: y in Partners(now, x) ==> Group(now, y) == Group(now, x) {
      assert Partners(now, x) == Partners(docs, x);
      forall y | y in Partners(now, x) ensures Group(now, y) == Group(now, x) { assert Partners(now, y) == Partners(docs, y); }
    }
  }

  lemma LeavesOneNaming(docs: Docs, now: Docs, a: int)
    requires Cliques(docs) && Partners(docs, a) != {} && Partners(now, a) == {}
    requires forall x {:trigger Partners(now, x)} :: x == a || Partners(now, x) == Partners(docs, x)
    ensures !Cliques(now)
  {
    var b := Pick(Partners(docs, a));
    assert b in Partners(docs, a);
    GroupOfPartner(docs, a, b);
    assert Partners(now, b) == Partners(docs, b);
    assert a in Partners(now, b) && Group(now, a) == {a} && b in Group(now, b);
  }

  /** Deleting an exam's constraints is safe exactly for exams without partners. */
  lemma RemovalExact(docs: Docs, a: int)
    requires Cliques(docs)
    ensures Cliques(docs - {a}) <==> Partners(docs, a) == {}
  {
    var now := docs - {a};
    assert forall x {:trigger Partners(now, x)} :: Partners(now, x) == if x == a then {} else Partners(docs, x);
    if Partners(docs, a) == {} { SamePartnersCliques(docs, now); } else { LeavesOneNaming(docs, now, a); }
  }

  /** A change of the stored constraints. */
  datatype Change = Edit(a: int, input: Input) | Remove(a: int)

  ghost predicate Changed(docs: Docs, ch: Change, now: Docs) {
    match ch
    case Edit(a, input) => Edited(docs, a, input, now)
    case Remove(a) => now == docs - {a}
  }

  /** What to check before a change. */
  ghost predicate Harmless(docs: Docs, ch: Change) {
    match ch
    case Edit(a, input) =>
      if NotMine(input.fields) then Partners(docs, a) == {} else a !in input.sameSlot && BringsGroup(docs, a, input.sameSlot)
    case Remove(a) => Partners(docs, a) == {}
  }

  /** A change keeps groups exactly if it is harmless. */
  lemma ChangeExact(docs: Docs, ch: Change, now: Docs)
    requires Cliques(docs) && Changed(docs, ch, now)
    ensures Cliques(now) <==> Harmless(docs, ch)
  {
    match ch {
      case Edit(a, input) =>
        if NotMine(input.fields) { HandoverExact(docs, a, input, now); } else { EditKeepsCliquesExact(docs, a, input, now); }
      case Remove(a) => RemovalExact(docs, a);
    }
  }

  /** Over any history of edits and removals the stored lists stay groups exactly as long as every change is
      harmless. */
  lemma {:induction false} HistoryKeepsCliques(history: seq<Docs>, changes: seq<Change>)
    requires |history| == |changes| + 1 && Cliques(history[0])
    requires forall i :: 0 <= i < |changes| ==> Changed(history[i], changes[i], history[i + 1])
    ensures (forall i :: 0 <= i < |changes| ==> Harmless(history[i], changes[i])) <==>
            forall i :: 0 <= i < |history| ==> Cliques(history[i])
  {
    if changes != [] {
      var n := |changes| - 1;
      HistoryKeepsCliques(history[..n + 1], changes[..n]);
      if Cliques(history[n]) { ChangeExact(history[n], changes[n], history[n + 1]); }
      assert forall i :: 0 <= i < n ==> changes[..n][i] == changes[i];
      assert forall i :: 0 <= i <= n ==> history[..n + 1][i] == history[i];
    }
  }

  // ----- the union-find over stored groups -----

  function ToConstraints(docs: Docs): SlotConstraints {
    map a | a in docs :: Some(docs[a].sameSlot)
  }

  /** With groups stored, the same-slot graph has the groups for components: following chains of
      partners never reaches an exam that is not a direct partner. */
  lemma ConnectedIsGroup(docs: Docs, a: int, b: int)
    requires Cliques(docs)
    ensures Connected(Edges(ToConstraints(docs)), a, b) <==> b in Group(docs, a)
  {
    var c := ToConstraints(docs);
    if Connected(Edges(c), a, b) {
      var p :| Joins(Edges(c), p, a, b);
      PathInGroup(docs, p, |p| - 1);
    }
    if b in Partners(docs, a) {
      assert SameSlotPair(c, (a, b));
      ConnectedEdge(Edges(c), a, b);
    }
    ConnectedRefl(Edges(c), a);
  }

  lemma {:induction false} PathInGroup(docs: Docs, p: seq<int>, i: nat)
    requires Cliques(docs) && Path(Edges(ToConstraints(docs)), p) && i < |p|
    ensures Group(docs, p[i]) == Group(docs, p[0])
  {
    if i > 0 {
      PathInGroup(docs, p, i - 1);
      var x, y := p[i - 1], p[i];
      assert Adjacent(Edges(ToConstraints(docs)), x, y);
      if y in Partners(docs, x) { GroupOfPartner(docs, x, y); } else { GroupOfPartner(docs, y, x); }
    }
  }
}
