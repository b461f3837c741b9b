/** From Primuss conflict counts to conflicts between ZPA exams: exact sums per exam, then the sums over
    a same-slot group. */
module ConflictAggregation {
  import opened Seqs
  import opened Options

  datatype Identity = Identity(program: string, ancode: int)

  datatype PrimussConflict = PrimussConflict(ancode: int, studs: int)

  datatype PrimussExam = PrimussExam(program: string, ancode: int, conflicts: seq<PrimussConflict>)

  datatype ConnectedExam = ConnectedExam(ancode: int, primussExams: seq<PrimussExam>)

  datatype Conflict = Conflict(ancode: int, studs: int)

  // ----- Primuss identities -----

  predicate Has(e: ConnectedExam, id: Identity) {
    exists i :: 0 <= i < |e.primussExams| && Identity(e.primussExams[i].program, e.primussExams[i].ancode) == id
  }

  /** The exam an identity is connected to; the last one wins. */
  function OwnerOf(exams: seq<ConnectedExam>, id: Identity): Option<int> {
    if exams == [] then None
    else if Has(exams[|exams| - 1], id) then Some(exams[|exams| - 1].ancode)
    else OwnerOf(exams[..|exams| - 1], id)
  }

  /** The last exam with the identity owns it. */
  lemma {:induction false} LastOwns(exams: seq<ConnectedExam>, id: Identity, i: nat)
    requires i < |exams| && Has(exams[i], id) && forall j :: i < j < |exams| ==> !Has(exams[j], id)
    ensures OwnerOf(exams, id) == Some(exams[i].ancode)
  {
    if i < |exams| - 1 { LastOwns(exams[..|exams| - 1], id, i); }
  }

  method PrimussAncodesToZpaAncodes(exams: seq<ConnectedExam>) returns (m: map<Identity, int>)
    ensures forall id :: Lookup(m, id) == OwnerOf(exams, id)
  {
    m := map[];
    for i := 0 to |exams|
      invariant forall id :: Lookup(m, id) == OwnerOf(exams[..i], id)
    {
      var e := exams[i];
      assert exams[..i + 1][..i] == exams[..i];
      ghost var was := m;
      for j := 0 to |e.primussExams|
        invariant forall id :: Lookup(m, id) == if Has(ConnectedExam(e.ancode, e.primussExams[..j]), id) then Some(e.ancode) else Lookup(was, id)
      {
        var pe := e.primussExams[j];
        ghost var now, next := ConnectedExam(e.ancode, e.primussExams[..j]), ConnectedExam(e.ancode, e.primussExams[..j + 1]);
        HasGrows(now, next, pe);
        m := m[Identity(pe.program, pe.ancode) := e.ancode];
      }
      assert e.primussExams[..|e.primussExams|] == e.primussExams;
      assert ConnectedExam(e.ancode, e.primussExams) == e;
    }
    assert exams[..|exams|] == exams;
  }

  lemma HasGrows(now: ConnectedExam, next: ConnectedExam, pe: PrimussExam)
    requires next.primussExams == now.primussExams + [pe]
    ensures forall id :: Has(next, id) <==> Has(now, id) || id == Identity(pe.program, pe.ancode)
  {
    forall id ensures Has(next, id) <==> Has(now, id) || id == Identity(pe.program, pe.ancode) {
      if Has(now, id) {
        var i :| 0 <= i < |now.primussExams| && Identity(now.primussExams[i].program, now.primussExams[i].ancode) == id;
        assert next.primussExams[i] == now.primussExams[i];
      }
      assert next.primussExams[|now.primussExams|] == pe;
    }
  }

  // ----- phase one -----

  /** The students of one Primuss exam's conflicts that count for ZPA exam k. */
  function CountedFor(m: map<Identity, int>, pe: PrimussExam, conflicts: seq<PrimussConflict>, k: int): int {
    if conflicts == [] then 0
    else
      var c := conflicts[|conflicts| - 1];
      CountedFor(m, pe, conflicts[..|conflicts| - 1], k) + (if Counts(m, pe, c) == Some(k) then c.studs else 0)
  }

  /** The exam a conflict counts for; none for the exam itself and for unconnected exams. */
  function Counts(m: map<Identity, int>, pe: PrimussExam, c: PrimussConflict): Option<int> {
    if c.ancode == pe.ancode then None else Lookup(m, Identity(pe.program, c.ancode))
  }

  function TotalFor(m: map<Identity, int>, pes: seq<PrimussExam>, k: int): int {
    if pes == [] then 0
    else
      var pe := pes[|pes| - 1];
      TotalFor(m, pes[..|pes| - 1], k) + CountedFor(m, pe, pe.conflicts, k)
  }

  function Get(m: map<int, int>, k: int): int { if k in m then m[k] else 0 }

  method AddConflicts(m: map<Identity, int>, pe: PrimussExam, acc: map<int, int>) returns (r: map<int, int>)
    ensures forall k :: Get(r, k) == Get(acc, k) + CountedFor(m, pe, pe.conflicts, k)
    ensures forall k :: k in r <==> k in acc || exists i :: 0 <= i < |pe.conflicts| && Counts(m, pe, pe.conflicts[i]) == Some(k)
  {
    r := acc;
    for j := 0 to |pe.conflicts|
      invariant forall k :: Get(r, k) == Get(acc, k) + CountedFor(m, pe, pe.conflicts[..j], k)
      invariant forall k :: k in r <==> k in acc || exists i :: 0 <= i < j && Counts(m, pe, pe.conflicts[i]) == Some(k)
    {
      assert pe.conflicts[..j + 1][..j] == pe.conflicts[..j];
      var c := pe.conflicts[j];
      if c.ancode == pe.ancode { continue; }
      var id := Identity(pe.program, c.ancode);
      if id in m {
        var zpaAncode := m[id];
        r := r[zpaAncode := if zpaAncode in r then r[zpaAncode] + c.studs else c.studs];
      }
    }
    assert pe.conflicts[..|pe.conflicts|] == pe.conflicts;
  }

  /** Sum over the entries for k: its count in a list without repeated ancodes. */
  function Studs(conflicts: seq<Conflict>, k: int): int {
    if conflicts == [] then 0
    else
      var c := conflicts[|conflicts| - 1];
      Studs(conflicts[..|conflicts| - 1], k) + (if c.ancode == k then c.studs else 0)
  }

  ghost predicate Listed(conflicts: seq<Conflict>, k: int) { exists i :: 0 <= i < |conflicts| && conflicts[i].ancode == k }

  ghost predicate AscendingConflicts(conflicts: seq<Conflict>) {
    forall i, j :: 0 <= i < j < |conflicts| ==> conflicts[i].ancode < conflicts[j].ancode
  }

  /** The conflict list of a map of counts, ancodes ascending. */
  method ListConflicts(m: map<int, int>) returns (conflicts: seq<Conflict>)
    ensures AscendingConflicts(conflicts)
    ensures forall k :: Studs(conflicts, k) == Get(m, k)
    ensures forall k :: Listed(conflicts, k) <==> k in m
  {
    var keys := SortedKeys(m.Keys);
    conflicts := [];
    for i := 0 to |keys|
      invariant |conflicts| == i && forall j :: 0 <= j < i ==> conflicts[j].ancode == keys[j]
      invariant forall k :: Studs(conflicts, k) == if k in keys[..i] then Get(m, k) else 0
    {
      assert keys[i] in keys;
      ghost var was := conflicts;
      conflicts := conflicts + [Conflict(keys[i], m[keys[i]])];
      assert conflicts[..i] == was && keys[..i + 1] == keys[..i] + [keys[i]];
      assert keys[i] !in keys[..i];
    }
    assert keys[..|keys|] == keys;
    forall k ensures Listed(conflicts, k) <==> k in m {
      if k in m {
        assert k in keys;
        var i :| 0 <= i < |keys| && keys[i] == k;
        assert conflicts[i].ancode == k;
      }
      if Listed(conflicts, k) {
        var i :| 0 <= i < |conflicts| && conflicts[i].ancode == k;
        assert keys[i] in keys;
      }
    }
  }

  /** A conflict of one of the exam's Primuss exams counts for k. */
  ghost predicate Touches(m: map<Identity, int>, pes: seq<PrimussExam>, k: int) {
    exists i :: 0 <= i < |pes| && TouchedBy(m, pes[i], k)
  }

  ghost predicate TouchedBy(m: map<Identity, int>, pe: PrimussExam, k: int) {
    exists i :: 0 <= i < |pe.conflicts| && Counts(m, pe, pe.conflicts[i]) == Some(k)
  }

  /** The exact phase-one conflicts of one connected exam. */
  ghost predicate PhaseOne(m: map<Identity, int>, e: ConnectedExam, conflicts: seq<Conflict>) {
    && AscendingConflicts(conflicts)
    && (forall k :: Studs(conflicts, k) == TotalFor(m, e.primussExams, k))
    && (forall k :: Listed(conflicts, k) <==> Touches(m, e.primussExams, k))
  }

  method AssembleConflicts(m: map<Identity, int>, e: ConnectedExam) returns (conflicts: seq<Conflict>)
    ensures PhaseOne(m, e, conflicts)
  {
    var conflictsMap: map<int, int> := map[];
    for i := 0 to |e.primussExams|
      invariant forall k :: Get(conflictsMap, k) == TotalFor(m, e.primussExams[..i], k)
      invariant forall k :: k in conflictsMap <==> exists j :: 0 <= j < i && TouchedBy(m, e.primussExams[j], k)
    {
      assert e.primussExams[..i + 1][..i] == e.primussExams[..i];
      conflictsMap := AddConflicts(m, e.primussExams[i], conflictsMap);
    }
    assert e.primussExams[..|e.primussExams|] == e.primussExams;
    conflicts := ListConflicts(conflictsMap);
  }

  // ----- what phase one means between two exams -----

  /** Ancodes and Primuss identities are unique, and m files every identity under its exam. */
  ghost predicate Connected(m: map<Identity, int>, exams: seq<ConnectedExam>) {
    && (forall id :: Lookup(m, id) == OwnerOf(exams, id))
    && (forall i, j :: 0 <= i < |exams| && 0 <= j < |exams| && exams[i].ancode == exams[j].ancode ==> i == j)
    && (forall i, j, id :: 0 <= i < |exams| && 0 <= j < |exams| && Has(exams[i], id) && Has(exams[j], id) ==> i == j)
    && (forall i :: 0 <= i < |exams| ==> DistinctIdentities(exams[i].primussExams))
  }

  ghost predicate DistinctIdentities(pes: seq<PrimussExam>) {
    forall i, j :: 0 <= i < j < |pes| ==> pes[i].program != pes[j].program || pes[i].ancode != pes[j].ancode
  }

  lemma {:induction false} OwnerExact(exams: seq<ConnectedExam>, id: Identity, i: nat)
    requires i < |exams|
    requires forall j :: 0 <= j < |exams| && exams[i].ancode == exams[j].ancode ==> i == j
    requires forall j, k :: 0 <= j < |exams| && 0 <= k < |exams| && Has(exams[j], id) && Has(exams[k], id) ==> j == k
    ensures OwnerOf(exams, id) == Some(exams[i].ancode) <==> Has(exams[i], id)
  {
    var n := |exams| - 1;
    if i < n {
      OwnerExact(exams[..n], id, i);
    } else if !Has(exams[n], id) {
      OwnerIsListed(exams[..n], id);
    }
  }

  lemma {:induction false} OwnerIsListed(exams: seq<ConnectedExam>, id: Identity)
    ensures OwnerOf(exams, id).Some? ==> exists j :: 0 <= j < |exams| && exams[j].ancode == OwnerOf(exams, id).value
  {
    if exams != [] {
      OwnerIsListed(exams[..|exams| - 1], id);
    }
  }

  predicate SameProgramPair(x: PrimussExam, y: PrimussExam) { x.program == y.program && x.ancode != y.ancode }

  /** Students of x's conflict entries with ancode b. */
  function Shared(conflicts: seq<PrimussConflict>, b: int): int {
    if conflicts == [] then 0
    else
      var c := conflicts[|conflicts| - 1];
      Shared(conflicts[..|conflicts| - 1], b) + (if c.ancode == b then c.studs else 0)
  }

  /** Students two Primuss exams share according to x's list; only within a program. */
  function Weight(x: PrimussExam, y: PrimussExam): int {
    if SameProgramPair(x, y) then Shared(x.conflicts, y.ancode) else 0
  }

  function Row(x: PrimussExam, ys: seq<PrimussExam>): int {
    if ys == [] then 0 else Row(x, ys[..|ys| - 1]) + Weight(x, ys[|ys| - 1])
  }

  /** Students shared by any two Primuss exams, one from each side. */
  function Between(xs: seq<PrimussExam>, ys: seq<PrimussExam>): int {
    if xs == [] then 0 else Between(xs[..|xs| - 1], ys) + Row(xs[|xs| - 1], ys)
  }

  /** One more conflict entry adds its students once if it names one of the ys. */
  lemma {:induction false} RowGrows(x: PrimussExam, c: PrimussConflict, more: PrimussExam, ys: seq<PrimussExam>)
    requires DistinctIdentities(ys) && more == x.(conflicts := x.conflicts + [c])
    ensures Row(more, ys) == Row(x, ys) +
            if c.ancode != x.ancode && Has(ConnectedExam(0, ys), Identity(x.program, c.ancode)) then c.studs else 0
  {
    if ys != [] {
      var front, y := ys[..|ys| - 1], ys[|ys| - 1];
      RowGrows(x, c, more, front);
      assert more.conflicts[..|more.conflicts| - 1] == x.conflicts;
      HasGrows(ConnectedExam(0, front), ConnectedExam(0, ys), y);
      if y.program == x.program && y.ancode == c.ancode {
        forall i | 0 <= i < |front| ensures Identity(front[i].program, front[i].ancode) != Identity(x.program, c.ancode) {
          assert front[i] == ys[i];
        }
      }
    }
  }

  lemma {:induction false} CountedIsRow(m: map<Identity, int>, exams: seq<ConnectedExam>, x: PrimussExam, f: nat)
    requires Connected(m, exams) && f < |exams|
    ensures CountedFor(m, x, x.conflicts, exams[f].ancode) == Row(x, exams[f].primussExams)
    decreases |x.conflicts|
  {
    var ys := exams[f].primussExams;
    if x.conflicts == [] {
      EmptyRow(x, ys);
    } else {
      var n := |x.conflicts| - 1;
      var less, c := x.(conflicts := x.conflicts[..n]), x.conflicts[n];
      assert x.conflicts == less.conflicts + [c];
      CountedIsRow(m, exams, less, f);
      RowGrows(less, c, x, ys);
      CountedAlike(m, less, x, less.conflicts, exams[f].ancode);
      var id := Identity(x.program, c.ancode);
      OwnerExact(exams, id, f);
      assert Lookup(m, id) == OwnerOf(exams, id);
      assert Has(ConnectedExam(0, ys), id) <==> Has(exams[f], id);
    }
  }

  lemma {:induction false} EmptyRow(x: PrimussExam, ys: seq<PrimussExam>)
    requires x.conflicts == []
    ensures Row(x, ys) == 0
  {
    if ys != [] { EmptyRow(x, ys[..|ys| - 1]); }
  }

  /** Only program and ancode of the Primuss exam matter for the counting. */
  lemma {:induction false} CountedAlike(m: map<Identity, int>, x: PrimussExam, y: PrimussExam, conflicts: seq<PrimussConflict>, k: int)
    requires x.program == y.program && x.ancode == y.ancode
    ensures CountedFor(m, x, conflicts, k) == CountedFor(m, y, conflicts, k)
  {
    if conflicts != [] { CountedAlike(m, x, y, conflicts[..|conflicts| - 1], k); }
  }

  lemma {:induction false} TotalIsBetween(m: map<Identity, int>, exams: seq<ConnectedExam>, xs: seq<PrimussExam>, f: nat)
    requires Connected(m, exams) && f < |exams|
    ensures TotalFor(m, xs, exams[f].ancode) == Between(xs, exams[f].primussExams)
  {
    if xs != [] {
      TotalIsBetween(m, exams, xs[..|xs| - 1], f);
      CountedIsRow(m, exams, xs[|xs| - 1], f);
    }
  }

  ghost predicate SymmetricCounts(xs: seq<PrimussExam>, ys: seq<PrimussExam>) {
    forall i, j :: 0 <= i < |xs| && 0 <= j < |ys| ==> Weight(xs[i], ys[j]) == Weight(ys[j], xs[i])
  }

  lemma {:induction false} BetweenSymmetric(xs: seq<PrimussExam>, ys: seq<PrimussExam>)
    requires SymmetricCounts(xs, ys)
    ensures Between(xs, ys) == Between(ys, xs)
  {
    if xs == [] {
      BetweenNothing(ys);
    } else {
      var front, x := xs[..|xs| - 1], xs[|xs| - 1];
      BetweenSymmetric(front, ys);
      ColumnSplit(ys, front, x);
      assert front + [x] == xs;
      RowColumn(x, ys);
    }
  }

  lemma {:induction false} BetweenNothing(ys: seq<PrimussExam>)
    ensures Between(ys, []) == 0
  {
    if ys != [] { BetweenNothing(ys[..|ys| - 1]); }
  }

  lemma {:induction false} ColumnSplit(ys: seq<PrimussExam>, front: seq<PrimussExam>, x: PrimussExam)
    ensures Between(ys, front + [x]) == Between(ys, front) + Between(ys, [x])
  {
    if ys != [] {
      ColumnSplit(ys[..|ys| - 1], front, x);
      var y, none := ys[|ys| - 1], [];
      assert (front + [x])[..|front|] == front && [x][..0] == none;
      assert Row(y, [x]) == Row(y, none) + Weight(y, x);
    }
  }

  lemma {:induction false} RowColumn(x: PrimussExam, ys: seq<PrimussExam>)
    requires forall j :: 0 <= j < |ys| ==> Weight(x, ys[j]) == Weight(ys[j], x)
    ensures Row(x, ys) == Between(ys, [x])
  {
    if ys != [] {
      RowColumn(x, ys[..|ys| - 1]);
      var y, none := ys[|ys| - 1], [];
      assert [x][..0] == none;
      assert Row(y, [x]) == Row(y, none) + Weight(y, x);
    }
  }

  /** Main result: the conflict count of two exams is the sum over their Primuss exams of the same
      program, and it is the same in both lists if Primuss counts both ways alike. */
  lemma PhaseOneSymmetric(m: map<Identity, int>, exams: seq<ConnectedExam>, e: nat, f: nat, ofE: seq<Conflict>, ofF: seq<Conflict>)
    requires Connected(m, exams) && e < |exams| && f < |exams|
    requires PhaseOne(m, exams[e], ofE) && PhaseOne(m, exams[f], ofF)
    requires SymmetricCounts(exams[e].primussExams, exams[f].primussExams)
    ensures Studs(ofE, exams[f].ancode) == Between(exams[e].primussExams, exams[f].primussExams) == Studs(ofF, exams[e].ancode)
  {
    TotalIsBetween(m, exams, exams[e].primussExams, f);
    TotalIsBetween(m, exams, exams[f].primussExams, e);
    BetweenSymmetric(exams[e].primussExams, exams[f].primussExams);
  }

  /** A conflict of x's i-th Primuss exam with a Primuss exam of y in the same program, not with itself. */
  predicate Names(x: ConnectedExam, y: ConnectedExam, i: nat, c: PrimussConflict)
    requires i < |x.primussExams|
  {
    c.ancode != x.primussExams[i].ancode && Has(y, Identity(x.primussExams[i].program, c.ancode))
  }

  /** Some Primuss exam of x has a conflict with one of y. */
  ghost predicate NamesExam(x: ConnectedExam, y: ConnectedExam) {
    exists i, j :: 0 <= i < |x.primussExams| && 0 <= j < |x.primussExams[i].conflicts| && Names(x, y, i, x.primussExams[i].conflicts[j])
  }

  /** Phase one lists exactly the exams that the Primuss exams have conflicts with. */
  lemma ListedExact(m: map<Identity, int>, exams: seq<ConnectedExam>, e: nat, f: nat, conflicts: seq<Conflict>)
    requires Connected(m, exams) && e < |exams| && f < |exams| && PhaseOne(m, exams[e], conflicts)
    ensures Listed(conflicts, exams[f].ancode) <==> NamesExam(exams[e], exams[f])
  {
    var pes, k := exams[e].primussExams, exams[f].ancode;
    forall i, j | 0 <= i < |pes| && 0 <= j < |pes[i].conflicts|
      ensures Counts(m, pes[i], pes[i].conflicts[j]) == Some(k) <==> Names(exams[e], exams[f], i, pes[i].conflicts[j])
    {
      var id := Identity(pes[i].program, pes[i].conflicts[j].ancode);
      OwnerExact(exams, id, f);
      assert Lookup(m, id) == OwnerOf(exams, id);
    }
    if Touches(m, pes, k) {
      var i :| 0 <= i < |pes| && TouchedBy(m, pes[i], k);
      var j :| 0 <= j < |pes[i].conflicts| && Counts(m, pes[i], pes[i].conflicts[j]) == Some(k);
      assert Names(exams[e], exams[f], i, pes[i].conflicts[j]);
    }
    if NamesExam(exams[e], exams[f]) {
      var i, j :| 0 <= i < |pes| && 0 <= j < |pes[i].conflicts| && Names(exams[e], exams[f], i, pes[i].conflicts[j]);
      assert TouchedBy(m, pes[i], k);
    }
  }

  // ----- phase two -----

  datatype AssembledExam = AssembledExam(ancode: int, sameSlot: seq<int>, conflicts: seq<Conflict>)

  /** The phase-one list of an ancode; the last exam wins, nothing for unknown ancodes. */
  function PhaseOneOf(exams: seq<AssembledExam>, a: int): seq<Conflict> {
    if exams == [] then []
    else if exams[|exams| - 1].ancode == a then exams[|exams| - 1].conflicts
    else PhaseOneOf(exams[..|exams| - 1], a)
  }

  function PartnerStuds(exams: seq<AssembledExam>, sameSlot: seq<int>, k: int): int {
    if sameSlot == [] then 0
    else PartnerStuds(exams, sameSlot[..|sameSlot| - 1], k) + Studs(PhaseOneOf(exams, sameSlot[|sameSlot| - 1]), k)
  }

  ghost predicate PartnerLists(exams: seq<AssembledExam>, sameSlot: seq<int>, k: int) {
    exists i :: 0 <= i < |sameSlot| && Listed(PhaseOneOf(exams, sameSlot[i]), k)
  }

  /** Own count plus the phase-one count of each partner. */
  ghost predicate Merged(exams: seq<AssembledExam>, e: AssembledExam, r: AssembledExam) {
    && r.ancode == e.ancode && r.sameSlot == e.sameSlot
    && if e.sameSlot == [] then r.conflicts == e.conflicts
       else
         && AscendingConflicts(r.conflicts)
         && (forall k :: Studs(r.conflicts, k) == Studs(e.conflicts, k) + PartnerStuds(exams, e.sameSlot, k))
         && (forall k :: Listed(r.conflicts, k) <==> Listed(e.conflicts, k) || PartnerLists(exams, e.sameSlot, k))
  }

  /** Adds a conflict list to the counts. */
  method AddList(conflicts: seq<Conflict>, acc: map<int, int>) returns (r: map<int, int>)
    ensures forall k :: Get(r, k) == Get(acc, k) + Studs(conflicts, k)
    ensures forall k :: k in r <==> k in acc || Listed(conflicts, k)
  {
    r := acc;
    for j := 0 to |conflicts|
      invariant forall k :: Get(r, k) == Get(acc, k) + Studs(conflicts[..j], k)
      invariant forall k :: k in r <==> k in acc || exists i :: 0 <= i < j && conflicts[i].ancode == k
    {
      assert conflicts[..j + 1][..j] == conflicts[..j];
      var c := conflicts[j];
      r := r[c.ancode := if c.ancode in r then r[c.ancode] + c.studs else c.studs];
    }
    assert conflicts[..|conflicts|] == conflicts;
  }

  /** The kept list of an ancode, nothing for a missing key. */
  function Kept(perAncode: map<int, seq<Conflict>>, a: int): seq<Conflict> { if a in perAncode then perAncode[a] else [] }

  ghost predicate KeptAside(exams: seq<AssembledExam>, perAncode: map<int, seq<Conflict>>) {
    forall a {:trigger Kept(perAncode, a)} :: Kept(perAncode, a) == PhaseOneOf(exams, a)
  }

  method AddPartners(exams: seq<AssembledExam>, perAncode: map<int, seq<Conflict>>, sameSlot: seq<int>, acc: map<int, int>)
      returns (r: map<int, int>)
    requires KeptAside(exams, perAncode)
    ensures forall k :: Get(r, k) == Get(acc, k) + PartnerStuds(exams, sameSlot, k)
    ensures forall k :: k in r <==> k in acc || PartnerLists(exams, sameSlot, k)
  {
    r := acc;
    for j := 0 to |sameSlot|
      invariant forall k :: Get(r, k) == Get(acc, k) + PartnerStuds(exams, sameSlot[..j], k)
      invariant forall k :: k in r <==> k in acc || exists i :: 0 <= i < j && Listed(PhaseOneOf(exams, sameSlot[i]), k)
    {
      assert sameSlot[..j + 1][..j] == sameSlot[..j];
      r := AddList(Kept(perAncode, sameSlot[j]), r);
    }
    assert sameSlot[..|sameSlot|] == sameSlot;
  }

  method MergePartners(exams: seq<AssembledExam>, perAncode: map<int, seq<Conflict>>, e: AssembledExam) returns (r: AssembledExam)
    requires KeptAside(exams, perAncode)
    ensures Merged(exams, e, r)
  {
    if |e.sameSlot| == 0 { return e; }
    var conflictsMap := AddList(e.conflicts, map[]);
    conflictsMap := AddPartners(exams, perAncode, e.sameSlot, conflictsMap);
    var conflicts := ListConflicts(conflictsMap);
    r := e.(conflicts := conflicts);
  }

  /** Phase two over all exams; the phase-one lists are kept aside before the first is overwritten. */
  method MergeSameSlot(exams: seq<AssembledExam>) returns (r: seq<AssembledExam>)
    ensures |r| == |exams| && forall i :: 0 <= i < |exams| ==> Merged(exams, exams[i], r[i])
  {
    var perAncode: map<int, seq<Conflict>> := map[];
    for i := 0 to |exams|
      invariant KeptAside(exams[..i], perAncode)
    {
      ghost var was, next := perAncode, exams[..i + 1];
      assert next[..i] == exams[..i];
      perAncode := perAncode[exams[i].ancode := exams[i].conflicts];
      forall a ensures Kept(perAncode, a) == PhaseOneOf(next, a) { assert Kept(was, a) == PhaseOneOf(exams[..i], a); }
    }
    assert exams[..|exams|] == exams;
    r := exams;
    for i := 0 to |exams|
      invariant |r| == |exams|
      invariant forall j :: 0 <= j < |exams| ==> if j < i then Merged(exams, exams[j], r[j]) else r[j] == exams[j]
    {
      var merged := MergePartners(exams, perAncode, r[i]);
      r := r[i := merged];
    }
  }

  // ----- order independence -----

  ghost predicate OnePerAncode(exams: seq<AssembledExam>) {
    forall i, j :: 0 <= i < |exams| && 0 <= j < |exams| && exams[i].ancode == exams[j].ancode ==> i == j
  }

  lemma {:induction false} PhaseOneIsUnique(exams: seq<AssembledExam>, e: AssembledExam)
    requires OnePerAncode(exams) && e in exams
    ensures PhaseOneOf(exams, e.ancode) == e.conflicts
  {
    var last := exams[|exams| - 1];
    assert last in exams;
    if last != e {
      assert exams == exams[..|exams| - 1] + [last];
      PhaseOneIsUnique(exams[..|exams| - 1], e);
    }
  }

  lemma {:induction false} PhaseOneMissing(exams: seq<AssembledExam>, a: int)
    requires forall e :: e in exams ==> e.ancode != a
    ensures PhaseOneOf(exams, a) == []
  {
    if exams != [] {
      var last := exams[|exams| - 1];
      assert last in exams;
      assert exams == exams[..|exams| - 1] + [last];
      PhaseOneMissing(exams[..|exams| - 1], a);
    }
  }

  lemma SamePhaseOne(exams: seq<AssembledExam>, other: seq<AssembledExam>, a: int)
    requires OnePerAncode(exams) && OnePerAncode(other) && forall e :: e in exams <==> e in other
    ensures PhaseOneOf(exams, a) == PhaseOneOf(other, a)
  {
    if e :| e in exams && e.ancode == a {
      PhaseOneIsUnique(exams, e);
      PhaseOneIsUnique(other, e);
    } else {
      PhaseOneMissing(exams, a);
      PhaseOneMissing(other, a);
    }
  }

  lemma {:induction false} SamePartnerStuds(exams: seq<AssembledExam>, other: seq<AssembledExam>, sameSlot: seq<int>, k: int)
    requires OnePerAncode(exams) && OnePerAncode(other) && forall e :: e in exams <==> e in other
    ensures PartnerStuds(exams, sameSlot, k) == PartnerStuds(other, sameSlot, k)
  {
    if sameSlot != [] {
      SamePartnerStuds(exams, other, sameSlot[..|sameSlot| - 1], k);
      SamePhaseOne(exams, other, sameSlot[|sameSlot| - 1]);
    }
  }

  // ----- exams in their own lists, and groups -----

  /** The exams with their phase-one lists. */
  ghost predicate Assembled(m: map<Identity, int>, exams: seq<ConnectedExam>, all: seq<AssembledExam>) {
    && Connected(m, exams) && |all| == |exams| && OnePerAncode(all)
    && forall i :: 0 <= i < |exams| ==> all[i].ancode == exams[i].ancode && PhaseOne(m, exams[i], all[i].conflicts)
  }

  /** Exam f is e itself or a partner of e that has a conflict with e. */
  ghost predicate BringsItself(exams: seq<ConnectedExam>, all: seq<AssembledExam>, e: nat, f: int)
    requires e < |exams| == |all|
  {
    0 <= f < |exams| && (f == e || exams[f].ancode in all[e].sameSlot) && NamesExam(exams[f], exams[e])
  }

  /** An exam ends in its own list exactly when a Primuss exam of its own, or of one of its same-slot
      partners, has a conflict with one of its Primuss exams: only the Primuss self conflict is dropped. */
  lemma SelfConflictExact(m: map<Identity, int>, exams: seq<ConnectedExam>, all: seq<AssembledExam>, e: nat, r: AssembledExam)
    requires Assembled(m, exams, all) && e < |exams| && Merged(all, all[e], r)
    ensures Listed(r.conflicts, exams[e].ancode) <==> exists f :: BringsItself(exams, all, e, f)
  {
    var k := exams[e].ancode;
    ListedExact(m, exams, e, e, all[e].conflicts);
    if Listed(all[e].conflicts, k) { assert BringsItself(exams, all, e, e); }
    if PartnerLists(all, all[e].sameSlot, k) {
      var i :| 0 <= i < |all[e].sameSlot| && Listed(PhaseOneOf(all, all[e].sameSlot[i]), k);
      PartnerBrings(m, exams, all, e, all[e].sameSlot[i]);
    }
    if f :| BringsItself(exams, all, e, f) {
      ListedExact(m, exams, f, e, all[f].conflicts);
      if f != e {
        var i :| 0 <= i < |all[e].sameSlot| && all[e].sameSlot[i] == exams[f].ancode;
        PhaseOneIsUnique(all, all[f]);
        assert Listed(PhaseOneOf(all, all[e].sameSlot[i]), k);
      }
    }
  }

  lemma PartnerBrings(m: map<Identity, int>, exams: seq<ConnectedExam>, all: seq<AssembledExam>, e: nat, a: int)
    requires Assembled(m, exams, all) && e < |exams| && a in all[e].sameSlot && Listed(PhaseOneOf(all, a), exams[e].ancode)
    ensures exists f :: BringsItself(exams, all, e, f)
  {
    if x :| x in all && x.ancode == a {
      PhaseOneIsUnique(all, x);
      var f :| 0 <= f < |all| && all[f] == x;
      ListedExact(m, exams, f, e, all[f].conflicts);
      assert BringsItself(exams, all, e, f);
    } else {
      PhaseOneMissing(all, a);
    }
  }

  ghost predicate NoRepeats(s: seq<int>) { forall i, j :: 0 <= i < j < |s| ==> s[i] != s[j] }

  lemma PartnerAppended(exams: seq<AssembledExam>, s: seq<int>, x: int, k: int)
    ensures PartnerStuds(exams, s + [x], k) == PartnerStuds(exams, s, k) + Studs(PhaseOneOf(exams, x), k)
  {
    assert (s + [x])[..|s|] == s;
  }

  /** A partner counts once, wherever it stands in the list. */
  lemma {:induction false} PartnerInserted(exams: seq<AssembledExam>, s: seq<int>, x: int, k: int)
    requires Ascending(s) && x !in s
    ensures PartnerStuds(exams, InsertKey(s, x), k) == PartnerStuds(exams, s, k) + Studs(PhaseOneOf(exams, x), k)
  {
    if s == [] || s[|s| - 1] < x {
      assert InsertKey(s, x) == s + [x];
      PartnerAppended(exams, s, x, k);
    } else {
      var front, last := s[..|s| - 1], s[|s| - 1];
      assert s == front + [last];
      PartnerInserted(exams, front, x, k);
      PartnerAppended(exams, front, last, k);
      PartnerAppended(exams, InsertKey(front, x), last, k);
    }
  }

  lemma {:induction false} PartnersSorted(exams: seq<AssembledExam>, s: seq<int>, k: int)
    requires NoRepeats(s)
    ensures PartnerStuds(exams, SortKeys(s), k) == PartnerStuds(exams, s, k)
  {
    if s != [] {
      var n := |s| - 1;
      PartnersSorted(exams, s[..n], k);
      assert s[n] !in s[..n];
      PartnerInserted(exams, SortKeys(s[..n]), s[n], k);
    }
  }

  /** The whole group of an exam: its partners and itself. */
  function GroupOf(e: AssembledExam): seq<int> { e.sameSlot + [e.ancode] }

  lemma GroupCounts(exams: seq<AssembledExam>, e: AssembledExam, r: AssembledExam, k: int)
    requires OnePerAncode(exams) && e in exams && NoRepeats(GroupOf(e)) && e.sameSlot != [] && Merged(exams, e, r)
    ensures Studs(r.conflicts, k) == PartnerStuds(exams, SortKeys(GroupOf(e)), k)
  {
    var g := GroupOf(e);
    assert g[..|e.sameSlot|] == e.sameSlot;
    PhaseOneIsUnique(exams, e);
    PartnersSorted(exams, g, k);
  }

  ghost predicate MemberLists(exams: seq<AssembledExam>, group: seq<int>, k: int) {
    exists a :: a in group && Listed(PhaseOneOf(exams, a), k)
  }

  lemma PartnerOrMember(exams: seq<AssembledExam>, sameSlot: seq<int>, a: int, k: int)
    ensures MemberLists(exams, sameSlot + [a], k) <==> Listed(PhaseOneOf(exams, a), k) || PartnerLists(exams, sameSlot, k)
  {
    var g := sameSlot + [a];
    if PartnerLists(exams, sameSlot, k) {
      var i :| 0 <= i < |sameSlot| && Listed(PhaseOneOf(exams, sameSlot[i]), k);
      assert g[i] in g;
    }
    assert a in g;
    if MemberLists(exams, g, k) && !Listed(PhaseOneOf(exams, a), k) {
      var x :| x in g && Listed(PhaseOneOf(exams, x), k);
      var i :| 0 <= i < |sameSlot| && sameSlot[i] == x;
    }
  }

  lemma GroupLists(exams: seq<AssembledExam>, e: AssembledExam, r: AssembledExam, k: int)
    requires OnePerAncode(exams) && e in exams && e.sameSlot != [] && Merged(exams, e, r)
    ensures Listed(r.conflicts, k) <==> MemberLists(exams, GroupOf(e), k)
  {
    PhaseOneIsUnique(exams, e);
    PartnerOrMember(exams, e.sameSlot, e.ancode, k);
  }

  /** Main result: all members of a same-slot group end with the same list. */
  lemma MembersAlike(exams: seq<AssembledExam>, e: AssembledExam, f: AssembledExam, r: AssembledExam, s: AssembledExam)
    requires OnePerAncode(exams) && e in exams && f in exams && Merged(exams, e, r) && Merged(exams, f, s)
    requires e.sameSlot != [] && f.sameSlot != [] && NoRepeats(GroupOf(e)) && NoRepeats(GroupOf(f))
    requires forall a :: a in GroupOf(e) <==> a in GroupOf(f)
    ensures r.conflicts == s.conflicts
  {
    AscendingUnique(SortKeys(GroupOf(e)), SortKeys(GroupOf(f)));
    forall k ensures Studs(r.conflicts, k) == Studs(s.conflicts, k) && (Listed(r.conflicts, k) <==> Listed(s.conflicts, k)) {
      GroupCounts(exams, e, r, k);
      GroupCounts(exams, f, s, k);
      GroupLists(exams, e, r, k);
      GroupLists(exams, f, s, k);
    }
    ConflictListUnique(r.conflicts, s.conflicts);
  }

  /** A conflict list is determined by its counts and the ancodes it lists. */
  lemma {:induction false} ConflictListUnique(a: seq<Conflict>, b: seq<Conflict>)
    requires AscendingConflicts(a) && AscendingConflicts(b)
    requires forall k :: Listed(a, k) <==> Listed(b, k)
    requires forall k :: Studs(a, k) == Studs(b, k)
    ensures a == b
  {
    if a == [] {
      if b != [] { SameLast(b, a); }
    } else {
      SameLast(a, b);
      var n := |a| - 1;
      FrontLists(a);
      FrontLists(b);
      ConflictListUnique(a[..n], b[..|b| - 1]);
      assert a == a[..n] + [a[n]] && b == b[..|b| - 1] + [b[|b| - 1]];
    }
  }

  lemma SameLast(a: seq<Conflict>, b: seq<Conflict>)
    requires AscendingConflicts(a) && AscendingConflicts(b) && a != []
    requires forall k :: Listed(a, k) <==> Listed(b, k)
    requires forall k :: Studs(a, k) == Studs(b, k)
    ensures b != [] && a[|a| - 1] == b[|b| - 1]
  {
    var x := a[|a| - 1].ancode;
    assert Listed(a, x) && Listed(b, x);
    var y := b[|b| - 1].ancode;
    assert Listed(b, y) && Listed(a, y);
    FrontLists(a);
    FrontLists(b);
    assert Studs(a, x) == Studs(b, x);
  }

  lemma FrontLists(a: seq<Conflict>)
    requires AscendingConflicts(a) && a != []
    ensures var last, front := a[|a| - 1], a[..|a| - 1];
            && (forall k :: Listed(front, k) <==> Listed(a, k) && k != last.ancode)
            && (forall k :: Studs(front, k) == if k == last.ancode then 0 else Studs(a, k))
  {
    var last, front := a[|a| - 1], a[..|a| - 1];
    NotListedNoStuds(front, last.ancode);
    forall k ensures Listed(front, k) <==> Listed(a, k) && k != last.ancode {
      if Listed(front, k) {
        var i :| 0 <= i < |front| && front[i].ancode == k;
        assert a[i].ancode == k;
      }
      if Listed(a, k) && k != last.ancode {
        var i :| 0 <= i < |a| && a[i].ancode == k;
        assert front[i].ancode == k;
      }
    }
  }

  lemma {:induction false} NotListedNoStuds(a: seq<Conflict>, k: int)
    requires !Listed(a, k)
    ensures Studs(a, k) == 0
  {
    if a != [] {
      var front := a[..|a| - 1];
      forall i | 0 <= i < |front| ensures front[i].ancode != k { assert front[i] == a[i]; }
      NotListedNoStuds(front, k);
    }
  }

  /** Main result: the order in which the exams are processed does not show in any exam's result. */
  lemma OrderIndependent(exams: seq<AssembledExam>, other: seq<AssembledExam>, e: AssembledExam, r: AssembledExam, s: AssembledExam)
    requires OnePerAncode(exams) && OnePerAncode(other) && forall x :: x in exams <==> x in other
    requires Merged(exams, e, r) && Merged(other, e, s)
    ensures r == s
  {
    if e.sameSlot != [] {
      forall k ensures Studs(r.conflicts, k) == Studs(s.conflicts, k) { SamePartnerStuds(exams, other, e.sameSlot, k); }
      forall k ensures Listed(r.conflicts, k) <==> Listed(s.conflicts, k) {
        forall i | 0 <= i < |e.sameSlot| ensures PhaseOneOf(exams, e.sameSlot[i]) == PhaseOneOf(other, e.sameSlot[i]) {
          SamePhaseOne(exams, other, e.sameSlot[i]);
        }
      }
      ConflictListUnique(r.conflicts, s.conflicts);
    }
  }
}
