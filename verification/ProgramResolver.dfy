/** Internal program names for ZPA codes, and the normalisation of an exam's Primuss ancodes that one
    read path applies twice. Strings are sequences of characters. */
module ProgramResolver {
  import opened Names
  import opened Options

  datatype StudyProgram = StudyProgram(shortname: string, zpaCode: string)

  /** Master programs by ZPA code, and the programs present in the semester. */
  datatype Resolver = Resolver(candidatesByCode: map<string, seq<StudyProgram>>, realized: set<string>)

  function CodeOf(p: StudyProgram): string { if p.zpaCode == "" then p.shortname else p.zpaCode }

  function CandidatesIn(programs: seq<StudyProgram>, code: string): (r: seq<StudyProgram>)
    ensures forall p :: p in r <==> p in programs && ((p.zpaCode != "" && p.zpaCode == code) || (p.zpaCode == "" && p.shortname == code))
  {
    if programs == [] then []
    else
      var last := programs[|programs| - 1];
      assert programs == programs[..|programs| - 1] + [last];
      CandidatesIn(programs[..|programs| - 1], code) + (if CodeOf(last) == code then [last] else [])
  }

  /** The candidates listed for a code. */
  function ListedFor(byCode: map<string, seq<StudyProgram>>, code: string): seq<StudyProgram> {
    if code in byCode then byCode[code] else []
  }

  ghost predicate ByCode(byCode: map<string, seq<StudyProgram>>, programs: seq<StudyProgram>) {
    forall code :: ListedFor(byCode, code) == CandidatesIn(programs, code)
  }

  lemma ByCodeStep(byCode: map<string, seq<StudyProgram>>, programs: seq<StudyProgram>, i: nat)
    requires i < |programs| && ByCode(byCode, programs[..i])
    ensures var code := CodeOf(programs[i]);
            ByCode(byCode[code := ListedFor(byCode, code) + [programs[i]]], programs[..i + 1])
  {
    assert programs[..i + 1][..i] == programs[..i];
    var next, last := programs[..i + 1], programs[i];
    forall code ensures CandidatesIn(next, code) == ListedFor(byCode, code) + if CodeOf(last) == code then [last] else [] {}
  }

  function Candidates(r: Resolver, code: string): seq<StudyProgram> { ListedFor(r.candidatesByCode, code) }

  method NewProgramResolver(programs: seq<StudyProgram>, realized: seq<string>) returns (r: Resolver)
    ensures forall code :: Candidates(r, code) == CandidatesIn(programs, code)
    ensures forall p :: p in r.realized <==> p in realized
  {
    var byCode: map<string, seq<StudyProgram>> := map[];
    for i := 0 to |programs|
      invariant ByCode(byCode, programs[..i])
    {
      ByCodeStep(byCode, programs, i);
      var code := CodeOf(programs[i]);
      byCode := byCode[code := ListedFor(byCode, code) + [programs[i]]];
    }
    assert programs[..|programs|] == programs;
    r := Resolver(byCode, set p | p in realized);
    forall code ensures Candidates(r, code) == CandidatesIn(programs, code) {
      assert ListedFor(byCode, code) == CandidatesIn(programs, code);
    }
  }

  function RealizedIn(candidates: seq<StudyProgram>, realized: set<string>): (r: seq<StudyProgram>)
    ensures forall p :: p in r <==> p in candidates && p.shortname in realized
  {
    if candidates == [] then []
    else
      var last := candidates[|candidates| - 1];
      assert candidates == candidates[..|candidates| - 1] + [last];
      RealizedIn(candidates[..|candidates| - 1], realized) + (if last.shortname in realized then [last] else [])
  }

  function RealizedCandidates(r: Resolver, code: string): seq<StudyProgram> {
    RealizedIn(Candidates(r, code), r.realized)
  }

  function ProgramForCode(r: Resolver, code: string): string {
    var realized := RealizedCandidates(r, code);
    if |realized| == 1 then realized[0].shortname
    else if |realized| > 1 || code in r.realized then code
    else if |Candidates(r, code)| == 1 then Candidates(r, code)[0].shortname
    else code
  }

  /** The program of a study-group name. */
  function Program(r: Resolver, group: string): string {
    if |group| < 2 then group else ProgramForCode(r, group[..2])
  }

  /** No program's internal name is the ZPA code of a program with another name. */
  ghost predicate NoForeignCode(r: Resolver) {
    forall code, code', p, q :: p in Candidates(r, code) && q in Candidates(r, code') && p.shortname == code' ==> q.shortname == code'
  }

  /** A resolved name resolves to itself. */
  lemma ResolvedIsFixed(r: Resolver, code: string)
    requires NoForeignCode(r)
    ensures ProgramForCode(r, ProgramForCode(r, code)) == ProgramForCode(r, code)
  {
    var name := ProgramForCode(r, code);
    if name != code {
      var realized := RealizedCandidates(r, code);
      var p := if |realized| == 1 then realized[0] else Candidates(r, code)[0];
      assert |realized| == 1 ==> p in realized;
      assert p in Candidates(r, code) && p.shortname == name;
      var again := RealizedCandidates(r, name);
      if |again| == 1 {
        var q := again[0];
        assert q in again && q in Candidates(r, name);
      } else if |Candidates(r, name)| == 1 {
        var q := Candidates(r, name)[0];
        assert q in Candidates(r, name);
      }
    }
  }

  /** Program q decides a code: the only realized candidate, or without any the only candidate of a code
      that is no program of the semester itself. */
  predicate Decides(r: Resolver, q: StudyProgram, code: string) {
    var realized := RealizedCandidates(r, code);
    realized == [q] || (realized == [] && code !in r.realized && Candidates(r, code) == [q])
  }

  /** A code becomes the name of the program that decides it, and stays as it is without one. */
  lemma DecidedExact(r: Resolver, code: string)
    ensures forall q :: Decides(r, q, code) ==> ProgramForCode(r, code) == q.shortname
    ensures (forall q :: !Decides(r, q, code)) ==> ProgramForCode(r, code) == code
  {
    var realized := RealizedCandidates(r, code);
    if |realized| == 1 {
      assert Decides(r, realized[0], code);
    } else if realized == [] && code !in r.realized && |Candidates(r, code)| == 1 {
      assert Decides(r, Candidates(r, code)[0], code);
    }
  }

  /** A resolved name resolves to itself exactly if no program of another name decides it as a code. */
  lemma ResolvedIsFixedExact(r: Resolver, code: string)
    ensures ProgramForCode(r, ProgramForCode(r, code)) == ProgramForCode(r, code) <==>
            forall q :: Decides(r, q, ProgramForCode(r, code)) ==> q.shortname == ProgramForCode(r, code)
  {
    var name := ProgramForCode(r, code);
    var realized := RealizedCandidates(r, name);
    if |realized| == 1 {
      assert Decides(r, realized[0], name);
    } else if realized == [] && name !in r.realized && |Candidates(r, name)| == 1 {
      assert Decides(r, Candidates(r, name)[0], name);
    }
  }

  lemma CandidatesOfTwo(p: StudyProgram, q: StudyProgram, code: string)
    ensures CandidatesIn([p, q], code) == (if CodeOf(p) == code then [p] else []) + (if CodeOf(q) == code then [q] else [])
  {
    var two, one := [p, q], [p];
    assert two[..|two| - 1] == one && |one[..|one| - 1]| == 0;
    assert CandidatesIn(one[..|one| - 1], code) == [];
    assert CandidatesIn(one, code) == if CodeOf(p) == code then [p] else [];
  }

  lemma SoleCandidate(r: Resolver, code: string, p: StudyProgram)
    requires Candidates(r, code) == [p] && r.realized == {}
    ensures ProgramForCode(r, code) == p.shortname
  {
    var one := [p];
    assert |one[..|one| - 1]| == 0;
    assert RealizedIn(one[..|one| - 1], r.realized) == [];
    assert RealizedIn(one, r.realized) == [];
  }

  /** With a foreign code the resolution can move on: AB names IF, whose name is the code of XY. */
  lemma ForeignCodeMoves(r: Resolver)
    requires forall code :: Candidates(r, code) == CandidatesIn([StudyProgram("IF", "AB"), StudyProgram("XY", "IF")], code)
    requires r.realized == {}
    ensures ProgramForCode(r, "AB") == "IF" && ProgramForCode(r, "IF") == "XY"
  {
    var p, q := StudyProgram("IF", "AB"), StudyProgram("XY", "IF");
    assert "AB"[0] != "IF"[0];
    CandidatesOfTwo(p, q, "AB");
    CandidatesOfTwo(p, q, "IF");
    SoleCandidate(r, "AB", p);
    SoleCandidate(r, "IF", q);
  }

  // ----- normalising the Primuss ancodes of one exam -----

  /** The name an entry is filed under: resolved, or as it stands. */
  function Key(r: Option<Resolver>, program: string): string {
    if r.Some? then ProgramForCode(r.value, program) else program
  }

  /** The ancode of the last entry filed under p. */
  function LastFor(entries: seq<Primuss>, r: Option<Resolver>, p: string, default: int): int {
    if entries == [] then default
    else
      var last := entries[|entries| - 1];
      if Key(r, last.program) == p then last.ancode else LastFor(entries[..|entries| - 1], r, p, default)
  }

  ghost function GroupPrograms(r: Resolver, groups: seq<string>): set<string> { set g | g in groups :: Program(r, g) }

  ghost function ProgramsOf(entries: seq<Primuss>): set<string> { set e | e in entries :: e.program }

  /** One entry per group program, -1 where ZPA delivered none. */
  ghost function Cleaned(r: Resolver, groups: seq<string>, entries: seq<Primuss>): map<string, int> {
    map p | p in GroupPrograms(r, groups) :: LastFor(entries, Some(r), p, -1)
  }

  /** The entries with the added ones on top. */
  ghost function Overlaid(entries: seq<Primuss>, added: seq<Primuss>): map<string, int> {
    map p | p in ProgramsOf(entries + added) :: LastFor(entries + added, None, p, 0)
  }

  class ZpaExam {
    const ancode: int
    const groups: seq<string>
    var primussAncodes: seq<Primuss>

    constructor (ancode: int, groups: seq<string>, primussAncodes: seq<Primuss>)
      ensures this.ancode == ancode && this.groups == groups && this.primussAncodes == primussAncodes
    {
      this.ancode, this.groups, this.primussAncodes := ancode, groups, primussAncodes;
    }

    method CleanupPrimussAncodes(r: Resolver)
      modifies this
      ensures Lists(primussAncodes, Cleaned(r, groups, old(primussAncodes)))
    {
      var ancodesMap := FileEntries(r, groups, primussAncodes);
      primussAncodes := Enumerate(ancodesMap);
    }

    method AddAddedAncodes(added: seq<Primuss>)
      modifies this
      ensures Lists(primussAncodes, Overlaid(old(primussAncodes), added))
    {
      var all := primussAncodes + added;
      var ancodesMap: map<string, int> := map[];
      for i := 0 to |all|
        invariant ancodesMap.Keys == ProgramsOf(all[..i])
        invariant forall p :: p in ancodesMap ==> ancodesMap[p] == LastFor(all[..i], None, p, 0)
      {
        assert all[..i + 1] == all[..i] + [all[i]] && all[..i + 1][..i] == all[..i];
        ancodesMap := ancodesMap[all[i].program := all[i].ancode];
      }
      assert all[..|all|] == all;
      assert ancodesMap == Overlaid(primussAncodes, added);
      primussAncodes := Enumerate(ancodesMap);
    }

    /** What every read does to a freshly decoded exam. */
    method Normalise(r: Resolver, added: Option<seq<Primuss>>)
      modifies this
      ensures Normalised(r, groups, old(primussAncodes), added, primussAncodes)
    {
      CleanupPrimussAncodes(r);
      ghost var mid := primussAncodes;
      if added.Some? { AddAddedAncodes(added.value); }
      assert Steps(r, groups, old(primussAncodes), added, mid, primussAncodes);
    }
  }

  ghost predicate FiledUnder(r: Resolver, entries: seq<Primuss>, m: map<string, int>, p: string)
    requires p in m
  {
    m[p] == LastFor(entries, Some(r), p, -1)
  }

  ghost predicate Filed(r: Resolver, entries: seq<Primuss>, m: map<string, int>) {
    forall p :: p in m ==> FiledUnder(r, entries, m, p)
  }

  /** One more entry goes under its program, if the exam has that program. */
  function WithEntry(m: map<string, int>, program: string, ancode: int): map<string, int> {
    if program in m then m[program := ancode] else m
  }

  lemma FiledStep(r: Resolver, entries: seq<Primuss>, i: nat, m: map<string, int>, program: string)
    requires i < |entries| && program == ProgramForCode(r, entries[i].program)
    requires Filed(r, entries[..i], m)
    ensures Filed(r, entries[..i + 1], WithEntry(m, program, entries[i].ancode))
  {
    var next, now := entries[..i + 1], WithEntry(m, program, entries[i].ancode);
    assert next[..i] == entries[..i] && Key(Some(r), entries[i].program) == program;
    forall p | p in now ensures FiledUnder(r, next, now, p) { assert FiledUnder(r, entries[..i], m, p); }
  }

  /** The entries filed under the group programs. */
  method FileEntries(r: Resolver, groups: seq<string>, entries: seq<Primuss>) returns (m: map<string, int>)
    ensures m == Cleaned(r, groups, entries)
  {
    m := FillGroups(r, groups);
    for i := 0 to |entries|
      invariant m.Keys == GroupPrograms(r, groups) && Filed(r, entries[..i], m)
    {
      var program := ProgramForCode(r, entries[i].program);
      FiledStep(r, entries, i, m, program);
      m := WithEntry(m, program, entries[i].ancode);
    }
    assert entries[..|entries|] == entries;
    forall p | p in m ensures m[p] == LastFor(entries, Some(r), p, -1) { assert FiledUnder(r, entries, m, p); }
  }

  method FillGroups(r: Resolver, groups: seq<string>) returns (m: map<string, int>)
    ensures m.Keys == GroupPrograms(r, groups) && forall p :: p in m ==> m[p] == -1
  {
    m := map[];
    for i := 0 to |groups|
      invariant m.Keys == GroupPrograms(r, groups[..i]) && forall p :: p in m ==> m[p] == -1
    {
      assert groups[..i + 1] == groups[..i] + [groups[i]];
      m := m[Program(r, groups[i]) := -1];
    }
    assert groups[..|groups|] == groups;
  }

  ghost predicate Steps(r: Resolver, groups: seq<string>, before: seq<Primuss>, added: Option<seq<Primuss>>,
                        mid: seq<Primuss>, after: seq<Primuss>) {
    && Lists(mid, Cleaned(r, groups, before))
    && (if added.Some? then Lists(after, Overlaid(mid, added.value)) else after == mid)
  }

  ghost predicate Normalised(r: Resolver, groups: seq<string>, before: seq<Primuss>, added: Option<seq<Primuss>>, after: seq<Primuss>) {
    exists mid :: Steps(r, groups, before, added, mid, after)
  }

  // ----- normalising twice -----

  function AddedOr(added: Option<seq<Primuss>>): seq<Primuss> { if added.Some? then added.value else [] }

  /** The map a normalised list enumerates. */
  ghost function Result(r: Resolver, groups: seq<string>, before: seq<Primuss>, added: seq<Primuss>): map<string, int> {
    map p | p in GroupPrograms(r, groups) + ProgramsOf(added) ::
      if p in ProgramsOf(added) then LastFor(added, None, p, 0) else LastFor(before, Some(r), p, -1)
  }

  lemma {:induction false} LastForAt(entries: seq<Primuss>, r: Option<Resolver>, p: string, default: int, k: nat)
    requires k < |entries| && Key(r, entries[k].program) == p
    requires forall i :: k < i < |entries| ==> Key(r, entries[i].program) != p
    ensures LastFor(entries, r, p, default) == entries[k].ancode
  {
    if k < |entries| - 1 { LastForAt(entries[..|entries| - 1], r, p, default, k); }
  }

  lemma {:induction false} LastForNone(entries: seq<Primuss>, r: Option<Resolver>, p: string, default: int)
    requires forall i :: 0 <= i < |entries| ==> Key(r, entries[i].program) != p
    ensures LastFor(entries, r, p, default) == default
  {
    if entries != [] { LastForNone(entries[..|entries| - 1], r, p, default); }
  }

  lemma {:induction false} LastForConcat(a: seq<Primuss>, b: seq<Primuss>, r: Option<Resolver>, p: string, default: int)
    ensures LastFor(a + b, r, p, default) == LastFor(b, r, p, LastFor(a, r, p, default))
  {
    if b == [] {
      assert a + b == a;
    } else {
      assert (a + b)[..|a + b| - 1] == a + b[..|b| - 1];
      LastForConcat(a, b[..|b| - 1], r, p, default);
    }
  }

  lemma {:induction false} DefaultUnused(entries: seq<Primuss>, p: string, d: int, e: int)
    requires p in ProgramsOf(entries)
    ensures LastFor(entries, None, p, d) == LastFor(entries, None, p, e)
  {
    var last := entries[|entries| - 1];
    assert entries == entries[..|entries| - 1] + [last];
    if last.program != p { DefaultUnused(entries[..|entries| - 1], p, d, e); }
  }

  lemma ListedValue(s: seq<Primuss>, m: map<string, int>, p: string, d: int)
    requires Lists(s, m)
    ensures LastFor(s, None, p, d) == if p in m then m[p] else d
    ensures p in ProgramsOf(s) <==> p in m
  {
    if p in m {
      assert HasEntry(s, p);
      var k :| 0 <= k < |s| && s[k].program == p;
      forall i | k < i < |s| ensures s[i].program != p { Trichotomy(p, s[i].program); }
      LastForAt(s, None, p, d, k);
      var e := s[k];
      assert e in s;
    } else {
      LastForNone(s, None, p, d);
      forall e | e in s ensures e.program != p {}
    }
  }

  lemma OverlaidKeys(mid: seq<Primuss>, m: map<string, int>, added: seq<Primuss>)
    requires Lists(mid, m)
    ensures ProgramsOf(mid + added) == m.Keys + ProgramsOf(added)
  {
    forall p ensures p in ProgramsOf(mid) <==> p in m { ListedValue(mid, m, p, 0); }
    assert ProgramsOf(mid + added) == ProgramsOf(mid) + ProgramsOf(added);
  }

  lemma OverlaidAt(mid: seq<Primuss>, m: map<string, int>, added: seq<Primuss>, p: string)
    requires Lists(mid, m) && p in m.Keys + ProgramsOf(added)
    ensures LastFor(mid + added, None, p, 0) == if p in ProgramsOf(added) then LastFor(added, None, p, 0) else m[p]
  {
    ListedValue(mid, m, p, 0);
    LastForConcat(mid, added, None, p, 0);
    if p in ProgramsOf(added) {
      DefaultUnused(added, p, LastFor(mid, None, p, 0), 0);
    } else {
      forall i | 0 <= i < |added| ensures added[i].program != p {
        var e := added[i];
        assert e in added;
      }
      LastForNone(added, None, p, LastFor(mid, None, p, 0));
    }
  }

  lemma NormalisedLists(r: Resolver, groups: seq<string>, before: seq<Primuss>, added: Option<seq<Primuss>>, after: seq<Primuss>)
    requires Normalised(r, groups, before, added, after)
    ensures Lists(after, Result(r, groups, before, AddedOr(added)))
  {
    var mid :| Steps(r, groups, before, added, mid, after);
    var m, res := Cleaned(r, groups, before), Result(r, groups, before, AddedOr(added));
    if added.Some? {
      OverlaidKeys(mid, m, added.value);
      forall p | p in m.Keys + ProgramsOf(added.value) ensures LastFor(mid + added.value, None, p, 0) == res[p] {
        OverlaidAt(mid, m, added.value, p);
      }
      SameMap(Overlaid(mid, added.value), res);
    } else {
      SameMap(m, res);
    }
  }

  lemma SameMap(a: map<string, int>, b: map<string, int>)
    requires a.Keys == b.Keys && forall p :: p in a ==> a[p] == b[p]
    ensures a == b
  {}

  lemma ListingDetermines(s: seq<Primuss>, a: map<string, int>, b: map<string, int>)
    requires Lists(s, a) && Lists(s, b)
    ensures a == b
  {
    forall p ensures p in a <==> p in b {
      if p in a { assert HasEntry(s, p); }
      if p in b { assert HasEntry(s, p); }
    }
    forall p | p in a ensures a[p] == b[p] {
      assert HasEntry(s, p);
    }
  }

  /** What the first normalisation stores for a program. */
  ghost function StoredFor(r: Resolver, before: seq<Primuss>, added: seq<Primuss>, q: string): int {
    if q in ProgramsOf(added) then LastFor(added, None, q, 0) else LastFor(before, Some(r), q, -1)
  }

  /** A stored program that the next read files under group program p. */
  ghost predicate Captor(r: Resolver, groups: seq<string>, added: seq<Primuss>, p: string, q: string) {
    q in GroupPrograms(r, groups) + ProgramsOf(added) && ProgramForCode(r, q) == p
  }

  ghost predicate LastCaptor(r: Resolver, groups: seq<string>, added: seq<Primuss>, p: string, q: string) {
    Captor(r, groups, added, p, q) && forall x :: Captor(r, groups, added, p, x) ==> x == q || Less(x, q)
  }

  /** The next read files the same ancode under p again: nothing was there and nothing is filed, or the
      last program filed under p carries p's ancode. */
  ghost predicate KeepsAncode(r: Resolver, groups: seq<string>, before: seq<Primuss>, added: seq<Primuss>, p: string) {
    && ((forall q :: !Captor(r, groups, added, p, q)) ==> LastFor(before, Some(r), p, -1) == -1)
    && (forall q :: LastCaptor(r, groups, added, p, q) ==> StoredFor(r, before, added, q) == LastFor(before, Some(r), p, -1))
  }

  /** Group programs whose ancode comes from the stored list and not from an added entry. */
  ghost predicate Refiled(r: Resolver, groups: seq<string>, added: seq<Primuss>, p: string) {
    p in GroupPrograms(r, groups) && p !in ProgramsOf(added)
  }

  lemma NotBehind(once: seq<Primuss>, k: nat, y: string)
    requires Sorted(once) && k < |once| && HasEntry(once, y)
    requires forall i :: k < i < |once| ==> once[i].program != y
    ensures y == once[k].program || Less(y, once[k].program)
  {}

  /** The last entry filed under p among the first m, if any. */
  lemma {:induction false} LastFiled(entries: seq<Primuss>, r: Resolver, p: string, m: nat) returns (k: int)
    requires m <= |entries|
    ensures -1 <= k < m && (k >= 0 ==> ProgramForCode(r, entries[k].program) == p)
    ensures forall i :: k < i < m ==> ProgramForCode(r, entries[i].program) != p
  {
    if m == 0 {
      k := -1;
    } else if ProgramForCode(r, entries[m - 1].program) == p {
      k := m - 1;
    } else {
      k := LastFiled(entries, r, p, m - 1);
    }
  }

  /** The last captor of a listing decides what is filed. */
  lemma LastFiledIsCaptor(r: Resolver, groups: seq<string>, before: seq<Primuss>, added: seq<Primuss>, once: seq<Primuss>, p: string, k: nat)
    requires Lists(once, Result(r, groups, before, added)) && k < |once| && ProgramForCode(r, once[k].program) == p
    requires forall i :: k < i < |once| ==> ProgramForCode(r, once[i].program) != p
    ensures LastFor(once, Some(r), p, -1) == StoredFor(r, before, added, once[k].program)
    ensures LastCaptor(r, groups, added, p, once[k].program)
    ensures forall q :: LastCaptor(r, groups, added, p, q) ==> q == once[k].program
  {
    var m, x := Result(r, groups, before, added), once[k].program;
    LastForAt(once, Some(r), p, -1, k);
    assert x in m;
    forall y | Captor(r, groups, added, p, y) ensures y == x || Less(y, x) {
      assert y in m && HasEntry(once, y);
      NotBehind(once, k, y);
    }
    forall q | LastCaptor(r, groups, added, p, q) ensures q == x { Trichotomy(q, x); }
  }

  lemma NothingFiled(r: Resolver, groups: seq<string>, before: seq<Primuss>, added: seq<Primuss>, once: seq<Primuss>, p: string)
    requires Lists(once, Result(r, groups, before, added))
    requires forall i :: 0 <= i < |once| ==> ProgramForCode(r, once[i].program) != p
    ensures LastFor(once, Some(r), p, -1) == -1
    ensures forall q :: !Captor(r, groups, added, p, q)
  {
    LastForNone(once, Some(r), p, -1);
    forall q | q in Result(r, groups, before, added) ensures ProgramForCode(r, q) != p { assert HasEntry(once, q); }
  }

  lemma CaptorDecides(r: Resolver, groups: seq<string>, before: seq<Primuss>, added: seq<Primuss>, once: seq<Primuss>, p: string, q: string)
    requires Lists(once, Result(r, groups, before, added)) && LastCaptor(r, groups, added, p, q)
    ensures LastFor(once, Some(r), p, -1) == StoredFor(r, before, added, q)
  {
    var k := LastFiled(once, r, p, |once|);
    if k >= 0 {
      LastFiledIsCaptor(r, groups, before, added, once, p, k);
    } else {
      NothingFiled(r, groups, before, added, once, p);
    }
  }

  /** Filing a normalised list again gives p its ancode back exactly if p keeps it. */
  lemma RefiledExact(r: Resolver, groups: seq<string>, before: seq<Primuss>, added: seq<Primuss>, once: seq<Primuss>, p: string)
    requires Lists(once, Result(r, groups, before, added))
    ensures LastFor(once, Some(r), p, -1) == LastFor(before, Some(r), p, -1) <==> KeepsAncode(r, groups, before, added, p)
  {
    var k := LastFiled(once, r, p, |once|);
    if k >= 0 {
      LastFiledIsCaptor(r, groups, before, added, once, p, k);
    } else {
      NothingFiled(r, groups, before, added, once, p);
    }
  }

  /** Main result: for every resolver, exam and added list, normalising the normalised list again changes
      nothing if and only if every group program without an added entry keeps its ancode. */
  lemma TwiceExact(r: Resolver, groups: seq<string>, before: seq<Primuss>, added: Option<seq<Primuss>>,
                   once: seq<Primuss>, twice: seq<Primuss>)
    requires Normalised(r, groups, before, added, once) && Normalised(r, groups, once, added, twice)
    ensures twice == once <==>
            forall p :: Refiled(r, groups, AddedOr(added), p) ==> KeepsAncode(r, groups, before, AddedOr(added), p)
  {
    var a := AddedOr(added);
    var m1, m2 := Result(r, groups, before, a), Result(r, groups, once, a);
    NormalisedLists(r, groups, before, added, once);
    NormalisedLists(r, groups, once, added, twice);
    SameResultExact(r, groups, before, a, once);
    if twice == once { ListingDetermines(once, m1, m2); }
    if m1 == m2 { ListingUnique(once, twice, m1); }
  }

  lemma SameResultExact(r: Resolver, groups: seq<string>, before: seq<Primuss>, added: seq<Primuss>, once: seq<Primuss>)
    requires Lists(once, Result(r, groups, before, added))
    ensures Result(r, groups, before, added) == Result(r, groups, once, added) <==>
            forall p :: Refiled(r, groups, added, p) ==> KeepsAncode(r, groups, before, added, p)
  {
    var m1, m2 := Result(r, groups, before, added), Result(r, groups, once, added);
    forall p | Refiled(r, groups, added, p) ensures m2[p] == m1[p] <==> KeepsAncode(r, groups, before, added, p) {
      RefiledExact(r, groups, before, added, once, p);
    }
    if forall p :: Refiled(r, groups, added, p) ==> KeepsAncode(r, groups, before, added, p) {
      forall p | p in m1 ensures m2[p] == m1[p] { assert p in ProgramsOf(added) || Refiled(r, groups, added, p); }
      SameMap(m1, m2);
    }
  }

  /** The inputs the read path is meant for. */
  ghost predicate Regular(r: Resolver, groups: seq<string>, added: seq<Primuss>) {
    && NoForeignCode(r)
    && (forall g :: g in groups ==> |g| >= 2)
    && (forall e :: e in added ==> ProgramForCode(r, e.program) == e.program)
  }

  lemma GroupsAreFixed(r: Resolver, groups: seq<string>)
    requires NoForeignCode(r) && forall g :: g in groups ==> |g| >= 2
    ensures forall p :: p in GroupPrograms(r, groups) ==> ProgramForCode(r, p) == p
  {
    forall p | p in GroupPrograms(r, groups) ensures ProgramForCode(r, p) == p {
      var g :| g in groups && Program(r, g) == p;
      ResolvedIsFixed(r, g[..2]);
    }
  }

  /** A group program that only itself is filed under keeps its ancode. */
  lemma FixedKeepsAncode(r: Resolver, groups: seq<string>, before: seq<Primuss>, added: seq<Primuss>, p: string)
    requires Refiled(r, groups, added, p)
    requires forall q :: q in GroupPrograms(r, groups) + ProgramsOf(added) ==> ProgramForCode(r, q) == q
    ensures KeepsAncode(r, groups, before, added, p)
  {
    assert Captor(r, groups, added, p, p);
    forall q | Captor(r, groups, added, p, q) ensures q == p {}
  }

  lemma RegularIsStable(r: Resolver, groups: seq<string>, before: seq<Primuss>, added: seq<Primuss>)
    requires Regular(r, groups, added)
    ensures forall p :: Refiled(r, groups, added, p) ==> KeepsAncode(r, groups, before, added, p)
  {
    GroupsAreFixed(r, groups);
    assert forall q :: q in GroupPrograms(r, groups) + ProgramsOf(added) ==> ProgramForCode(r, q) == q;
    forall p | Refiled(r, groups, added, p) ensures KeepsAncode(r, groups, before, added, p) {
      FixedKeepsAncode(r, groups, before, added, p);
    }
  }

  /** On regular inputs the second normalisation changes nothing. */
  lemma TwiceIsOnce(r: Resolver, groups: seq<string>, before: seq<Primuss>, added: Option<seq<Primuss>>,
                    once: seq<Primuss>, twice: seq<Primuss>)
    requires Regular(r, groups, AddedOr(added))
    requires Normalised(r, groups, before, added, once) && Normalised(r, groups, once, added, twice)
    ensures twice == once
  {
    RegularIsStable(r, groups, before, AddedOr(added));
    TwiceExact(r, groups, before, added, once, twice);
  }

  // ----- where the second normalisation does harm -----

  lemma OneGroup(r: Resolver, group: string)
    ensures GroupPrograms(r, [group]) == {Program(r, group)}
  {
    assert group in [group];
  }

  /** One read of an exam with one study group and one delivered entry. */
  lemma OneGroupOnce(r: Resolver, group: string, code: string, n: int, added: Option<seq<Primuss>>, once: seq<Primuss>)
    requires ProgramForCode(r, code) == Program(r, group) && Program(r, group) !in ProgramsOf(AddedOr(added))
    requires Normalised(r, [group], [Primuss(code, n)], added, once)
    ensures Lists(once, Result(r, [group], [Primuss(code, n)], AddedOr(added)))
    ensures LastFor([Primuss(code, n)], Some(r), Program(r, group), -1) == LastFor(once, None, Program(r, group), 0) == n
  {
    var before, p := [Primuss(code, n)], Program(r, group);
    OneGroup(r, group);
    NormalisedLists(r, [group], before, added, once);
    LastForAt(before, Some(r), p, -1, 0);
    ListedValue(once, Result(r, [group], before, AddedOr(added)), p, 0);
  }

  lemma OneGroupTwice(r: Resolver, group: string, added: Option<seq<Primuss>>, once: seq<Primuss>, twice: seq<Primuss>)
    requires Program(r, group) !in ProgramsOf(AddedOr(added))
    requires Normalised(r, [group], once, added, twice)
    ensures LastFor(twice, None, Program(r, group), 0) == LastFor(once, Some(r), Program(r, group), -1)
  {
    OneGroup(r, group);
    NormalisedLists(r, [group], once, added, twice);
    ListedValue(twice, Result(r, [group], once, AddedOr(added)), Program(r, group), 0);
  }

  /** A group program that resolves on: its delivered ancode is lost on the second read. */
  lemma MovedNameLoses(r: Resolver, group: string, code: string, n: int, once: seq<Primuss>, twice: seq<Primuss>)
    requires ProgramForCode(r, code) == Program(r, group) && ProgramForCode(r, Program(r, group)) != Program(r, group)
    requires Normalised(r, [group], [Primuss(code, n)], None, once) && Normalised(r, [group], once, None, twice)
    ensures LastFor(once, None, Program(r, group), 0) == n && LastFor(twice, None, Program(r, group), 0) == -1
  {
    var p, before := Program(r, group), [Primuss(code, n)];
    OneGroupOnce(r, group, code, n, None, once);
    OneGroupTwice(r, group, None, once, twice);
    forall i | 0 <= i < |once| ensures once[i].program == p {
      OneGroup(r, group);
      assert once[i].program in Result(r, [group], before, []);
    }
    LastForNone(once, Some(r), p, -1);
  }

  /** A program added under a code of the group program that sorts behind it: its ancode replaces the
      delivered one on the second read. */
  lemma AddedCodeReplaces(r: Resolver, group: string, code: string, n: int, q: string, m: int, once: seq<Primuss>, twice: seq<Primuss>)
    requires ProgramForCode(r, code) == ProgramForCode(r, q) == Program(r, group) && Less(Program(r, group), q)
    requires Normalised(r, [group], [Primuss(code, n)], Some([Primuss(q, m)]), once)
    requires Normalised(r, [group], once, Some([Primuss(q, m)]), twice)
    ensures LastFor(once, None, Program(r, group), 0) == n && LastFor(twice, None, Program(r, group), 0) == m
  {
    var p, before, added := Program(r, group), [Primuss(code, n)], [Primuss(q, m)];
    Trichotomy(p, q);
    assert ProgramsOf(added) == {q};
    OneGroupOnce(r, group, code, n, Some(added), once);
    OneGroupTwice(r, group, Some(added), once, twice);
    LastForAt(added, None, q, 0, 0);
    AddedIsLast(r, group, added, q);
    CaptorDecides(r, [group], before, added, once, p, q);
  }

  lemma AddedIsLast(r: Resolver, group: string, added: seq<Primuss>, q: string)
    requires ProgramsOf(added) == {q} && ProgramForCode(r, q) == Program(r, group) && Less(Program(r, group), q)
    ensures LastCaptor(r, [group], added, Program(r, group), q)
  {
    OneGroup(r, group);
  }

  /** A delivered ancode lost: group AB1 belongs to IF, whose name is the ZPA code of XY, so the second read
      files nothing under IF. */
  lemma ForeignCodeLoses(r: Resolver, once: seq<Primuss>, twice: seq<Primuss>)
    requires forall code :: Candidates(r, code) == CandidatesIn([StudyProgram("IF", "AB"), StudyProgram("XY", "IF")], code)
    requires r.realized == {}
    requires Normalised(r, ["AB1"], [Primuss("AB", 10)], None, once) && Normalised(r, ["AB1"], once, None, twice)
    ensures LastFor(once, None, "IF", 0) == 10 && LastFor(twice, None, "IF", 0) == -1
  {
    ForeignCodeMoves(r);
    assert "AB1"[..2] == "AB" && "IF"[0] != "XY"[0];
    MovedNameLoses(r, "AB1", "AB", 10, once, twice);
  }

  /** An ancode replaced: an entry added under the raw ZPA code XX of IF wins on the second read. */
  lemma AddedRawCodeOverrules(r: Resolver, once: seq<Primuss>, twice: seq<Primuss>)
    requires forall code :: Candidates(r, code) == CandidatesIn([StudyProgram("IF", "XX"), StudyProgram("DC", "DC")], code)
    requires r.realized == {}
    requires Normalised(r, ["XX1"], [Primuss("XX", 10)], Some([Primuss("XX", 99)]), once)
    requires Normalised(r, ["XX1"], once, Some([Primuss("XX", 99)]), twice)
    ensures LastFor(once, None, "IF", 0) == 10 && LastFor(twice, None, "IF", 0) == 99
  {
    var p, q := StudyProgram("IF", "XX"), StudyProgram("DC", "DC");
    assert "XX1"[..2] == "XX" && "XX"[0] != "DC"[0];
    CandidatesOfTwo(p, q, "XX");
    SoleCandidate(r, "XX", p);
    assert Less("IF", "XX");
    AddedCodeReplaces(r, "XX1", "XX", 10, "XX", 99, once, twice);
  }

  // ----- the two read paths -----

  datatype ExamDoc = ExamDoc(ancode: int, groups: seq<string>, primussAncodes: seq<Primuss>)

  /** One document read: the same exam with normalised ancodes. */
  ghost predicate ReadDoc(r: Resolver, added: map<int, seq<Primuss>>, doc: ExamDoc, exam: ExamDoc) {
    && exam.ancode == doc.ancode && exam.groups == doc.groups
    && Normalised(r, doc.groups, doc.primussAncodes, Lookup(added, doc.ancode), exam.primussAncodes)
  }

  ghost predicate ReadAll(r: Resolver, added: map<int, seq<Primuss>>, docs: seq<ExamDoc>, exams: seq<ExamDoc>) {
    |exams| == |docs| && forall i :: 0 <= i < |docs| ==> ReadDoc(r, added, docs[i], exams[i])
  }

  method GetZpaExams(r: Resolver, added: map<int, seq<Primuss>>, docs: seq<ExamDoc>) returns (exams: seq<ExamDoc>)
    ensures ReadAll(r, added, docs, exams)
  {
    exams := [];
    for i := 0 to |docs|
      invariant |exams| == i && forall j :: 0 <= j < i ==> ReadDoc(r, added, docs[j], exams[j])
    {
      var exam := new ZpaExam(docs[i].ancode, docs[i].groups, docs[i].primussAncodes);
      exam.Normalise(r, Lookup(added, exam.ancode));
      exams := exams + [ExamDoc(exam.ancode, exam.groups, exam.primussAncodes)];
    }
  }

  function Selected(exams: seq<ExamDoc>, ancodes: set<int>): seq<ExamDoc> {
    if exams == [] then []
    else
      var last := exams[|exams| - 1];
      Selected(exams[..|exams| - 1], ancodes) + (if last.ancode in ancodes then [last] else [])
  }

  /** Some full read, with the selected exams normalised once more. */
  ghost predicate ReadSelected(r: Resolver, added: map<int, seq<Primuss>>, docs: seq<ExamDoc>, ancodes: set<int>, exams: seq<ExamDoc>) {
    exists all :: ReadAll(r, added, docs, all) && ReadAll(r, added, Selected(all, ancodes), exams)
  }

  method GetZpaExamsPlannedOrNot(r: Resolver, added: map<int, seq<Primuss>>, docs: seq<ExamDoc>, ancodes: set<int>) returns (exams: seq<ExamDoc>)
    ensures ReadSelected(r, added, docs, ancodes, exams)
  {
    var read := GetZpaExams(r, added, docs);
    exams := [];
    for i := 0 to |read|
      invariant ReadAll(r, added, Selected(read[..i], ancodes), exams)
    {
      assert read[..i + 1][..i] == read[..i];
      var zpaExam := read[i];
      if zpaExam.ancode in ancodes {
        var exam := new ZpaExam(zpaExam.ancode, zpaExam.groups, zpaExam.primussAncodes);
        exam.Normalise(r, Lookup(added, exam.ancode));
        exams := exams + [ExamDoc(exam.ancode, exam.groups, exam.primussAncodes)];
      }
    }
    assert read[..|read|] == read;
  }

  ghost predicate DocRegular(r: Resolver, added: map<int, seq<Primuss>>, doc: ExamDoc) {
    Regular(r, doc.groups, AddedOr(Lookup(added, doc.ancode)))
  }

  lemma {:induction false} SelectedFrom(r: Resolver, added: map<int, seq<Primuss>>, docs: seq<ExamDoc>, all: seq<ExamDoc>, ancodes: set<int>, k: nat)
      returns (i: nat)
    requires ReadAll(r, added, docs, all) && k < |Selected(all, ancodes)|
    ensures i < |docs| && docs[i].ancode in ancodes && ReadDoc(r, added, docs[i], Selected(all, ancodes)[k])
  {
    var front := all[..|all| - 1];
    if k < |Selected(front, ancodes)| {
      i := SelectedFrom(r, added, docs[..|docs| - 1], front, ancodes, k);
    } else {
      i := |all| - 1;
    }
  }

  lemma {:induction false} SelectedAt(all: seq<ExamDoc>, ancodes: set<int>, i: nat) returns (k: nat)
    requires i < |all| && all[i].ancode in ancodes
    ensures k < |Selected(all, ancodes)| && Selected(all, ancodes)[k] == all[i]
  {
    if i == |all| - 1 {
      k := |Selected(all, ancodes)| - 1;
    } else {
      k := SelectedAt(all[..|all| - 1], ancodes, i);
    }
  }

  /** The second normalisation leaves the document's group programs their ancodes. */
  ghost predicate DocStable(r: Resolver, added: map<int, seq<Primuss>>, doc: ExamDoc) {
    var a := AddedOr(Lookup(added, doc.ancode));
    forall p :: Refiled(r, doc.groups, a, p) ==> KeepsAncode(r, doc.groups, doc.primussAncodes, a, p)
  }

  lemma DocTwiceExact(r: Resolver, added: map<int, seq<Primuss>>, doc: ExamDoc, once: ExamDoc, twice: ExamDoc)
    requires ReadDoc(r, added, doc, once) && ReadDoc(r, added, once, twice)
    ensures twice == once <==> DocStable(r, added, doc)
  {
    TwiceExact(r, doc.groups, doc.primussAncodes, Lookup(added, doc.ancode), once.primussAncodes, twice.primussAncodes);
  }

  lemma ReadTwiceExact(r: Resolver, added: map<int, seq<Primuss>>, docs: seq<ExamDoc>, all: seq<ExamDoc>, ancodes: set<int>, exams: seq<ExamDoc>)
    requires ReadAll(r, added, docs, all) && ReadAll(r, added, Selected(all, ancodes), exams)
    ensures exams == Selected(all, ancodes) <==>
            forall i :: 0 <= i < |docs| && docs[i].ancode in ancodes ==> DocStable(r, added, docs[i])
  {
    var sel := Selected(all, ancodes);
    if forall i :: 0 <= i < |docs| && docs[i].ancode in ancodes ==> DocStable(r, added, docs[i]) {
      forall k | 0 <= k < |sel| ensures exams[k] == sel[k] {
        var i := SelectedFrom(r, added, docs, all, ancodes, k);
        assert ReadDoc(r, added, sel[k], exams[k]);
        DocTwiceExact(r, added, docs[i], sel[k], exams[k]);
      }
    }
    if exams == sel {
      forall i | 0 <= i < |docs| && docs[i].ancode in ancodes ensures DocStable(r, added, docs[i]) {
        assert ReadDoc(r, added, docs[i], all[i]);
        var k := SelectedAt(all, ancodes, i);
        assert ReadDoc(r, added, sel[k], exams[k]);
        DocTwiceExact(r, added, docs[i], sel[k], exams[k]);
      }
    }
  }

  /** A read is a function of the stored documents. */
  lemma ReadUnique(r: Resolver, added: map<int, seq<Primuss>>, docs: seq<ExamDoc>, a: seq<ExamDoc>, b: seq<ExamDoc>)
    requires ReadAll(r, added, docs, a) && ReadAll(r, added, docs, b)
    ensures a == b
  {
    forall i | 0 <= i < |docs| ensures a[i] == b[i] {
      var doc, extra := docs[i], Lookup(added, docs[i].ancode);
      assert ReadDoc(r, added, doc, a[i]) && ReadDoc(r, added, doc, b[i]);
      NormalisedLists(r, doc.groups, doc.primussAncodes, extra, a[i].primussAncodes);
      NormalisedLists(r, doc.groups, doc.primussAncodes, extra, b[i].primussAncodes);
      ListingUnique(a[i].primussAncodes, b[i].primussAncodes, Result(r, doc.groups, doc.primussAncodes, AddedOr(extra)));
    }
  }

  /** Main result: the planned-or-not read returns the full read filtered by ancode if and only if the
      second normalisation leaves every selected document's ancodes in place. */
  lemma PlannedIsFilteredExact(r: Resolver, added: map<int, seq<Primuss>>, docs: seq<ExamDoc>, all: seq<ExamDoc>, ancodes: set<int>, exams: seq<ExamDoc>)
    requires ReadAll(r, added, docs, all) && ReadSelected(r, added, docs, ancodes, exams)
    ensures exams == Selected(all, ancodes) <==>
            forall i :: 0 <= i < |docs| && docs[i].ancode in ancodes ==> DocStable(r, added, docs[i])
  {
    var other :| ReadAll(r, added, docs, other) && ReadAll(r, added, Selected(other, ancodes), exams);
    ReadUnique(r, added, docs, all, other);
    ReadTwiceExact(r, added, docs, all, ancodes, exams);
  }

  /** So on regular documents it always does. */
  lemma PlannedIsFiltered(r: Resolver, added: map<int, seq<Primuss>>, docs: seq<ExamDoc>, all: seq<ExamDoc>, ancodes: set<int>, exams: seq<ExamDoc>)
    requires ReadAll(r, added, docs, all) && ReadSelected(r, added, docs, ancodes, exams)
    requires forall i :: 0 <= i < |docs| ==> DocRegular(r, added, docs[i])
    ensures exams == Selected(all, ancodes)
  {
    forall i | 0 <= i < |docs| ensures DocStable(r, added, docs[i]) {
      var doc := docs[i];
      RegularIsStable(r, doc.groups, doc.primussAncodes, AddedOr(Lookup(added, doc.ancode)));
    }
    PlannedIsFilteredExact(r, added, docs, all, ancodes, exams);
  }
}
