/** From registrations to the unit pairs a schedule must keep apart, and what a clash-free schedule means
    for every student's own exams. */
module StudentPairs {
  import opened Seqs
  import opened Pairs
  import opened HardSeparation

  /** A student's registrations. */
  datatype Student = Student(mtknr: string, ancodes: seq<int>)

  /** Where exams went, which units are foreign, and which unit pairs may share a time. */
  datatype Registry = Registry(unitOf: map<int, int>, foreign: set<int>, canShare: set<(int, int)>)

  /** The units a student's exams went to, ascending. */
  function UnitsOf(g: Registry, ancodes: seq<int>): (list: seq<int>)
    ensures Ascending(list)
    ensures forall u :: u in list <==> exists i :: 0 <= i < |ancodes| && ancodes[i] in g.unitOf && g.unitOf[ancodes[i]] == u
  {
    if ancodes == [] then []
    else
      var front, last := UnitsOf(g, ancodes[..|ancodes| - 1]), ancodes[|ancodes| - 1];
      assert forall i :: 0 <= i < |ancodes| - 1 ==> ancodes[..|ancodes| - 1][i] == ancodes[i];
      if last in g.unitOf then InsertKey(front, g.unitOf[last]) else front
  }

  /** The pair is the schedule's business. */
  predicate Counted(g: Registry, k: (int, int)) {
    !(k.0 in g.foreign && k.1 in g.foreign) && k !in g.canShare
  }

  function CountedPairs(g: Registry, pairs: seq<(int, int)>): (r: seq<(int, int)>)
    ensures forall k :: k in r <==> k in pairs && Counted(g, k)
  {
    if pairs == [] then []
    else
      assert pairs == pairs[..|pairs| - 1] + [pairs[|pairs| - 1]];
      var front := CountedPairs(g, pairs[..|pairs| - 1]);
      if Counted(g, pairs[|pairs| - 1]) then front + [pairs[|pairs| - 1]] else front
  }

  function PairsOf(g: Registry, s: Student): seq<(int, int)> {
    var list := UnitsOf(g, s.ancodes);
    CountedPairs(g, PairsBefore(list, |list|))
  }

  method CollectUnits(g: Registry, s: Student) returns (list: seq<int>)
    ensures list == UnitsOf(g, s.ancodes)
  {
    list := [];
    for i := 0 to |s.ancodes|
      invariant list == UnitsOf(g, s.ancodes[..i])
    {
      assert s.ancodes[..i + 1][..i] == s.ancodes[..i];
      if s.ancodes[i] in g.unitOf { list := InsertKey(list, g.unitOf[s.ancodes[i]]); }
    }
    assert s.ancodes[..|s.ancodes|] == s.ancodes;
  }

  lemma CountedStep(g: Registry, a: seq<(int, int)>, k: (int, int))
    ensures CountedPairs(g, a + [k]) == if Counted(g, k) then CountedPairs(g, a) + [k] else CountedPairs(g, a)
  {
    assert (a + [k])[..|a|] == a;
  }

  lemma RowStep(g: Registry, before: seq<(int, int)>, list: seq<int>, i: nat, j: nat)
    requires i < j < |list|
    ensures CountedPairs(g, before + RowPairs(list, i, j + 1)) ==
            CountedPairs(g, before + RowPairs(list, i, j)) + if Counted(g, (list[i], list[j])) then [(list[i], list[j])] else []
  {
    var k := (list[i], list[j]);
    assert before + RowPairs(list, i, j + 1) == before + RowPairs(list, i, j) + [k];
    CountedStep(g, before + RowPairs(list, i, j), k);
  }

  /** The pairs of one unit with the later ones. */
  method CollectRow(g: Registry, list: seq<int>, i: nat, ghost before: seq<(int, int)>, done: seq<(int, int)>) returns (pairs: seq<(int, int)>)
    requires i < |list| && done == CountedPairs(g, before)
    ensures pairs == CountedPairs(g, before + RowPairs(list, i, |list|))
  {
    pairs := done;
    assert before + RowPairs(list, i, i + 1) == before;
    for j := i + 1 to |list|
      invariant pairs == CountedPairs(g, before + RowPairs(list, i, j))
    {
      var a, b := list[i], list[j];
      RowStep(g, before, list, i, j);
      if a in g.foreign && b in g.foreign { continue; }
      if (a, b) in g.canShare { continue; }
      pairs := pairs + [(a, b)];
    }
  }

  /** The pairs of one student: all unit pairs but those of two foreign exams and the shareable ones. */
  method CollectPairs(g: Registry, s: Student) returns (pairs: seq<(int, int)>)
    ensures pairs == PairsOf(g, s)
  {
    var list := CollectUnits(g, s);
    pairs := [];
    for i := 0 to |list|
      invariant pairs == CountedPairs(g, PairsBefore(list, i))
    {
      pairs := CollectRow(g, list, i, PairsBefore(list, i), pairs);
    }
  }

  ghost predicate FromStudent(g: Registry, s: Student, x: Sitter) { x.mtknr == s.mtknr && x.pairs == PairsOf(g, s) }

  ghost predicate HasSource(g: Registry, students: seq<Student>, x: Sitter) {
    exists j :: 0 <= j < |students| && FromStudent(g, students[j], x)
  }

  ghost predicate HasSitter(g: Registry, s: Student, sitters: seq<Sitter>) {
    exists i :: 0 <= i < |sitters| && FromStudent(g, s, sitters[i])
  }

  ghost predicate SittersOf(g: Registry, students: seq<Student>, sitters: seq<Sitter>) {
    && (forall i :: 0 <= i < |sitters| ==> HasSource(g, students, sitters[i]))
    && (forall j :: 0 <= j < |students| ==> PairsOf(g, students[j]) == [] || HasSitter(g, students[j], sitters))
  }

  /** Every student with at least one pair; the order of the result is immaterial. */
  method CollectSitters(g: Registry, students: seq<Student>) returns (sitters: seq<Sitter>)
    ensures SittersOf(g, students, sitters)
  {
    sitters := [];
    for j := 0 to |students|
      invariant SittersOf(g, students[..j], sitters)
    {
      ghost var was := sitters;
      var pairs := CollectPairs(g, students[j]);
      sitters := sitters + if |pairs| > 0 then [Sitter(students[j].mtknr, pairs)] else [];
      SittersGrow(g, students, j, was, sitters);
    }
    assert students[..|students|] == students;
  }

  lemma SourceStays(g: Registry, students: seq<Student>, j: nat, x: Sitter)
    requires j < |students| && HasSource(g, students[..j], x)
    ensures HasSource(g, students[..j + 1], x)
  {
    var h :| 0 <= h < j && FromStudent(g, students[..j][h], x);
    assert students[..j + 1][h] == students[..j][h];
  }

  lemma SitterStays(g: Registry, s: Student, was: seq<Sitter>, more: seq<Sitter>)
    requires HasSitter(g, s, was)
    ensures HasSitter(g, s, was + more)
  {
    var i :| 0 <= i < |was| && FromStudent(g, s, was[i]);
    assert (was + more)[i] == was[i];
  }

  lemma SittersGrow(g: Registry, students: seq<Student>, j: nat, was: seq<Sitter>, now: seq<Sitter>)
    requires j < |students| && SittersOf(g, students[..j], was)
    requires now == was + if PairsOf(g, students[j]) == [] then [] else [Sitter(students[j].mtknr, PairsOf(g, students[j]))]
    ensures SittersOf(g, students[..j + 1], now)
  {
    var front, next := students[..j], students[..j + 1];
    assert next[j] == students[j] && forall h :: 0 <= h < j ==> next[h] == front[h];
    forall i | 0 <= i < |now| ensures HasSource(g, next, now[i]) {
      if i < |was| { SourceStays(g, students, j, was[i]); } else { assert FromStudent(g, next[j], now[i]); }
    }
    forall h | 0 <= h < |next| ensures PairsOf(g, next[h]) == [] || HasSitter(g, next[h], now) {
      if h < j {
        if PairsOf(g, front[h]) != [] { SitterStays(g, front[h], was, now[|was|..]); }
      } else if PairsOf(g, next[h]) != [] {
        assert FromStudent(g, next[h], now[|was|]);
      }
    }
  }

  /** The two exams of a student went to different units whose pair counts. */
  predicate MustSeparate(g: Registry, s: Student, x: int, y: int) {
    && x in s.ancodes && y in s.ancodes && x in g.unitOf && y in g.unitOf
    && var a, b := g.unitOf[x], g.unitOf[y];
       a != b && (a !in g.foreign || b !in g.foreign) && (if a < b then (a, b) else (b, a)) !in g.canShare
  }

  /** The pairs of a student are exactly the unit pairs of two of their exams that count. */
  lemma PairsOfExact(g: Registry, s: Student, k: (int, int))
    ensures k in PairsOf(g, s) <==> k.0 < k.1 && exists x, y :: MustSeparate(g, s, x, y) && g.unitOf[x] == k.0 && g.unitOf[y] == k.1
  {
    var list := UnitsOf(g, s.ancodes);
    PairsOfAscending(list, k);
    if k in PairsOf(g, s) {
      var i :| 0 <= i < |s.ancodes| && s.ancodes[i] in g.unitOf && g.unitOf[s.ancodes[i]] == k.0;
      var j :| 0 <= j < |s.ancodes| && s.ancodes[j] in g.unitOf && g.unitOf[s.ancodes[j]] == k.1;
      assert MustSeparate(g, s, s.ancodes[i], s.ancodes[j]);
    }
    if k.0 < k.1 && exists x, y :: MustSeparate(g, s, x, y) && g.unitOf[x] == k.0 && g.unitOf[y] == k.1 {
      var x, y :| MustSeparate(g, s, x, y) && g.unitOf[x] == k.0 && g.unitOf[y] == k.1;
      var i :| 0 <= i < |s.ancodes| && s.ancodes[i] == x;
      var j :| 0 <= j < |s.ancodes| && s.ancodes[j] == y;
    }
  }
}
