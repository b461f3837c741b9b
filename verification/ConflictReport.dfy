/** The conflict report of a plan: every pair of exams some student sits close together, with the number
    of such students and the worst proximity. Times are minutes. */
module ConflictReport {
  import opened Seqs
  import opened HardSeparation
  import opened Pairs

  // ----- proximity of two exams of one student -----

  const OVERLAP := 4
  const TOO_CLOSE := 3
  const SAME_DAY := 2
  const NEXT_DAY := 1

  /** Day distance rounded to the nearest day is one: from 12 up to 36 hours apart. */
  predicate OneDayApart(minutes: int) { 720 <= minutes < 2160 }

  /** The rank of two exams by start and end; dayOf is the calendar day of an instant. */
  function TimeProximity(startA: int, endA: int, startB: int, endB: int, gap: int, notTooClose: int, dayOf: int -> int): (rank: int)
    ensures 0 <= rank <= OVERLAP
  {
    var (earlierStart, earlierEnd, laterStart) := if startB < startA then (startB, endB, startA) else (startA, endA, startB);
    if laterStart - earlierEnd < gap then OVERLAP
    else if dayOf(earlierStart) == dayOf(laterStart) then (if laterStart - earlierStart < notTooClose then TOO_CLOSE else SAME_DAY)
    else if OneDayApart(laterStart - earlierStart) then NEXT_DAY
    else 0
  }

  lemma ProximitySymmetric(startA: int, endA: int, startB: int, endB: int, gap: int, notTooClose: int, dayOf: int -> int)
    requires endA >= startA && endB >= startB && gap > 0
    ensures TimeProximity(startA, endA, startB, endB, gap, notTooClose, dayOf)
         == TimeProximity(startB, endB, startA, endA, gap, notTooClose, dayOf)
  {}

  /** The ranks of two exams, the first not later: too little time between them, one day and soon, one day,
      about a day. Each rank includes the worse ones. */
  lemma RankThresholds(startA: int, endA: int, startB: int, endB: int, gap: int, notTooClose: int, dayOf: int -> int)
    requires startA <= startB
    ensures var rank, near := TimeProximity(startA, endA, startB, endB, gap, notTooClose, dayOf), startB - endA < gap;
            && (rank >= OVERLAP <==> near)
            && (rank >= TOO_CLOSE <==> near || (dayOf(startA) == dayOf(startB) && startB - startA < notTooClose))
            && (rank >= SAME_DAY <==> near || dayOf(startA) == dayOf(startB))
            && (rank >= NEXT_DAY <==> near || dayOf(startA) == dayOf(startB) || 12 * 60 <= startB - startA < 36 * 60)
  {}

  ghost predicate Calendar(dayOf: int -> int) { forall x, y :: x <= y ==> dayOf(x) <= dayOf(y) }

  /** Exact: starting the second exam later never makes the rank worse -- unless it was on another day within
      twelve hours, which ranks as far apart, and now is about a day later. */
  lemma LaterExact(startA: int, endA: int, startB: int, startB': int, endB: int, gap: int, notTooClose: int, dayOf: int -> int)
    requires startA <= startB <= startB' && Calendar(dayOf)
    ensures TimeProximity(startA, endA, startB', endB, gap, notTooClose, dayOf) <= TimeProximity(startA, endA, startB, endB, gap, notTooClose, dayOf)
            <==> !(startB - endA >= gap && dayOf(startA) != dayOf(startB) && startB - startA < 12 * 60 <= startB' - startA < 36 * 60)
  {
    RankThresholds(startA, endA, startB, endB, gap, notTooClose, dayOf);
    RankThresholds(startA, endA, startB', endB, gap, notTooClose, dayOf);
    assert dayOf(startA) <= dayOf(startB) <= dayOf(startB');
  }

  /** The plan as the report reads it. */
  datatype Plan = Plan(starts: map<int, int>, durations: map<int, ExamDuration>, locations: map<int, string>,
                       examGap: int, crossCampusGap: int, notTooClose: int, dayOf: int -> int)

  datatype Student = Student(mtknr: string, ancodes: seq<int>)

  function DurationFor(p: Plan, a: int, mtknr: string): int {
    if a in p.durations then ForStudent(p.durations[a].duration, p.durations[a].ntas, mtknr) else 0
  }

  function CampusOf(p: Plan, a: int): string { if a in p.locations then p.locations[a] else "" }

  /** How close one student's exams a and b are. */
  function Rank(p: Plan, mtknr: string, a: int, b: int): int
    requires a in p.starts && b in p.starts
  {
    TimeProximity(p.starts[a], p.starts[a] + DurationFor(p, a, mtknr), p.starts[b], p.starts[b] + DurationFor(p, b, mtknr),
                  EffectiveGap(p.examGap, p.crossCampusGap, CampusOf(p, a), CampusOf(p, b)), p.notTooClose, p.dayOf)
  }

  /** The report calls a pair an overlap exactly when the student lacks the time the solver's separations
      reserve, if both reckon with the same minutes for the student. */
  lemma OverlapIffUncomfortable(p: Plan, t: Setting, mtknr: string, a: int, b: int)
    requires a in p.starts && b in p.starts && t.examGap > 0
    requires t.examGap == p.examGap && t.crossCampusGap == p.crossCampusGap
    requires LocationOf(t, a) == CampusOf(p, a) && LocationOf(t, b) == CampusOf(p, b)
    requires Occupied(t.exams, a, mtknr) == DurationFor(p, a, mtknr) && Occupied(t.exams, b, mtknr) == DurationFor(p, b, mtknr)
    ensures Rank(p, mtknr, a, b) == OVERLAP <==> !Comfortable(t, mtknr, a, p.starts[a], b, p.starts[b])
  {
    NeedPositive(t, mtknr, a, b);
    NeedPositive(t, mtknr, b, a);
  }

  // ----- aggregation by pair -----

  /** Worst rank and the students of a pair. */
  datatype Agg = Agg(rank: int, students: seq<string>)

  type Aggs = map<(int, int), Agg>

  function Entry(m: Aggs, k: (int, int)): Agg { if k in m then m[k] else Agg(0, []) }

  /** One student's ranks; 0 for pairs that are not both placed. */
  type Ranks = ((int, int)) -> int

  function RanksOf(p: Plan, mtknr: string): Ranks {
    (k: (int, int)) => if k.0 in p.starts && k.1 in p.starts then Rank(p, mtknr, k.0, k.1) else 0
  }

  predicate Close(ranks: Ranks, k: (int, int)) { ranks(k) > NEXT_DAY }

  /** One student's pair added. */
  function AddPair(ranks: Ranks, m: Aggs, mtknr: string, k: (int, int)): Aggs {
    if !Close(ranks, k) then m
    else
      var rank := ranks(k);
      m[k := Agg(if rank > Entry(m, k).rank then rank else Entry(m, k).rank, Entry(m, k).students + [mtknr])]
  }

  function AddPairs(ranks: Ranks, m: Aggs, mtknr: string, pairs: seq<(int, int)>): Aggs {
    if pairs == [] then m else AddPair(ranks, AddPairs(ranks, m, mtknr, pairs[..|pairs| - 1]), mtknr, pairs[|pairs| - 1])
  }

  ghost predicate Sorted(s: seq<int>) { forall i, j :: 0 <= i < j < |s| ==> s[i] <= s[j] }

  /** Sorts x into a list; repetitions stay. */
  function InsertSorted(s: seq<int>, x: int): (r: seq<int>)
    ensures multiset(r) == multiset(s) + multiset{x}
  {
    if s == [] || s[|s| - 1] <= x then s + [x]
    else
      assert s == s[..|s| - 1] + [s[|s| - 1]];
      InsertSorted(s[..|s| - 1], x) + [s[|s| - 1]]
  }

  lemma InsertedFrom(s: seq<int>, x: int, y: int)
    requires y in InsertSorted(s, x)
    ensures y == x || y in s
  {
    assert y in multiset(InsertSorted(s, x));
    assert y in multiset(s) || y == x;
  }

  lemma {:induction false} InsertKeepsSorted(s: seq<int>, x: int)
    requires Sorted(s)
    ensures Sorted(InsertSorted(s, x))
  {
    if s != [] && s[|s| - 1] > x {
      var front, last := s[..|s| - 1], s[|s| - 1];
      InsertKeepsSorted(front, x);
      var r := InsertSorted(front, x);
      forall i | 0 <= i < |r| ensures r[i] <= last {
        InsertedFrom(front, x, r[i]);
      }
    }
  }

  /** A student's placed exams, sorted; a repeated registration stays repeated. */
  function PlacedOf(p: Plan, ancodes: seq<int>): seq<int> {
    if ancodes == [] then []
    else
      var front, last := PlacedOf(p, ancodes[..|ancodes| - 1]), ancodes[|ancodes| - 1];
      if last in p.starts then InsertSorted(front, last) else front
  }

  lemma {:induction false} PlacedExact(p: Plan, ancodes: seq<int>)
    ensures Sorted(PlacedOf(p, ancodes))
    ensures forall a :: multiset(PlacedOf(p, ancodes))[a] == if a in p.starts then multiset(ancodes)[a] else 0
  {
    if ancodes != [] {
      var front, last := ancodes[..|ancodes| - 1], ancodes[|ancodes| - 1];
      assert ancodes == front + [last];
      PlacedExact(p, front);
      InsertKeepsSorted(PlacedOf(p, front), last);
    }
  }

  function AddStudentPairs(p: Plan, m: Aggs, s: Student): Aggs {
    var placed := PlacedOf(p, s.ancodes);
    AddPairs(RanksOf(p, s.mtknr), m, s.mtknr, PairsBefore(placed, |placed|))
  }

  function Report(p: Plan, students: seq<Student>): Aggs {
    if students == [] then map[] else AddStudentPairs(p, Report(p, students[..|students| - 1]), students[|students| - 1])
  }

  /** The placed exams of a student, sorted. */
  method CollectPlaced(p: Plan, s: Student) returns (placed: seq<int>)
    ensures placed == PlacedOf(p, s.ancodes)
  {
    placed := [];
    for i := 0 to |s.ancodes|
      invariant placed == PlacedOf(p, s.ancodes[..i])
    {
      assert s.ancodes[..i + 1][..i] == s.ancodes[..i];
      if s.ancodes[i] in p.starts { placed := InsertSorted(placed, s.ancodes[i]); }
    }
    assert s.ancodes[..|s.ancodes|] == s.ancodes;
  }

  lemma {:induction false} AddPairsConcat(ranks: Ranks, m: Aggs, mtknr: string, a: seq<(int, int)>, b: seq<(int, int)>)
    ensures AddPairs(ranks, m, mtknr, a + b) == AddPairs(ranks, AddPairs(ranks, m, mtknr, a), mtknr, b)
  {
    if b == [] {
      assert a + b == a;
    } else {
      assert (a + b)[..|a + b| - 1] == a + b[..|b| - 1];
      AddPairsConcat(ranks, m, mtknr, a, b[..|b| - 1]);
    }
  }

  method AddIfClose(ranks: Ranks, m: Aggs, mtknr: string, key: (int, int)) returns (r: Aggs)
    ensures r == AddPair(ranks, m, mtknr, key)
  {
    var rank := ranks(key);
    if rank <= NEXT_DAY { return m; }
    var a := if key in m then m[key] else Agg(0, []);
    a := a.(students := a.students + [mtknr]);
    if rank > a.rank { a := a.(rank := rank); }
    r := m[key := a];
  }

  lemma RowStep(ranks: Ranks, m: Aggs, mtknr: string, placed: seq<int>, i: nat, j: nat)
    requires i < j < |placed|
    ensures AddPairs(ranks, m, mtknr, RowPairs(placed, i, j + 1)) ==
            AddPair(ranks, AddPairs(ranks, m, mtknr, RowPairs(placed, i, j)), mtknr, (placed[i], placed[j]))
  {
    var row := RowPairs(placed, i, j + 1);
    assert row[..|row| - 1] == RowPairs(placed, i, j);
  }

  method AddRow(ranks: Ranks, m: Aggs, mtknr: string, placed: seq<int>, i: nat) returns (r: Aggs)
    requires i < |placed|
    ensures r == AddPairs(ranks, m, mtknr, RowPairs(placed, i, |placed|))
  {
    r := m;
    for j := i + 1 to |placed|
      invariant r == AddPairs(ranks, m, mtknr, RowPairs(placed, i, j))
    {
      RowStep(ranks, m, mtknr, placed, i, j);
      r := AddIfClose(ranks, r, mtknr, (placed[i], placed[j]));
    }
  }

  method ConflictsFromSlots(p: Plan, students: seq<Student>) returns (byPair: Aggs)
    ensures byPair == Report(p, students)
  {
    byPair := map[];
    for k := 0 to |students|
      invariant byPair == Report(p, students[..k])
    {
      assert students[..k + 1][..k] == students[..k];
      var s, was := students[k], byPair;
      var ranks := RanksOf(p, s.mtknr);
      var placed := CollectPlaced(p, s);
      for i := 0 to |placed|
        invariant byPair == AddPairs(ranks, was, s.mtknr, PairsBefore(placed, i))
      {
        AddPairsConcat(ranks, was, s.mtknr, PairsBefore(placed, i), RowPairs(placed, i, |placed|));
        byPair := AddRow(ranks, byPair, s.mtknr, placed, i);
      }
    }
    assert students[..|students|] == students;
  }

  // ----- what the report says -----

  /** How often a list of registrations holds both exams of the pair, smaller first: once if each is there
      once; an exam registered repeatedly also meets itself. */
  function PairCount(ancodes: seq<int>, k: (int, int)): nat {
    var x, y := multiset(ancodes)[k.0], multiset(ancodes)[k.1];
    if k.0 < k.1 then x * y else if k.0 == k.1 then Choose2(x) else 0
  }

  /** The pairs among n things. */
  function Choose2(n: nat): nat { if n == 0 then 0 else Choose2(n - 1) + n - 1 }

  function CloseCountOf(p: Plan, s: Student, k: (int, int)): nat {
    if Close(RanksOf(p, s.mtknr), k) then PairCount(s.ancodes, k) else 0
  }

  function StudentCount(p: Plan, students: seq<Student>, k: (int, int)): nat {
    if students == [] then 0
    else StudentCount(p, students[..|students| - 1], k) + CloseCountOf(p, students[|students| - 1], k)
  }

  function WorstRank(p: Plan, students: seq<Student>, k: (int, int)): int {
    if students == [] then 0
    else
      var s := students[|students| - 1];
      Max(WorstRank(p, students[..|students| - 1], k), if CloseCountOf(p, s, k) > 0 then Rank(p, s.mtknr, k.0, k.1) else 0)
  }

  lemma {:induction false} RowCount(list: seq<int>, i: nat, end: nat, k: (int, int))
    requires i < end <= |list|
    ensures multiset(RowPairs(list, i, end))[k] == if list[i] == k.0 then multiset(list[i + 1..end])[k.1] else 0
    decreases end
  {
    if end > i + 1 {
      RowCount(list, i, end - 1, k);
      assert list[i + 1..end] == list[i + 1..end - 1] + [list[end - 1]];
    }
  }

  lemma SplitCount(list: seq<int>, i: nat, x: int)
    requires i < |list|
    ensures multiset(list)[x] == multiset(list[..i])[x] + (if list[i] == x then 1 else 0) + multiset(list[i + 1..])[x]
    ensures multiset(list[..i + 1])[x] == multiset(list[..i])[x] + (if list[i] == x then 1 else 0)
  {
    assert list == list[..i] + [list[i]] + list[i + 1..];
    assert list[..i + 1] == list[..i] + [list[i]];
  }

  /** How often x stands in a list. */
  function Occurs(list: seq<int>, x: int): nat { multiset(list)[x] }

  /** How often k.1 stands behind an occurrence of k.0 in a sorted list. */
  lemma RestCount(list: seq<int>, i: nat, k: (int, int))
    requires Sorted(list) && i < |list| && list[i] == k.0
    ensures k.0 < k.1 ==> Occurs(list[i + 1..], k.1) == Occurs(list, k.1)
    ensures k.0 == k.1 ==> Occurs(list[i + 1..], k.1) + Occurs(list[..i], k.0) + 1 == Occurs(list, k.0)
    ensures k.1 < k.0 ==> Occurs(list[i + 1..], k.1) == 0
  {
    SplitCount(list, i, k.1);
    if k.0 < k.1 { assert k.1 !in list[..i]; }
    if k.1 < k.0 { assert k.1 !in list[i + 1..]; }
  }

  /** How often k is among the pairs of the first i rows. */
  function PairOccurs(list: seq<int>, i: nat, k: (int, int)): nat
    requires i <= |list|
  {
    multiset(PairsBefore(list, i))[k]
  }

  lemma PairsStep(list: seq<int>, i: nat, k: (int, int))
    requires i < |list|
    ensures PairOccurs(list, i + 1, k) == PairOccurs(list, i, k) + if list[i] == k.0 then Occurs(list[i + 1..], k.1) else 0
    ensures Occurs(list[..i + 1], k.0) == Occurs(list[..i], k.0) + if list[i] == k.0 then 1 else 0
    ensures Occurs(list[..i + 1], k.0) <= Occurs(list, k.0)
  {
    RowCount(list, i, |list|, k);
    assert list[i + 1..|list|] == list[i + 1..];
    SplitCount(list, i, k.0);
  }

  /** The pairs k begun by x of n occurrences of k.0, with m occurrences of k.1. */
  function Begun(x: nat, n: nat, m: nat, k: (int, int)): int
    requires x <= n
  {
    if k.0 < k.1 then x * m else if k.0 == k.1 then Choose2(n) - Choose2(n - x) else 0
  }

  /** One occurrence more, with t occurrences of k.1 behind it. */
  lemma BegunStep(x: nat, n: nat, m: nat, k: (int, int), t: nat)
    requires x < n && (k.0 < k.1 ==> t == m) && (k.0 == k.1 ==> t + x + 1 == n) && (k.1 < k.0 ==> t == 0)
    ensures Begun(x + 1, n, m, k) == Begun(x, n, m, k) + t
  {
    if k.0 < k.1 { assert (x + 1) * m == x * m + m; }
  }

  ghost predicate RowsCounted(list: seq<int>, i: nat, k: (int, int))
    requires i <= |list|
  {
    var x, n := Occurs(list[..i], k.0), Occurs(list, k.0);
    x <= n && PairOccurs(list, i, k) == Begun(x, n, Occurs(list, k.1), k)
  }

  lemma RowCounted(list: seq<int>, i: nat, k: (int, int))
    requires Sorted(list) && i < |list| && RowsCounted(list, i, k)
    ensures RowsCounted(list, i + 1, k)
  {
    PairsStep(list, i, k);
    if list[i] == k.0 {
      RestCount(list, i, k);
      var x, n, m, t := Occurs(list[..i], k.0), Occurs(list, k.0), Occurs(list, k.1), Occurs(list[i + 1..], k.1);
      var pairs := PairOccurs(list, i, k);
      BegunStep(x, n, m, k, t);
      RowsCountedAs(list, i + 1, k, x + 1, pairs + t);
    } else {
      RowsCountedAs(list, i + 1, k, Occurs(list[..i], k.0), PairOccurs(list, i, k));
    }
  }

  lemma RowsCountedAs(list: seq<int>, i: nat, k: (int, int), x: nat, pairs: nat)
    requires i <= |list| && x == Occurs(list[..i], k.0) <= Occurs(list, k.0) && pairs == PairOccurs(list, i, k)
    requires pairs == Begun(x, Occurs(list, k.0), Occurs(list, k.1), k)
    ensures RowsCounted(list, i, k)
  {}

  /** The pairs of a sorted list, counted by how often its exams occur. */
  lemma PairsCount(list: seq<int>, k: (int, int))
    requires Sorted(list)
    ensures RowsCounted(list, |list|, k)
  {
    for i := 0 to |list|
      invariant RowsCounted(list, i, k)
    {
      RowCounted(list, i, k);
    }
  }

  /** A student's pairs hold each pair as often as the registrations do. */
  lemma StudentPairs(p: Plan, s: Student, k: (int, int))
    requires Close(RanksOf(p, s.mtknr), k)
    ensures var placed := PlacedOf(p, s.ancodes); multiset(PairsBefore(placed, |placed|))[k] == PairCount(s.ancodes, k)
  {
    var placed := PlacedOf(p, s.ancodes);
    PlacedExact(p, s.ancodes);
    assert placed[..|placed|] == placed;
    PairsCount(placed, k);
  }

  /** Adding a list counts the student as often as a close pair stands in it. */
  lemma {:induction false} AddPairsAt(ranks: Ranks, m: Aggs, mtknr: string, pairs: seq<(int, int)>, k: (int, int))
    ensures var r, n := AddPairs(ranks, m, mtknr, pairs), if Close(ranks, k) then multiset(pairs)[k] else 0;
            && (k in r <==> k in m || n > 0) && |Entry(r, k).students| == |Entry(m, k).students| + n
            && Entry(r, k).rank == if n > 0 then Max(Entry(m, k).rank, ranks(k)) else Entry(m, k).rank
  {
    if pairs != [] {
      var front, last := pairs[..|pairs| - 1], pairs[|pairs| - 1];
      assert pairs == front + [last];
      AddPairsAt(ranks, m, mtknr, front, k);
    }
  }

  /** Main result: a pair is reported exactly if some student sits both close together; it counts each of
      them as often as the registrations hold the pair, and its rank is the worst of theirs. */
  lemma {:induction false} ReportPairExact(p: Plan, students: seq<Student>, k: (int, int))
    ensures var r := Report(p, students);
            && (k in r <==> StudentCount(p, students, k) > 0)
            && |Entry(r, k).students| == StudentCount(p, students, k)
            && Entry(r, k).rank == WorstRank(p, students, k)
  {
    if students != [] {
      var front, s := students[..|students| - 1], students[|students| - 1];
      ReportPairExact(p, front, k);
      var placed := PlacedOf(p, s.ancodes);
      AddPairsAt(RanksOf(p, s.mtknr), Report(p, front), s.mtknr, PairsBefore(placed, |placed|), k);
      if Close(RanksOf(p, s.mtknr), k) { StudentPairs(p, s, k); }
    }
  }

  /** A student sits both exams of the pair, and lacks the time between them or has both on one day. */
  ghost predicate SitsClose(p: Plan, s: Student, k: (int, int)) {
    && PairCount(s.ancodes, k) > 0 && k.0 in p.starts && k.1 in p.starts
    && (Rank(p, s.mtknr, k.0, k.1) == OVERLAP || p.dayOf(p.starts[k.0]) == p.dayOf(p.starts[k.1]))
  }

  lemma {:induction false} CountedIfClose(p: Plan, students: seq<Student>, k: (int, int))
    ensures StudentCount(p, students, k) > 0 <==> exists i :: 0 <= i < |students| && SitsClose(p, students[i], k)
  {
    if students != [] {
      var front, s := students[..|students| - 1], students[|students| - 1];
      CountedIfClose(p, front, k);
      assert forall i :: 0 <= i < |front| ==> front[i] == students[i];
      assert CloseCountOf(p, s, k) > 0 <==> SitsClose(p, s, k);
    }
  }

  /** Exact: a pair is reported if and only if some student lacks the time between the two exams or has both
      on one day. */
  lemma ReportedExact(p: Plan, students: seq<Student>, k: (int, int))
    ensures k in Report(p, students) <==> exists i :: 0 <= i < |students| && SitsClose(p, students[i], k)
  {
    ReportPairExact(p, students, k);
    CountedIfClose(p, students, k);
  }

  ghost predicate NoneTwice(ancodes: seq<int>) { forall i, j :: 0 <= i < j < |ancodes| ==> ancodes[i] != ancodes[j] }

  lemma {:induction false} NoneTwiceCounts(ancodes: seq<int>, a: int)
    requires NoneTwice(ancodes)
    ensures multiset(ancodes)[a] == if a in ancodes then 1 else 0
  {
    if ancodes != [] {
      var front, last := ancodes[..|ancodes| - 1], ancodes[|ancodes| - 1];
      assert ancodes == front + [last];
      assert last !in front;
      NoneTwiceCounts(front, a);
    }
  }

  /** Without repeated registrations a student counts once for each pair of their own exams. */
  lemma CountedOnce(ancodes: seq<int>, k: (int, int))
    requires NoneTwice(ancodes)
    ensures PairCount(ancodes, k) == if k.0 < k.1 && k.0 in ancodes && k.1 in ancodes then 1 else 0
  {
    NoneTwiceCounts(ancodes, k.0);
    NoneTwiceCounts(ancodes, k.1);
    assert Choose2(0) == 0 && Choose2(1) == 0;
  }

  // ----- conservation -----

  /** Students over all reported pairs. */
  ghost function TotalStudents(m: Aggs): nat
    decreases |m.Keys|
  {
    if m.Keys == {} then 0
    else
      var k := Pick(m.Keys);
      |m[k].students| + TotalStudents(m - {k})
  }

  /** The close pairs among a list of pairs. */
  function CloseCount(ranks: Ranks, pairs: seq<(int, int)>): nat {
    if pairs == [] then 0
    else CloseCount(ranks, pairs[..|pairs| - 1]) + (if Close(ranks, pairs[|pairs| - 1]) then 1 else 0)
  }

  /** (student, close pair) incidences. */
  function Incidences(p: Plan, students: seq<Student>): nat {
    if students == [] then 0
    else
      var s := students[|students| - 1];
      var placed := PlacedOf(p, s.ancodes);
      Incidences(p, students[..|students| - 1]) + CloseCount(RanksOf(p, s.mtknr), PairsBefore(placed, |placed|))
  }

  lemma {:induction false} TotalSplit(m: Aggs, k: (int, int))
    requires k in m
    ensures TotalStudents(m) == |m[k].students| + TotalStudents(m - {k})
    decreases |m.Keys|
  {
    var x := Pick(m.Keys);
    if x != k {
      TotalSplit(m - {x}, k);
      assert m - {x} - {k} == m - {k} - {x};
      assert x in m - {k};
      TotalSplit(m - {k}, x);
    }
  }

  lemma TotalGrows(ranks: Ranks, m: Aggs, mtknr: string, k: (int, int))
    ensures TotalStudents(AddPair(ranks, m, mtknr, k)) == TotalStudents(m) + if Close(ranks, k) then 1 else 0
  {
    var r := AddPair(ranks, m, mtknr, k);
    if Close(ranks, k) {
      TotalSplit(r, k);
      assert r - {k} == m - {k};
      if k in m { TotalSplit(m, k); } else { assert m - {k} == m; }
    }
  }

  lemma {:induction false} PairsConserve(ranks: Ranks, m: Aggs, mtknr: string, pairs: seq<(int, int)>)
    ensures TotalStudents(AddPairs(ranks, m, mtknr, pairs)) == TotalStudents(m) + CloseCount(ranks, pairs)
  {
    if pairs != [] {
      PairsConserve(ranks, m, mtknr, pairs[..|pairs| - 1]);
      TotalGrows(ranks, AddPairs(ranks, m, mtknr, pairs[..|pairs| - 1]), mtknr, pairs[|pairs| - 1]);
    }
  }

  /** The counts of all reported pairs add up to the (student, close pair) incidences. */
  lemma {:induction false} CountsConserved(p: Plan, students: seq<Student>)
    ensures TotalStudents(Report(p, students)) == Incidences(p, students)
  {
    if students != [] {
      var front, s := students[..|students| - 1], students[|students| - 1];
      CountsConserved(p, front);
      var placed := PlacedOf(p, s.ancodes);
      PairsConserve(RanksOf(p, s.mtknr), Report(p, front), s.mtknr, PairsBefore(placed, |placed|));
    }
  }

  // ----- the list shown to the user -----

  datatype Line = Line(pair: (int, int), count: nat, rank: int)

  /** Worse proximity first, then more students, then the smaller first ancode. */
  predicate Before(x: Line, y: Line) {
    if x.rank != y.rank then x.rank > y.rank
    else if x.count != y.count then x.count > y.count
    else x.pair.0 < y.pair.0
  }

  ghost predicate Ordered(s: seq<Line>) { forall i, j :: 0 <= i < j < |s| ==> !Before(s[j], s[i]) }

  /** Down the list the proximity never gets worse; at equal proximity the students never get more, and at
      equal numbers the first ancodes never smaller. */
  lemma WorstFirst(s: seq<Line>, i: nat, j: nat)
    requires Ordered(s) && i < j < |s|
    ensures s[i].rank >= s[j].rank && (s[i].rank == s[j].rank ==> s[i].count >= s[j].count)
    ensures s[i].rank == s[j].rank && s[i].count == s[j].count ==> s[i].pair.0 <= s[j].pair.0
  {}

  function InsertLine(s: seq<Line>, e: Line): (r: seq<Line>)
    requires Ordered(s)
    ensures Ordered(r) && |r| == |s| + 1 && forall x :: x in r <==> x == e || x in s
  {
    if s == [] || !Before(e, s[|s| - 1]) then s + [e]
    else
      assert s == s[..|s| - 1] + [s[|s| - 1]];
      var front := InsertLine(s[..|s| - 1], e);
      assert forall i :: 0 <= i < |front| ==> front[i] in front;
      front + [s[|s| - 1]]
  }

  function LineOf(m: Aggs, k: (int, int)): Line
    requires k in m
  {
    Line(k, |m[k].students|, m[k].rank)
  }

  /** Every reported pair on exactly one line, the worst first; the map is read in any order. */
  method ListReport(m: Aggs) returns (out: seq<Line>)
    ensures Ordered(out) && |out| == |m.Keys|
    ensures forall k :: k in m ==> LineOf(m, k) in out
    ensures forall l :: l in out ==> l.pair in m && l == LineOf(m, l.pair)
  {
    out := [];
    var rest := m.Keys;
    while rest != {}
      invariant rest <= m.Keys && Ordered(out) && |out| == |m.Keys| - |rest|
      invariant forall k :: k in m && k !in rest ==> LineOf(m, k) in out
      invariant forall l :: l in out ==> l.pair in m && l == LineOf(m, l.pair)
      decreases |rest|
    {
      ghost var w := Pick(rest);
      assert w in rest;
      var k :| k in rest;
      out := InsertLine(out, LineOf(m, k));
      rest := rest - {k};
    }
  }
}
