/** The unordered pairs of a list in loop order: for i, for j > i. */
module Pairs {
  import opened Seqs

  /** The pairs (list[i], list[j]) with i < j < end. */
  function RowPairs(list: seq<int>, i: nat, end: nat): seq<(int, int)>
    requires i < |list| && end <= |list|
  {
    if end <= i + 1 then [] else RowPairs(list, i, end - 1) + [(list[i], list[end - 1])]
  }

  function PairsBefore(list: seq<int>, i: nat): seq<(int, int)>
    requires i <= |list|
  {
    if i == 0 then [] else PairsBefore(list, i - 1) + RowPairs(list, i - 1, |list|)
  }

  ghost predicate NoRepeats(pairs: seq<(int, int)>) { forall i, j :: 0 <= i < j < |pairs| ==> pairs[i] != pairs[j] }

  /** k pairs list[i] with a later element before end. */
  ghost predicate InRow(list: seq<int>, i: nat, end: nat, k: (int, int))
    requires i < |list| && end <= |list|
  {
    k.0 == list[i] && exists j :: i < j < end && list[j] == k.1
  }

  /** k pairs one of the first n elements with a later one. */
  ghost predicate InRows(list: seq<int>, n: nat, k: (int, int))
    requires n <= |list|
  {
    exists i :: 0 <= i < n && InRow(list, i, |list|, k)
  }

  lemma AppendNew(pairs: seq<(int, int)>, k: (int, int))
    requires NoRepeats(pairs) && k !in pairs
    ensures NoRepeats(pairs + [k])
  {}

  lemma {:induction false} RowExact(list: seq<int>, i: nat, end: nat)
    requires Ascending(list) && i < |list| && end <= |list|
    ensures NoRepeats(RowPairs(list, i, end))
    ensures forall k :: k in RowPairs(list, i, end) <==> InRow(list, i, end, k)
    decreases end
  {
    if end > i + 1 {
      RowExact(list, i, end - 1);
      var last := (list[i], list[end - 1]);
      assert !InRow(list, i, end - 1, last);
      AppendNew(RowPairs(list, i, end - 1), last);
      forall k ensures InRow(list, i, end, k) <==> InRow(list, i, end - 1, k) || k == last {}
    }
  }

  lemma RowsStep(list: seq<int>, i: nat, k: (int, int))
    requires Ascending(list) && i < |list|
    ensures InRows(list, i + 1, k) <==> InRows(list, i, k) || InRow(list, i, |list|, k)
    ensures !(InRows(list, i, k) && InRow(list, i, |list|, k))
  {
    if InRows(list, i + 1, k) {
      var h :| 0 <= h < i + 1 && InRow(list, h, |list|, k);
      assert h < i || h == i;
    }
  }

  lemma {:induction false} PairsExact(list: seq<int>, i: nat)
    requires Ascending(list) && i <= |list|
    ensures NoRepeats(PairsBefore(list, i))
    ensures forall k :: k in PairsBefore(list, i) <==> InRows(list, i, k)
  {
    if i > 0 {
      PairsExact(list, i - 1);
      RowExact(list, i - 1, |list|);
      var before, row := PairsBefore(list, i - 1), RowPairs(list, i - 1, |list|);
      forall k ensures (InRows(list, i, k) <==> k in before || k in row) && !(k in before && k in row) {
        RowsStep(list, i - 1, k);
      }
      DisjointConcat(before, row);
    }
  }

  lemma DisjointConcat(a: seq<(int, int)>, b: seq<(int, int)>)
    requires NoRepeats(a) && NoRepeats(b) && forall k :: k in a ==> k !in b
    ensures NoRepeats(a + b)
  {
    var c := a + b;
    forall i, j | 0 <= i < j < |c| ensures c[i] != c[j] {
      if i < |a| && j >= |a| { assert c[i] in a && c[j] in b; }
    }
  }

  /** An ascending list yields each of its ordered pairs once. */
  lemma PairsOfAscending(list: seq<int>, k: (int, int))
    requires Ascending(list)
    ensures NoRepeats(PairsBefore(list, |list|))
    ensures k in PairsBefore(list, |list|) <==> k.0 < k.1 && k.0 in list && k.1 in list
  {
    PairsExact(list, |list|);
    if k.0 < k.1 && k.0 in list && k.1 in list {
      var h :| 0 <= h < |list| && list[h] == k.0;
      var j :| 0 <= j < |list| && list[j] == k.1;
      assert h < j && InRow(list, h, |list|, k);
    }
    if k in PairsBefore(list, |list|) {
      var h :| 0 <= h < |list| && InRow(list, h, |list|, k);
      var j :| h < j < |list| && list[j] == k.1;
      assert list[h] in list && list[j] in list;
    }
  }
}
