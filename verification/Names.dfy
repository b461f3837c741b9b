/** Program names in character order: sorted name lists and the maps they enumerate. */
module Names {

  /** Strict lexicographic order. */
  predicate Less(a: string, b: string) {
    if b == [] then false
    else if a == [] then true
    else a[0] < b[0] || (a[0] == b[0] && Less(a[1..], b[1..]))
  }

  /** The strings agree before k, where a ends or has the smaller character. */
  predicate LessAt(a: string, b: string, k: int) {
    0 <= k < |b| && k <= |a| && (forall i :: 0 <= i < k ==> a[i] == b[i]) && (k == |a| || a[k] < b[k])
  }

  /** The first character that differs decides; a beginning comes before the whole. */
  lemma {:induction false} LessExact(a: string, b: string)
    ensures Less(a, b) <==> exists k :: LessAt(a, b, k)
  {
    if a == [] || b == [] || a[0] != b[0] {
      assert Less(a, b) <==> LessAt(a, b, 0);
    } else {
      LessExact(a[1..], b[1..]);
      if k :| LessAt(a[1..], b[1..], k) {
        forall i | 0 <= i < k + 1 ensures a[i] == b[i] { assert i > 0 ==> a[1..][i - 1] == b[1..][i - 1]; }
        assert LessAt(a, b, k + 1);
      }
      if k :| LessAt(a, b, k) { assert LessAt(a[1..], b[1..], k - 1); }
    }
  }

  lemma {:induction false} Trichotomy(a: string, b: string)
    ensures Less(a, b) || a == b || Less(b, a)
    ensures !(Less(a, b) && Less(b, a)) && !Less(a, a)
  {
    if a != [] && b != [] {
      Trichotomy(a[1..], b[1..]);
      assert a == [a[0]] + a[1..] && b == [b[0]] + b[1..];
    }
    if a != [] { Trichotomy(a[1..], a[1..]); }
  }

  lemma {:induction false} Transitive(a: string, b: string, c: string)
    requires Less(a, b) && Less(b, c)
    ensures Less(a, c)
  {
    if a != [] { if a[0] == b[0] && b[0] == c[0] { Transitive(a[1..], b[1..], c[1..]); } }
  }

  /** A (program, ancode) entry. */
  datatype Primuss = Primuss(program: string, ancode: int)

  ghost predicate Sorted(s: seq<Primuss>) {
    forall i, j :: 0 <= i < j < |s| ==> Less(s[i].program, s[j].program)
  }

  /** s enumerates m in name order. */
  ghost predicate Lists(s: seq<Primuss>, m: map<string, int>) {
    && Sorted(s)
    && (forall i :: 0 <= i < |s| ==> s[i].program in m && m[s[i].program] == s[i].ancode)
    && (forall p :: p in m ==> HasEntry(s, p))
  }

  ghost predicate HasEntry(s: seq<Primuss>, p: string) { exists i :: 0 <= i < |s| && s[i].program == p }

  /** Puts an entry of a new name into its place. */
  function Insert(s: seq<Primuss>, e: Primuss): (r: seq<Primuss>)
    ensures forall x :: x in r <==> x == e || x in s
  {
    if s == [] || Less(s[|s| - 1].program, e.program) then s + [e]
    else
      assert s == s[..|s| - 1] + [s[|s| - 1]];
      Insert(s[..|s| - 1], e) + [s[|s| - 1]]
  }

  lemma {:induction false} InsertSorted(s: seq<Primuss>, e: Primuss)
    requires Sorted(s) && forall x :: x in s ==> x.program != e.program
    ensures Sorted(Insert(s, e))
  {
    if s != [] {
      var front, last := s[..|s| - 1], s[|s| - 1];
      assert last in s;
      if Less(last.program, e.program) {
        forall i | 0 <= i < |front| ensures Less(s[i].program, e.program) { Transitive(s[i].program, last.program, e.program); }
      } else {
        Trichotomy(last.program, e.program);
        InsertSorted(front, e);
        BelowLast(front, e, last.program);
      }
    }
  }

  lemma BelowLast(front: seq<Primuss>, e: Primuss, last: string)
    requires Less(e.program, last) && forall i :: 0 <= i < |front| ==> Less(front[i].program, last)
    ensures forall i :: 0 <= i < |Insert(front, e)| ==> Less(Insert(front, e)[i].program, last)
  {
    var f := Insert(front, e);
    forall i | 0 <= i < |f| ensures Less(f[i].program, last) {
      var x := f[i];
      assert x in f;
    }
  }

  /** The listing of a map is unique: output cannot depend on the iteration order. */
  lemma {:induction false} ListingUnique(a: seq<Primuss>, b: seq<Primuss>, m: map<string, int>)
    requires Lists(a, m) && Lists(b, m)
    ensures a == b
  {
    if a == [] {
      if b != [] { SameFirst(b, a, m); }
    } else {
      SameFirst(a, b, m);
      var rest := m - {a[0].program};
      TailLists(a, m);
      TailLists(b, m);
      ListingUnique(a[1..], b[1..], rest);
      assert a == [a[0]] + a[1..] && b == [b[0]] + b[1..];
    }
  }

  lemma SameFirst(a: seq<Primuss>, b: seq<Primuss>, m: map<string, int>)
    requires Lists(a, m) && Lists(b, m) && a != []
    ensures b != [] && a[0] == b[0]
  {
    var x := a[0].program;
    assert HasEntry(b, x);
    var y := b[0].program;
    assert HasEntry(a, y);
    var j :| 0 <= j < |b| && b[j].program == x;
    var i :| 0 <= i < |a| && a[i].program == y;
    Trichotomy(x, y);
  }

  lemma TailLists(a: seq<Primuss>, m: map<string, int>)
    requires Lists(a, m) && a != []
    ensures Lists(a[1..], m - {a[0].program})
  {
    var t := a[1..];
    forall i | 0 <= i < |t| ensures t[i].program != a[0].program {
      Trichotomy(a[0].program, a[i + 1].program);
    }
    forall p | p in m && p != a[0].program ensures HasEntry(t, p) {
      assert HasEntry(a, p);
      var i :| 0 <= i < |a| && a[i].program == p;
      assert t[i - 1] == a[i];
    }
  }

  /** The sorted entries of a map, whatever order it is read in. */
  method Enumerate(m: map<string, int>) returns (s: seq<Primuss>)
    ensures Lists(s, m)
  {
    s := [];
    var rest := m.Keys;
    while rest != {}
      invariant rest <= m.Keys && Sorted(s)
      invariant forall e :: e in s <==> e.program in m && e.program !in rest && e.ancode == m[e.program]
      decreases |rest|
    {
      var p := PickName(rest);
      InsertSorted(s, Primuss(p, m[p]));
      s := Insert(s, Primuss(p, m[p]));
      rest := rest - {p};
    }
    forall p | p in m ensures HasEntry(s, p) {
      var e := Primuss(p, m[p]);
      assert e in s;
    }
    forall i | 0 <= i < |s| ensures s[i].program in m && m[s[i].program] == s[i].ancode { assert s[i] in s; }
  }

  method PickName(s: set<string>) returns (p: string)
    requires s != {}
    ensures p in s
  {
    p :| p in s;
  }

  ghost predicate SortedNames(names: seq<string>) {
    forall i, j :: 0 <= i < j < |names| ==> Less(names[i], names[j])
  }

  /** The names of a set in order, each once. */
  method SortNames(keys: set<string>) returns (names: seq<string>)
    ensures SortedNames(names) && forall n :: n in names <==> n in keys
    ensures forall i, j :: 0 <= i < j < |names| ==> names[i] != names[j]
  {
    var entries := Enumerate(map k | k in keys :: 0);
    names := [];
    for i := 0 to |entries|
      invariant |names| == i && forall j :: 0 <= j < i ==> names[j] == entries[j].program
    {
      names := names + [entries[i].program];
    }
    forall n ensures n in names <==> n in keys {
      if n in keys {
        assert HasEntry(entries, n);
        var i :| 0 <= i < |entries| && entries[i].program == n;
        assert names[i] == n;
      }
    }
    forall i, j | 0 <= i < j < |names| ensures names[i] != names[j] { Trichotomy(names[i], names[j]); }
  }
}
