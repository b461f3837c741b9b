/** Dump and restore of a page's dataset and of a whole semester. A collection is a list of documents;
    of a document only its ancode is looked into. */
module DatasetRestore {
  import opened Options

  datatype Doc = Doc(ancode: Option<int>, body: string)

  type Collections = map<string, seq<Doc>>

  /** A missing collection reads as empty. */
  function Col(cols: Collections, name: string): seq<Doc> { if name in cols then cols[name] else [] }

  ghost predicate SameContent(a: Collections, b: Collections) { forall c :: Col(a, c) == Col(b, c) }

  const EXAMS := "non_zpaexams"
  const PLAN := "plan"

  predicate In(d: Doc, ancodes: set<int>) { d.ancode.Some? && d.ancode.value in ancodes }

  ghost function Ancodes(docs: seq<Doc>): (s: set<int>)
    ensures forall d :: d in docs && d.ancode.Some? ==> d.ancode.value in s
    ensures forall a :: a in s ==> exists d :: d in docs && d.ancode == Some(a)
  {
    set d | d in docs && d.ancode.Some? :: d.ancode.value
  }

  /** The documents of the given ancodes, in order. */
  function With(docs: seq<Doc>, ancodes: set<int>): (r: seq<Doc>)
    ensures forall d :: d in r <==> d in docs && In(d, ancodes)
  {
    if docs == [] then []
    else
      assert docs == docs[..|docs| - 1] + [docs[|docs| - 1]];
      With(docs[..|docs| - 1], ancodes) + (if In(docs[|docs| - 1], ancodes) then [docs[|docs| - 1]] else [])
  }

  function Without(docs: seq<Doc>, ancodes: set<int>): (r: seq<Doc>)
    ensures forall d :: d in r <==> d in docs && !In(d, ancodes)
  {
    if docs == [] then []
    else
      assert docs == docs[..|docs| - 1] + [docs[|docs| - 1]];
      Without(docs[..|docs| - 1], ancodes) + (if In(docs[|docs| - 1], ancodes) then [] else [docs[|docs| - 1]])
  }

  method AncodeSet(docs: seq<Doc>) returns (s: set<int>)
    ensures s == Ancodes(docs)
  {
    s := {};
    for i := 0 to |docs|
      invariant s == Ancodes(docs[..i])
    {
      assert docs[..i + 1] == docs[..i] + [docs[i]];
      if docs[i].ancode.Some? { s := s + {docs[i].ancode.value}; }
    }
    assert docs[..|docs|] == docs;
  }

  method FilterByAncode(docs: seq<Doc>, ancodes: set<int>) returns (out: seq<Doc>)
    ensures out == With(docs, ancodes)
  {
    out := [];
    for i := 0 to |docs|
      invariant out == With(docs[..i], ancodes)
    {
      assert docs[..i + 1][..i] == docs[..i];
      if docs[i].ancode.Some? && docs[i].ancode.value in ancodes { out := out + [docs[i]]; }
    }
    assert docs[..|docs|] == docs;
  }

  datatype Spec = Spec(collections: seq<string>, external: bool)

  const REGISTRY: map<string, Spec> := map[
    "constraints" := Spec(["constraints"], false),
    "external-exams" := Spec([EXAMS, PLAN], true),
    "preplan" := Spec(["preplan_exams"], false),
    "joint-links" := Spec(["joint_links"], false),
    "room-requests" := Spec(["room_requests"], false)]

  /** A dataset file; dataset is "" and the parts are None where the file does not hold them. */
  datatype DatasetFile = DatasetFile(dataset: string, collections: map<string, seq<Doc>>, documents: Option<seq<Doc>>)

  datatype Outcome = Restored(total: nat) | Refused

  // ----- what dump and restore mean -----

  function Resolved(spec: Spec, file: DatasetFile, coll: string): Option<seq<Doc>> {
    if coll in file.collections then Some(file.collections[coll])
    else if !spec.external && |spec.collections| == 1 then file.documents
    else None
  }

  /** Nothing is changed by a file of another dataset or without the dataset's collections. */
  ghost predicate Acceptable(name: string, file: DatasetFile) {
    && name in REGISTRY
    && (file.dataset == "" || file.dataset == name)
    && var spec := REGISTRY[name];
       if spec.external then EXAMS in file.collections || PLAN in file.collections
       else forall i :: 0 <= i < |spec.collections| ==> Resolved(spec, file, spec.collections[i]).Some?
  }

  ghost function DumpOf(cols: Collections, spec: Spec): Collections {
    if spec.external then map[EXAMS := Col(cols, EXAMS), PLAN := With(Col(cols, PLAN), Ancodes(Col(cols, EXAMS)))]
    else map c | c in spec.collections :: Col(cols, c)
  }

  /** The ancodes whose plan entries give way: current and incoming external exams, incoming times. */
  ghost function Cleared(cols: Collections, file: DatasetFile): set<int> {
    Ancodes(Col(cols, EXAMS)) + Ancodes(Col(file.collections, EXAMS)) + Ancodes(Col(file.collections, PLAN))
  }

  ghost function ColAfter(cols: Collections, spec: Spec, file: DatasetFile, c: string): seq<Doc> {
    if spec.external then
      if c == EXAMS then Col(file.collections, EXAMS)
      else if c == PLAN then Without(Col(cols, PLAN), Cleared(cols, file)) + Col(file.collections, PLAN)
      else Col(cols, c)
    else if c in spec.collections && Resolved(spec, file, c).Some? then Resolved(spec, file, c).value
    else Col(cols, c)
  }

  /** The whole effect of an accepted restore. */
  ghost predicate After(cols: Collections, spec: Spec, file: DatasetFile, now: Collections) {
    forall c {:trigger Col(now, c)} :: Col(now, c) == ColAfter(cols, spec, file, c)
  }

  class Database {
    var cols: Collections

    method RawCollection(name: string) returns (docs: seq<Doc>)
      ensures docs == Col(cols, name)
    {
      return if name in cols then cols[name] else [];
    }

    /** Drop, then insert. */
    method ReplaceRawCollection(name: string, docs: seq<Doc>) returns (n: nat)
      modifies this
      ensures n == |docs| && forall c :: Col(cols, c) == if c == name then docs else Col(old(cols), c)
    {
      cols := cols - {name};
      if |docs| == 0 { return 0; }
      cols := cols[name := docs];
      return |docs|;
    }

    method InsertRawDocs(name: string, docs: seq<Doc>) returns (n: nat)
      modifies this
      ensures n == |docs| && forall c :: Col(cols, c) == if c == name then Col(old(cols), c) + docs else Col(old(cols), c)
    {
      if |docs| == 0 { return 0; }
      cols := cols[name := Col(cols, name) + docs];
      return |docs|;
    }

    method DeleteDocsByAncodes(name: string, ancodes: set<int>)
      modifies this
      ensures forall c :: Col(cols, c) == if c == name then Without(Col(old(cols), c), ancodes) else Col(old(cols), c)
    {
      if name in cols { cols := cols[name := Without(cols[name], ancodes)]; }
    }

    method DatasetDump(name: string) returns (file: Option<DatasetFile>)
      ensures file.Some? <==> name in REGISTRY
      ensures file.Some? ==> file.value == DatasetFile(name, DumpOf(cols, REGISTRY[name]), None)
    {
      if name !in REGISTRY { return None; }
      var spec := REGISTRY[name];
      var out: Collections := map[];
      if spec.external {
        var ext := RawCollection(EXAMS);
        var allPlan := RawCollection(PLAN);
        var ancodes := AncodeSet(ext);
        var extPlan := FilterByAncode(allPlan, ancodes);
        out := map[EXAMS := ext, PLAN := extPlan];
      } else {
        for i := 0 to |spec.collections|
          invariant out == map c | c in spec.collections[..i] :: Col(cols, c)
        {
          var docs := RawCollection(spec.collections[i]);
          assert spec.collections[..i + 1] == spec.collections[..i] + [spec.collections[i]];
          out := out[spec.collections[i] := docs];
        }
        assert spec.collections[..|spec.collections|] == spec.collections;
      }
      return Some(DatasetFile(name, out, None));
    }

    method RestoreDataset(name: string, file: DatasetFile) returns (r: Outcome)
      modifies this
      ensures r.Restored? <==> Acceptable(name, file)
      ensures r.Refused? ==> cols == old(cols)
      ensures r.Restored? ==> After(old(cols), REGISTRY[name], file, cols)
    {
      if name !in REGISTRY { return Refused; }
      if file.dataset != "" && file.dataset != name { return Refused; }
      if REGISTRY[name].external {
        r := RestoreExternal(REGISTRY[name], file);
      } else {
        r := RestoreSimple(REGISTRY[name], file);
      }
    }

    method RestoreExternal(spec: Spec, file: DatasetFile) returns (r: Outcome)
      requires spec.external
      modifies this
      ensures r.Restored? <==> EXAMS in file.collections || PLAN in file.collections
      ensures r.Refused? ==> cols == old(cols)
      ensures r.Restored? ==> After(old(cols), spec, file, cols)
    {
      if EXAMS !in file.collections && PLAN !in file.collections { return Refused; }
      var incoming, planDocs := Col(file.collections, EXAMS), Col(file.collections, PLAN);
      var current := RawCollection(EXAMS);
      var s1 := AncodeSet(current);
      var s2 := AncodeSet(incoming);
      var s3 := AncodeSet(planDocs);
      DeleteDocsByAncodes(PLAN, s1 + s2 + s3);
      var n := ReplaceRawCollection(EXAMS, incoming);
      var m := InsertRawDocs(PLAN, planDocs);
      return Restored(n + m);
    }

    method RestoreSimple(spec: Spec, file: DatasetFile) returns (r: Outcome)
      requires !spec.external
      modifies this
      ensures r.Restored? <==> forall i :: 0 <= i < |spec.collections| ==> Resolved(spec, file, spec.collections[i]).Some?
      ensures r.Refused? ==> cols == old(cols)
      ensures r.Restored? ==> After(old(cols), spec, file, cols)
    {
      for i := 0 to |spec.collections|
        invariant cols == old(cols)
        invariant forall j :: 0 <= j < i ==> Resolved(spec, file, spec.collections[j]).Some?
      {
        if Resolved(spec, file, spec.collections[i]).None? { return Refused; }
      }
      var total := 0;
      for i := 0 to |spec.collections|
        invariant forall c {:trigger Col(cols, c)} :: Col(cols, c) == (
                    if c in spec.collections[..i] && Resolved(spec, file, c).Some? then Resolved(spec, file, c).value else Col(old(cols), c))
      {
        var coll := spec.collections[i];
        assert spec.collections[..i + 1] == spec.collections[..i] + [coll];
        var n := ReplaceRawCollection(coll, Resolved(spec, file, coll).value);
        total := total + n;
      }
      assert spec.collections[..|spec.collections|] == spec.collections;
      return Restored(total);
    }
  }

  // ----- a collection file of a semester archive -----

  /** A file with nothing but a document list restores a dataset of one collection, and no other. */
  lemma BareFileExact(name: string, docs: seq<Doc>, cols: Collections, now: Collections)
    requires name in REGISTRY
    ensures var spec, file := REGISTRY[name], DatasetFile(name, map[], Some(docs));
            && (Acceptable(name, file) <==> !spec.external)
            && !Acceptable(name, file.(documents := None))
            && (Acceptable(name, file) && After(cols, spec, file, now) ==>
                  forall c :: Col(now, c) == if c == spec.collections[0] then docs else Col(cols, c))
  {
    var spec, file := REGISTRY[name], DatasetFile(name, map[], Some(docs));
    if !spec.external {
      assert |spec.collections| == 1;
      assert Resolved(spec, file.(documents := None), spec.collections[0]).None?;
      forall c ensures ColAfter(cols, spec, file, c) == if c == spec.collections[0] then docs else Col(cols, c) {}
    }
  }

  // ----- external exams: round trips -----

  lemma {:induction false} WithConcat(a: seq<Doc>, b: seq<Doc>, s: set<int>)
    ensures With(a + b, s) == With(a, s) + With(b, s)
  {
    if b == [] {
      assert a + b == a;
    } else {
      assert (a + b)[..|a + b| - 1] == a + b[..|b| - 1];
      WithConcat(a, b[..|b| - 1], s);
    }
  }

  lemma {:induction false} WithoutConcat(a: seq<Doc>, b: seq<Doc>, s: set<int>)
    ensures Without(a + b, s) == Without(a, s) + Without(b, s)
  {
    if b == [] {
      assert a + b == a;
    } else {
      assert (a + b)[..|a + b| - 1] == a + b[..|b| - 1];
      WithoutConcat(a, b[..|b| - 1], s);
    }
  }

  lemma {:induction false} AllIn(docs: seq<Doc>, s: set<int>)
    requires forall d :: d in docs ==> In(d, s)
    ensures With(docs, s) == docs && Without(docs, s) == []
  {
    if docs != [] {
      assert docs == docs[..|docs| - 1] + [docs[|docs| - 1]];
      assert docs[|docs| - 1] in docs;
      AllIn(docs[..|docs| - 1], s);
    }
  }

  lemma {:induction false} NoneIn(docs: seq<Doc>, s: set<int>)
    requires forall d :: d in docs ==> !In(d, s)
    ensures With(docs, s) == [] && Without(docs, s) == docs
  {
    if docs != [] {
      assert docs == docs[..|docs| - 1] + [docs[|docs| - 1]];
      assert docs[|docs| - 1] in docs;
      NoneIn(docs[..|docs| - 1], s);
    }
  }

  lemma {:induction false} SplitByAncode(docs: seq<Doc>, s: set<int>)
    ensures multiset(Without(docs, s)) + multiset(With(docs, s)) == multiset(docs)
  {
    if docs != [] {
      assert docs == docs[..|docs| - 1] + [docs[|docs| - 1]];
      SplitByAncode(docs[..|docs| - 1], s);
    }
  }

  ghost predicate DumpFile(file: DatasetFile, cols: Collections, spec: Spec) {
    file.collections == DumpOf(cols, spec) && (spec.external ==> file.documents.None?)
  }

  /** What a dump of external exams clears: the exams' ancodes here and there. */
  lemma ClearedByDump(source: Collections, target: Collections, spec: Spec, file: DatasetFile)
    requires spec.external && DumpFile(file, source, spec)
    ensures Col(file.collections, EXAMS) == Col(source, EXAMS)
    ensures Col(file.collections, PLAN) == With(Col(source, PLAN), Ancodes(Col(source, EXAMS)))
    ensures Cleared(target, file) == Ancodes(Col(target, EXAMS)) + Ancodes(Col(source, EXAMS))
  {
    OwnTimesOnly(Col(source, PLAN), Col(source, EXAMS));
  }

  lemma OwnTimesOnly(plan: seq<Doc>, exams: seq<Doc>)
    ensures Ancodes(With(plan, Ancodes(exams))) <= Ancodes(exams)
  {}

  /** Restoring a database's own dump changes nothing but the order of the plan entries. */
  lemma OwnDumpIsIdentity(cols: Collections, spec: Spec, file: DatasetFile, now: Collections, c: string)
    requires DumpFile(file, cols, spec) && After(cols, spec, file, now)
    ensures multiset(Col(now, c)) == multiset(Col(cols, c))
    ensures c != PLAN || !spec.external ==> Col(now, c) == Col(cols, c)
  {
    assert Col(now, c) == ColAfter(cols, spec, file, c);
    if spec.external {
      ClearedByDump(cols, cols, spec, file);
      if c == PLAN && c != EXAMS {
        PlanReturns(Col(cols, PLAN), Ancodes(Col(cols, EXAMS)));
      }
    }
  }

  lemma PlanReturns(plan: seq<Doc>, s: set<int>)
    ensures multiset(Without(plan, s + s) + With(plan, s)) == multiset(plan)
  {
    assert s + s == s;
    SplitByAncode(plan, s);
  }

  /** Moving a dataset: the target's next dump is the source's dump. */
  lemma DumpAfterRestore(source: Collections, target: Collections, spec: Spec, file: DatasetFile, now: Collections)
    requires DumpFile(file, source, spec) && After(target, spec, file, now)
    ensures DumpOf(now, spec) == DumpOf(source, spec)
  {
    if spec.external {
      ClearedByDump(source, target, spec, file);
      assert Col(now, EXAMS) == ColAfter(target, spec, file, EXAMS);
      assert Col(now, PLAN) == ColAfter(target, spec, file, PLAN);
      MovedTimes(Col(target, PLAN), Cleared(target, file), Col(source, PLAN), Ancodes(Col(source, EXAMS)));
    } else {
      forall c | c in spec.collections ensures Col(now, c) == Col(source, c) {
        assert Col(now, c) == ColAfter(target, spec, file, c);
      }
    }
  }

  lemma MovedTimes(plan: seq<Doc>, cleared: set<int>, other: seq<Doc>, s: set<int>)
    requires s <= cleared
    ensures With(Without(plan, cleared) + With(other, s), s) == With(other, s)
  {
    var kept, moved := Without(plan, cleared), With(other, s);
    WithConcat(kept, moved, s);
    AllIn(moved, s);
    NoneIn(kept, s);
  }

  /** Plan entries outside the cleared ancodes stay, as often as they were; no stale entry survives. */
  lemma PlanEntriesExact(cols: Collections, file: DatasetFile, spec: Spec, now: Collections, d: Doc)
    requires spec.external && After(cols, spec, file, now)
    ensures multiset(Col(now, PLAN))[d] ==
            (if In(d, Cleared(cols, file)) then 0 else multiset(Col(cols, PLAN))[d]) + multiset(Col(file.collections, PLAN))[d]
  {
    var s := Cleared(cols, file);
    SplitByAncode(Col(cols, PLAN), s);
    assert Col(now, PLAN) == ColAfter(cols, spec, file, PLAN);
    if In(d, s) {
      assert d !in Without(Col(cols, PLAN), s);
    } else {
      assert d !in With(Col(cols, PLAN), s);
    }
  }

  ghost predicate AllCarryAncodes(docs: seq<Doc>) { forall d :: d in docs ==> d.ancode.Some? }

  /** Restoring the same file again changes nothing exactly if every time in it carries an ancode;
      entries without one are inserted once more. */
  lemma TwiceIsOnceExact(cols: Collections, file: DatasetFile, spec: Spec, once: Collections, twice: Collections)
    requires spec.external && After(cols, spec, file, once) && After(once, spec, file, twice)
    ensures SameContent(twice, once) <==> AllCarryAncodes(Col(file.collections, PLAN))
    ensures multiset(Col(twice, PLAN)) == multiset(Col(once, PLAN)) <==> AllCarryAncodes(Col(file.collections, PLAN))
  {
    var exams, planDocs := Col(file.collections, EXAMS), Col(file.collections, PLAN);
    var s0, s1 := Cleared(cols, file), Cleared(once, file);
    assert Col(once, EXAMS) == ColAfter(cols, spec, file, EXAMS) == exams;
    assert Col(once, PLAN) == ColAfter(cols, spec, file, PLAN);
    assert Col(twice, PLAN) == ColAfter(once, spec, file, PLAN);
    PlanTwice(Col(cols, PLAN), planDocs, s0, s1);
    forall c | c != PLAN ensures Col(twice, c) == Col(once, c) {
      assert Col(twice, c) == ColAfter(once, spec, file, c) && Col(once, c) == ColAfter(cols, spec, file, c);
    }
  }

  lemma PlanTwice(plan: seq<Doc>, planDocs: seq<Doc>, s0: set<int>, s1: set<int>)
    requires Ancodes(planDocs) <= s1 <= s0
    ensures var once := Without(plan, s0) + planDocs;
            var twice := Without(once, s1) + planDocs;
            && (twice == once <==> AllCarryAncodes(planDocs))
            && (multiset(twice) == multiset(once) <==> AllCarryAncodes(planDocs))
  {
    var kept := Without(plan, s0);
    var once := kept + planDocs;
    var twice := Without(once, s1) + planDocs;
    NoneIn(kept, s1);
    WithoutConcat(kept, planDocs, s1);
    var again := Without(planDocs, s1);
    assert twice == kept + again + planDocs;
    if AllCarryAncodes(planDocs) {
      AllIn(planDocs, s1);
      assert kept + again == kept;
    } else {
      var d :| d in planDocs && d.ancode.None?;
      assert d in again;
      Longer(once, twice);
    }
  }

  lemma Longer(a: seq<Doc>, b: seq<Doc>)
    requires |a| < |b|
    ensures multiset(a) != multiset(b)
  {
    assert |multiset(a)| == |a| && |multiset(b)| == |b|;
  }

  /** Taking the documents of some ancodes out leaves the list alone exactly if there are none. */
  lemma WithoutIsAll(docs: seq<Doc>, s: set<int>)
    ensures Without(docs, s) == docs <==> forall d :: d in docs ==> !In(d, s)
  {
    if forall d :: d in docs ==> !In(d, s) { NoneIn(docs, s); }
  }

  /** The guard against foreign files looks for one of the two collections only. A file without the exams
      leaves the stored exams alone exactly if there are none; a file without the times leaves the stored
      plan entries alone exactly if none of them belongs to an external exam stored now or in the file. */
  lemma PartialFileWipes(cols: Collections, spec: Spec, file: DatasetFile, now: Collections)
    requires spec.external && After(cols, spec, file, now)
    ensures EXAMS !in file.collections ==> (Col(now, EXAMS) == Col(cols, EXAMS) <==> Col(cols, EXAMS) == [])
    ensures PLAN !in file.collections ==>
              (Col(now, PLAN) == Col(cols, PLAN) <==>
               forall d :: d in Col(cols, PLAN) ==> !In(d, Ancodes(Col(cols, EXAMS)) + Ancodes(Col(file.collections, EXAMS))))
  {
    assert Col(now, EXAMS) == ColAfter(cols, spec, file, EXAMS);
    assert Col(now, PLAN) == ColAfter(cols, spec, file, PLAN);
    if PLAN !in file.collections {
      WithoutIsAll(Col(cols, PLAN), Cleared(cols, file));
      NothingIncoming(cols, file);
      assert Col(now, PLAN) == Without(Col(cols, PLAN), Cleared(cols, file));
    }
  }

  lemma NothingIncoming(cols: Collections, file: DatasetFile)
    requires PLAN !in file.collections
    ensures Cleared(cols, file) == Ancodes(Col(cols, EXAMS)) + Ancodes(Col(file.collections, EXAMS))
  {
    var none := Col(file.collections, PLAN);
    assert none == [];
    assert Ancodes(none) == {};
  }

  /** The guard passes exactly the files that hold one of the two external collections. For every dataset a
      file has to name it, or none. */
  lemma AcceptedExact(file: DatasetFile)
    ensures Acceptable("external-exams", file) <==>
            (file.dataset == "" || file.dataset == "external-exams") && !(EXAMS !in file.collections && PLAN !in file.collections)
    ensures forall name, other :: Acceptable(name, file.(dataset := other)) ==> other == "" || other == name
    ensures forall name :: Acceptable(name, file.(dataset := "")) <==> Acceptable(name, file.(dataset := name))
  {
    forall name ensures Acceptable(name, file.(dataset := "")) <==> Acceptable(name, file.(dataset := name)) {
      if name in REGISTRY {
        var spec, a, b := REGISTRY[name], file.(dataset := ""), file.(dataset := name);
        forall c ensures Resolved(spec, a, c) == Resolved(spec, b, c) {}
      }
    }
  }

  /** A stored exam is lost to a file with its time alone, and the time to a file with the exam alone. */
  lemma LossyFiles(cols: Collections, exam: Doc, time: Doc, onlyTime: Collections, onlyExam: Collections)
    requires Col(cols, EXAMS) == [exam] && Col(cols, PLAN) == [time] && exam.ancode == time.ancode && time.ancode.Some?
    requires After(cols, REGISTRY["external-exams"], DatasetFile("", map[PLAN := [time]], None), onlyTime)
    requires After(cols, REGISTRY["external-exams"], DatasetFile("", map[EXAMS := [exam]], None), onlyExam)
    ensures Acceptable("external-exams", DatasetFile("", map[PLAN := [time]], None)) && Col(onlyTime, EXAMS) == []
    ensures Acceptable("external-exams", DatasetFile("", map[EXAMS := [exam]], None)) && Col(onlyExam, PLAN) == []
  {
    var spec := REGISTRY["external-exams"];
    var file := DatasetFile("", map[EXAMS := [exam]], None);
    assert Col(onlyTime, EXAMS) == ColAfter(cols, spec, DatasetFile("", map[PLAN := [time]], None), EXAMS);
    assert Col(onlyExam, PLAN) == ColAfter(cols, spec, file, PLAN);
    assert exam in Col(cols, EXAMS);
    AllIn([time], Cleared(cols, file));
  }
}
