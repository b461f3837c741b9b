/** Dump of a whole semester into one file per collection, and its restore into an empty workspace. */
module SemesterDump {
  import opened DatasetRestore
  import opened Options
  import opened Seqs

  const META := "semester_meta"

  const BOOKKEEPING: set<string> := {"semester_config_input", "semester_config", META, "mutation_log", "sync_log"}

  /** One file of the archive by its base name. */
  datatype Entry = Entry(base: string, docs: seq<Doc>)

  predicate StartsWith(s: string, prefix: string) { |prefix| <= |s| && s[..|prefix|] == prefix }

  predicate IsJson(base: string) { |base| >= 5 && base[|base| - 5..] == ".json" }

  /** Files a restore passes over. */
  predicate Skipped(base: string) {
    base == "manifest.json" || !IsJson(base) || StartsWith(base, ".") || StartsWith(base, "__MACOSX") || base[..|base| - 5] == META
  }

  /** The file of a collection. */
  function FileOf(coll: string): string { coll + ".json" }

  /** A collection a restore brings along. */
  predicate Travels(coll: string) { !Skipped(FileOf(coll)) }

  lemma FileNames(coll: string, base: string)
    ensures IsJson(FileOf(coll)) && FileOf(coll)[..|FileOf(coll)| - 5] == coll
    ensures IsJson(base) && base[..|base| - 5] == coll ==> base == FileOf(coll)
    ensures FileOf(coll) == base ==> IsJson(base) && base[..|base| - 5] == coll
  {
    if IsJson(base) && base[..|base| - 5] == coll {
      assert base == base[..|base| - 5] + base[|base| - 5..];
    }
  }

  /** The collection a file is restored into. */
  function Target(base: string): Option<string> { if Skipped(base) then None else Some(base[..|base| - 5]) }

  lemma TargetExact(coll: string, base: string)
    ensures Target(base) == Some(coll) <==> base == FileOf(coll) && Travels(coll)
  {
    FileNames(coll, base);
  }

  /** The last document list the archive holds for a collection. */
  function FromArchive(entries: seq<Entry>, coll: string): Option<seq<Doc>> {
    if entries == [] then None
    else
      var e := entries[|entries| - 1];
      if Target(e.base) == Some(coll) then Some(e.docs) else FromArchive(entries[..|entries| - 1], coll)
  }

  /** Of several files for a collection the last one counts. */
  lemma {:induction false} LastFileCounts(entries: seq<Entry>, coll: string, i: nat)
    requires i < |entries| && Target(entries[i].base) == Some(coll)
    requires forall j :: i < j < |entries| ==> Target(entries[j].base) != Some(coll)
    ensures FromArchive(entries, coll) == Some(entries[i].docs)
  {
    if i < |entries| - 1 { LastFileCounts(entries[..|entries| - 1], coll, i); }
  }

  ghost predicate IsEmpty(cols: Collections) { forall c :: c in cols && c !in BOOKKEEPING ==> cols[c] == [] }

  function Archived(cols: Collections, entries: seq<Entry>, c: string): seq<Doc> {
    if FromArchive(entries, c).Some? then FromArchive(entries, c).value else Col(cols, c)
  }

  method SemesterDumpZip(db: Database) returns (entries: seq<Entry>)
    ensures DumpOfAll(entries, db.cols)
  {
    entries := [];
    var rest := db.cols.Keys;
    while rest != {}
      invariant rest <= db.cols.Keys
      invariant forall e :: e in entries ==> exists c :: c in db.cols && c !in rest && e == Entry(FileOf(c), db.cols[c])
      invariant forall c :: c in db.cols && c !in rest ==> Entry(FileOf(c), db.cols[c]) in entries
      decreases |rest|
    {
      var name: string :| name in rest;
      var docs := db.RawCollection(name);
      entries := entries + [Entry(FileOf(name), docs)];
      rest := rest - {name};
    }
    entries := entries + [Entry("manifest.json", [])];
  }

  /** One file per collection, and the manifest. */
  ghost predicate DumpOfAll(entries: seq<Entry>, cols: Collections) {
    && (forall e :: e in entries ==> e.base == "manifest.json" || exists c :: c in cols && e == Entry(FileOf(c), cols[c]))
    && (forall c :: c in cols ==> Entry(FileOf(c), cols[c]) in entries)
  }

  method RestoreSemesterDump(db: Database, entries: seq<Entry>) returns (r: Outcome)
    modifies db
    ensures r.Restored? <==> forall c :: c in old(db.cols) && c !in BOOKKEEPING ==> old(db.cols)[c] == []
    ensures r.Refused? ==> db.cols == old(db.cols)
    ensures r.Restored? ==> forall c :: Col(db.cols, c) == Archived(old(db.cols), entries, c)
  {
    var occupied := set c | c in db.cols && c !in BOOKKEEPING && |db.cols[c]| > 0;
    if occupied != {} {
      ghost var c := Pick(occupied);
      assert c in db.cols && db.cols[c] != [];
      return Refused;
    }
    assert forall c :: c in db.cols && c !in BOOKKEEPING && |db.cols[c]| > 0 ==> c in occupied;
    var total := RestoreEntries(db, entries);
    return Restored(total);
  }

  method RestoreEntries(db: Database, entries: seq<Entry>) returns (total: nat)
    modifies db
    ensures forall c :: Col(db.cols, c) == Archived(old(db.cols), entries, c)
  {
    total := 0;
    for i := 0 to |entries|
      invariant Replayed(old(db.cols), entries[..i], db.cols)
    {
      assert entries[..i + 1][..i] == entries[..i];
      ReplayStep(old(db.cols), entries, i, db.cols);
      if Skipped(entries[i].base) { continue; }
      ghost var was := db.cols;
      var coll := entries[i].base[..|entries[i].base| - 5];
      var n := db.ReplaceRawCollection(coll, entries[i].docs);
      assert Replaced(was, Some(coll), entries[i].docs, db.cols);
      total := total + n;
    }
    assert entries[..|entries|] == entries;
  }

  ghost predicate Replayed(cols: Collections, entries: seq<Entry>, now: Collections) {
    forall c {:trigger Col(now, c)} :: Col(now, c) == Archived(cols, entries, c)
  }

  ghost predicate Replaced(was: Collections, target: Option<string>, docs: seq<Doc>, now: Collections) {
    forall c {:trigger Col(now, c)} :: Col(now, c) == if target == Some(c) then docs else Col(was, c)
  }

  lemma ReplayStep(cols: Collections, entries: seq<Entry>, i: nat, was: Collections)
    requires i < |entries| && Replayed(cols, entries[..i], was)
    ensures Target(entries[i].base) == None ==> Replayed(cols, entries[..i + 1], was)
    ensures forall now {:trigger Replayed(cols, entries[..i + 1], now)} ::
              Replaced(was, Target(entries[i].base), entries[i].docs, now) ==> Replayed(cols, entries[..i + 1], now)
  {
    var next, e := entries[..i + 1], entries[i];
    assert next[..i] == entries[..i];
    forall c ensures Archived(cols, next, c) == if Target(e.base) == Some(c) then e.docs else Col(was, c) {
      assert Col(was, c) == Archived(cols, entries[..i], c);
    }
  }

  lemma {:induction false} ArchiveExact(entries: seq<Entry>, c: string, docs: seq<Doc>)
    requires forall e :: e in entries && Target(e.base) == Some(c) ==> e.docs == docs
    ensures FromArchive(entries, c) == if exists e :: e in entries && Target(e.base) == Some(c) then Some(docs) else None
  {
    if entries != [] {
      var last := entries[|entries| - 1];
      assert entries == entries[..|entries| - 1] + [last];
      assert last in entries;
      ArchiveExact(entries[..|entries| - 1], c, docs);
    }
  }

  /** What the archive of a database holds for a collection. */
  lemma FromDump(entries: seq<Entry>, source: Collections, c: string)
    requires DumpOfAll(entries, source)
    ensures FromArchive(entries, c) == if c in source && Travels(c) then Some(source[c]) else None
  {
    TargetExact(c, FileOf(c));
    forall e | e in entries && Target(e.base) == Some(c) ensures c in source && e.docs == source[c] && Travels(c) {
      TargetExact(c, e.base);
      var d :| d in source && e == Entry(FileOf(d), source[d]);
      FileNames(d, e.base);
      FileNames(c, e.base);
    }
    ArchiveExact(entries, c, Col(source, c));
    if c in source && Travels(c) {
      var e := Entry(FileOf(c), source[c]);
      assert e in entries && Target(e.base) == Some(c);
    }
  }

  /** Main result: a restored workspace holds the source's planning data, and its own semester_meta. */
  lemma SemesterRoundTrip(entries: seq<Entry>, source: Collections, target: Collections, now: Collections, c: string)
    requires DumpOfAll(entries, source) && IsEmpty(target) && Col(now, c) == Archived(target, entries, c)
    ensures Travels(c) && c !in BOOKKEEPING ==> Col(now, c) == Col(source, c)
    ensures c == META ==> Col(now, c) == Col(target, c)
  {
    FromDump(entries, source, c);
    FileNames(c, FileOf(c));
  }

  /** Only semester_meta is protected: another bookkeeping collection keeps the workspace's content
      exactly if the source has none of that name or the same content. */
  lemma BookkeepingKeptExact(entries: seq<Entry>, source: Collections, target: Collections, now: Collections, c: string)
    requires DumpOfAll(entries, source) && Col(now, c) == Archived(target, entries, c)
    requires c in BOOKKEEPING && c != META
    ensures Col(now, c) == Col(target, c) <==> c !in source || source[c] == Col(target, c)
  {
    FromDump(entries, source, c);
    FileNames(c, FileOf(c));
    BookkeepingTravels(c);
  }

  lemma NotPrefix(s: string, prefix: string)
    requires s != [] && prefix != [] && s[0] != prefix[0]
    ensures !StartsWith(s, prefix)
  {
    if |prefix| <= |s| { assert s[..|prefix|][0] == s[0]; }
  }

  lemma HiddenFile(c: string)
    ensures StartsWith(FileOf(c), ".") <==> c == "" || c[0] == '.'
  {
    var base := FileOf(c);
    assert base[..1] == [base[0]];
  }

  /** The extension does not complete a prefix without a dot. */
  lemma PrefixOfFile(c: string, prefix: string)
    requires '.' !in prefix
    ensures StartsWith(FileOf(c), prefix) <==> StartsWith(c, prefix)
  {
    var base, n := FileOf(c), |prefix|;
    if n <= |c| {
      assert base[..n] == c[..n];
    } else if n <= |base| {
      assert base[..n][|c|] == '.';
    }
  }

  /** Exact: a collection travels unless its name is empty, hidden, a system folder's, the manifest's or that
      of semester_meta. */
  lemma TravelsExact(c: string)
    ensures Travels(c) <==> c != "" && c[0] != '.' && !StartsWith(c, "__MACOSX") && c != "manifest" && c != META
  {
    FileNames(c, FileOf(c));
    FileNames(c, "manifest.json");
    HiddenFile(c);
    PrefixOfFile(c, "__MACOSX");
    ManifestName();
  }

  lemma ManifestName()
    ensures IsJson("manifest.json") && "manifest.json"[..|"manifest.json"| - 5] == "manifest"
  {}

  lemma BookkeepingTravels(c: string)
    requires c in BOOKKEEPING && c != META
    ensures Travels(c)
  {
    var mac, manifest := "__MACOSX", "manifest";
    assert c[0] == 's' || (c[0] == 'm' && c[1] == 'u');
    assert mac[0] == '_' && manifest[0] == 'm' && manifest[1] == 'a';
    NotPrefix(c, mac);
    TravelsExact(c);
  }

  /** The plan itself: what the source holds arrives. */
  lemma PlanArrives(entries: seq<Entry>, source: Collections, target: Collections, now: Collections)
    requires DumpOfAll(entries, source) && IsEmpty(target) && Col(now, PLAN) == Archived(target, entries, PLAN)
    ensures Col(now, PLAN) == Col(source, PLAN)
  {
    var plan, mac, manifest, meta := PLAN, "__MACOSX", "manifest", META;
    assert plan[0] == 'p' && mac[0] == '_' && manifest[0] == 'm' && meta[0] == 's';
    NotPrefix(plan, mac);
    TravelsExact(plan);
    SemesterRoundTrip(entries, source, target, now, plan);
  }
}
