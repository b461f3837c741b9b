/** Same-slot groups become schedulable units: a path-halving union-find over the movable exams,
    then one unit per group and one per fixed exam. */
module ExamUnits {
  import opened Seqs
  import opened Graph
  import opened Forests
  import opened SameSlotRoots

  /** What the unit construction reads of a recorded exam; fixedSlot is -1 if the exam is movable. */
  datatype ExamRec = ExamRec(regs: int, fixedSlot: int, exahm: bool, seb: bool)

  type Recorded = map<int, ExamRec>

  /** pinned is the slot of a fixed same-slot partner, -1 without one. */
  datatype ExamUnit = ExamUnit(id: int, ancodes: seq<int>, seats: int, exahm: bool, seb: bool,
                               fixed: bool, fixedSlot: int, pinned: int)

  predicate Movable(rec: Recorded, a: int) { a in rec && rec[a].fixedSlot < 0 }

  /** Same-slot pairs with two movable ends: only these merge. */
  ghost function MovableEdges(rec: Recorded, edges: set<(int, int)>): set<(int, int)> {
    set e | e in edges && Movable(rec, e.0) && Movable(rec, e.1)
  }

  // ----- path-halving union-find -----

  class ParentTable {
    var parent: map<int, int>
    ghost var rep: map<int, int>
    ghost var rank: map<int, nat>

    ghost predicate Valid()
      reads this
    {
      Forest(parent, rep, rank)
    }

    ghost predicate Represents(edges: set<(int, int)>)
      reads this
    {
      Valid() && Labels(rep, edges)
    }

    constructor (ancodes: set<int>)
      ensures Represents({}) && parent.Keys == ancodes
    {
      parent := map a | a in ancodes :: a;
      rep := map a | a in ancodes :: a;
      rank := map a | a in ancodes :: 0;
      new;
      forall k | k in ancodes ensures Vertex(parent, rep, rank, k) && Connected({}, k, rep[k]) {
        ConnectedRefl({}, k);
      }
    }

    /** Find with path halving: every step hangs x to its grandparent. */
    method Find(start: int) returns (x: int)
      requires Valid() && start in parent
      modifies `parent
      ensures Valid() && parent.Keys == old(parent.Keys)
      ensures IsRoot(rep, x) && x == rep[start]
    {
      x := start;
      assert Vertex(parent, rep, rank, x);
      while parent[x] != x
        invariant Valid() && parent.Keys == old(parent.Keys)
        invariant Vertex(parent, rep, rank, x) && rep[x] == rep[start]
        decreases rank[x]
      {
        var p := parent[x];
        assert Vertex(parent, rep, rank, p);
        var g := parent[p];
        assert rank[g] < rank[x];
        Compress(parent, rep, rank, x, g);
        parent := parent[x := g];
        x := g;
        assert Vertex(parent, rep, rank, x);
      }
    }

    /** parent[find(a)] = find(b). */
    method Unite(a: int, b: int, ghost edges: set<(int, int)>)
      requires Represents(edges) && a in parent && b in parent
      modifies this
      ensures Represents(edges + {(a, b)}) && parent.Keys == old(parent.Keys)
    {
      var r0 := Find(a);
      var r1 := Find(b);
      Link(parent, rep, rank, r0, r1);
      LabelsMerge(rep, edges, a, b);
      parent, rep, rank := parent[r0 := r1], Merge(rep, r0, r1), Lift(rank, rep, r0, r1);
    }

    /** The movable same-slot partners of a movable exam. */
    method UniteAll(rec: Recorded, a: int, others: seq<int>, ghost edges: set<(int, int)>)
      requires Represents(edges) && parent.Keys == rec.Keys && Movable(rec, a)
      modifies this
      ensures Represents(WithPairs(rec, edges, a, others)) && parent.Keys == rec.Keys
    {
      assert WithPairs(rec, edges, a, others[..0]) == edges;
      for j := 0 to |others|
        invariant Represents(WithPairs(rec, edges, a, others[..j])) && parent.Keys == rec.Keys
      {
        WithPairsGrows(rec, edges, a, others, j);
        if others[j] in rec && rec[others[j]].fixedSlot < 0 {
          Unite(a, others[j], WithPairs(rec, edges, a, others[..j]));
        }
      }
      assert others[..|others|] == others;
    }
  }

  /** The edges plus the movable same-slot pairs of one exam. */
  ghost function WithPairs(rec: Recorded, edges: set<(int, int)>, a: int, others: seq<int>): set<(int, int)> {
    edges + MovableEdges(rec, Star(a, others))
  }

  lemma WithPairsGrows(rec: Recorded, edges: set<(int, int)>, a: int, others: seq<int>, j: nat)
    requires j < |others| && Movable(rec, a)
    ensures WithPairs(rec, edges, a, others[..j + 1]) ==
            if Movable(rec, others[j]) then WithPairs(rec, edges, a, others[..j]) + {(a, others[j])}
            else WithPairs(rec, edges, a, others[..j])
  {
    assert others[..j + 1][..j] == others[..j];
    assert Star(a, others[..j + 1]) == Star(a, others[..j]) + {(a, others[j])};
  }

  /** The same-slot pairs of one recorded exam. */
  method MergeOne(table: ParentTable, rec: Recorded, constraints: SlotConstraints, a: int, ghost visited: set<int>)
    requires a in rec && table.parent.Keys == rec.Keys && table.Represents(MovableEdges(rec, EdgesOf(constraints, visited)))
    modifies table
    ensures table.parent.Keys == rec.Keys && table.Represents(MovableEdges(rec, EdgesOf(constraints, visited + {a})))
  {
    ghost var done := MovableEdges(rec, EdgesOf(constraints, visited));
    MovableEdgesGrow(rec, constraints, visited, a);
    if rec[a].fixedSlot < 0 && a in constraints && constraints[a].Some? {
      table.UniteAll(rec, a, constraints[a].value, done);
    } else {
      assert done + {} == done;
    }
  }

  /** The union-find pass over all recorded exams. */
  method MergeSameSlot(rec: Recorded, constraints: SlotConstraints, ancodes: seq<int>) returns (table: ParentTable)
    requires forall a :: a in ancodes <==> a in rec
    ensures fresh(table) && table.parent.Keys == rec.Keys
    ensures table.Represents(MovableEdges(rec, Edges(constraints)))
  {
    table := new ParentTable(rec.Keys);
    ghost var visited: set<int> := {};
    assert MovableEdges(rec, EdgesOf(constraints, visited)) == {};
    for i := 0 to |ancodes|
      invariant fresh(table) && table.parent.Keys == rec.Keys
      invariant forall j :: 0 <= j < i ==> ancodes[j] in visited
      invariant table.Represents(MovableEdges(rec, EdgesOf(constraints, visited)))
    {
      var a := ancodes[i];
      assert a in ancodes;
      MergeOne(table, rec, constraints, a, visited);
      visited := visited + {a};
    }
    AllVisited(rec, constraints, ancodes, visited);
  }

  lemma AllVisited(rec: Recorded, constraints: SlotConstraints, ancodes: seq<int>, visited: set<int>)
    requires forall a :: a in ancodes <==> a in rec
    requires forall j :: 0 <= j < |ancodes| ==> ancodes[j] in visited
    ensures MovableEdges(rec, EdgesOf(constraints, visited)) == MovableEdges(rec, Edges(constraints))
  {
    forall k | k in rec ensures k in visited {
      var j :| 0 <= j < |ancodes| && ancodes[j] == k;
    }
  }

  lemma MovableEdgesGrow(rec: Recorded, constraints: SlotConstraints, keys: set<int>, a: int)
    ensures MovableEdges(rec, EdgesOf(constraints, keys + {a})) ==
            MovableEdges(rec, EdgesOf(constraints, keys)) +
            (if Movable(rec, a) && a in constraints && constraints[a].Some?
             then MovableEdges(rec, Star(a, constraints[a].value)) else {})
  {}

  // ----- units -----

  function SumRegs(rec: Recorded, ancodes: seq<int>): int
    requires forall a :: a in ancodes ==> a in rec
  {
    if ancodes == [] then 0
    else
      var last := ancodes[|ancodes| - 1];
      assert ancodes == ancodes[..|ancodes| - 1] + [last];
      SumRegs(rec, ancodes[..|ancodes| - 1]) + rec[last].regs
  }

  function TotalSeats(units: seq<ExamUnit>): int {
    if units == [] then 0 else TotalSeats(units[..|units| - 1]) + units[|units| - 1].seats
  }

  /** The movable exams of one group, in listing order. */
  ghost function Members(rec: Recorded, rep: map<int, int>, ancodes: seq<int>, r: int): seq<int> {
    if ancodes == [] then []
    else
      var last := ancodes[|ancodes| - 1];
      Members(rec, rep, ancodes[..|ancodes| - 1], r) +
      if Movable(rec, last) && last in rep && rep[last] == r then [last] else []
  }

  lemma {:induction false} MembersExact(rec: Recorded, rep: map<int, int>, ancodes: seq<int>, r: int)
    requires Ascending(ancodes)
    ensures Ascending(Members(rec, rep, ancodes, r))
    ensures forall a :: a in Members(rec, rep, ancodes, r) <==> a in ancodes && Movable(rec, a) && a in rep && rep[a] == r
  {
    if ancodes != [] {
      var front, last := ancodes[..|ancodes| - 1], ancodes[|ancodes| - 1];
      assert ancodes == front + [last];
      MembersExact(rec, rep, front, r);
      var m := Members(rec, rep, front, r);
      forall i | 0 <= i < |m| ensures m[i] < last {
        var x := m[i];
        assert x in m && x in front;
      }
    }
  }

  /** A fixed same-slot partner of exam a holds slot s. */
  ghost predicate PinnedBy(rec: Recorded, constraints: SlotConstraints, a: int, s: int) {
    exists b :: SameSlotPair(constraints, (a, b)) && b in rec && rec[b].fixedSlot == s
  }

  ghost predicate PinnedTo(rec: Recorded, constraints: SlotConstraints, members: seq<int>, s: int) {
    exists a :: a in members && PinnedBy(rec, constraints, a, s)
  }

  function PartnersOf(constraints: SlotConstraints, a: int): seq<int> {
    if a in constraints && constraints[a].Some? then constraints[a].value else []
  }

  /** The slot of the last fixed exam of a list, otherwise what it was before. */
  function LastFixed(rec: Recorded, others: seq<int>, before: int): int {
    if others == [] then before
    else
      var last := others[|others| - 1];
      if last in rec && rec[last].fixedSlot >= 0 then rec[last].fixedSlot else LastFixed(rec, others[..|others| - 1], before)
  }

  /** The pin of a group: its members in order, each with its partners in order; the last fixed one wins. */
  function PinOf(rec: Recorded, constraints: SlotConstraints, members: seq<int>): int {
    if members == [] then -1
    else LastFixed(rec, PartnersOf(constraints, members[|members| - 1]), PinOf(rec, constraints, members[..|members| - 1]))
  }

  lemma {:induction false} LastFixedExact(rec: Recorded, others: seq<int>, before: int)
    ensures (exists b :: b in others && b in rec && rec[b].fixedSlot >= 0 && rec[b].fixedSlot == LastFixed(rec, others, before)) ||
            (LastFixed(rec, others, before) == before && forall b :: b in others && b in rec ==> rec[b].fixedSlot < 0)
  {
    if others != [] {
      var front, last := others[..|others| - 1], others[|others| - 1];
      assert others == front + [last];
      if !(last in rec && rec[last].fixedSlot >= 0) { LastFixedExact(rec, front, before); }
    }
  }

  /** The last fixed exam of a list decides, whatever stood there before. */
  lemma {:induction false} LastFixedWins(rec: Recorded, others: seq<int>, before: int, k: nat)
    requires k < |others| && others[k] in rec && rec[others[k]].fixedSlot >= 0
    requires forall i :: k < i < |others| && others[i] in rec ==> rec[others[i]].fixedSlot < 0
    ensures LastFixed(rec, others, before) == rec[others[k]].fixedSlot
  {
    if k < |others| - 1 { LastFixedWins(rec, others[..|others| - 1], before, k); }
  }

  /** A group is pinned exactly if a member has a fixed partner, and then to the slot of one. */
  lemma {:induction false} PinExact(rec: Recorded, constraints: SlotConstraints, members: seq<int>)
    ensures var pin := PinOf(rec, constraints, members);
            if pin >= 0 then PinnedTo(rec, constraints, members, pin)
            else pin == -1 && forall s :: s >= 0 ==> !PinnedTo(rec, constraints, members, s)
  {
    if members != [] {
      var front, last := members[..|members| - 1], members[|members| - 1];
      assert members == front + [last];
      PinExact(rec, constraints, front);
      LastFixedExact(rec, PartnersOf(constraints, last), PinOf(rec, constraints, front));
      var pin := PinOf(rec, constraints, members);
      if b :| b in PartnersOf(constraints, last) && b in rec && rec[b].fixedSlot >= 0 && rec[b].fixedSlot == pin {
        assert SameSlotPair(constraints, (last, b));
        assert PinnedBy(rec, constraints, last, pin);
      } else {
        PinFromFront(rec, constraints, front, last, pin);
      }
    }
  }

  lemma PinFromFront(rec: Recorded, constraints: SlotConstraints, front: seq<int>, last: int, pin: int)
    requires forall b :: b in PartnersOf(constraints, last) && b in rec ==> rec[b].fixedSlot < 0
    requires if pin >= 0 then PinnedTo(rec, constraints, front, pin) else forall s :: s >= 0 ==> !PinnedTo(rec, constraints, front, s)
    ensures if pin >= 0 then PinnedTo(rec, constraints, front + [last], pin)
            else forall s :: s >= 0 ==> !PinnedTo(rec, constraints, front + [last], s)
  {
    if pin >= 0 {
      var a :| a in front && PinnedBy(rec, constraints, a, pin);
      assert a in front + [last];
    } else {
      forall s | s >= 0 ensures !PinnedTo(rec, constraints, front + [last], s) {
        assert !PinnedTo(rec, constraints, front, s);
      }
    }
  }

  /** One pin serves every fixed partner of the group exactly if they all stand in the same slot. */
  lemma PinServesAll(rec: Recorded, constraints: SlotConstraints, members: seq<int>)
    ensures (forall s :: s >= 0 && PinnedTo(rec, constraints, members, s) ==> s == PinOf(rec, constraints, members)) <==>
            (forall s, t :: s >= 0 && t >= 0 && PinnedTo(rec, constraints, members, s) && PinnedTo(rec, constraints, members, t) ==> s == t)
  {
    PinExact(rec, constraints, members);
  }

  /** The fixed partner slot of one exam; the last one listed wins. */
  method PinnedSlot(rec: Recorded, constraints: SlotConstraints, a: int, before: int) returns (pinned: int)
    ensures pinned == LastFixed(rec, PartnersOf(constraints, a), before)
  {
    pinned := before;
    if a !in constraints || constraints[a].None? { return; }
    var others := constraints[a].value;
    for j := 0 to |others|
      invariant pinned == LastFixed(rec, others[..j], before)
    {
      assert others[..j + 1][..j] == others[..j];
      var other := others[j];
      if other in rec && rec[other].fixedSlot >= 0 { pinned := rec[other].fixedSlot; }
    }
    assert others[..|others|] == others;
  }

  /** What a unit takes from its members: seats, kinds and the pin. */
  ghost predicate MergedUnit(rec: Recorded, constraints: SlotConstraints, members: seq<int>, u: ExamUnit) {
    && members != [] && u.ancodes == members && u.id == members[0] && !u.fixed
    && (forall a :: a in members ==> a in rec) && u.seats == SumRegs(rec, members)
    && (u.exahm <==> exists a :: a in members && rec[a].exahm)
    && (u.seb <==> exists a :: a in members && rec[a].seb)
    && u.pinned == PinOf(rec, constraints, members)
  }

  /** The merged unit of one group. */
  method MergeMembers(rec: Recorded, constraints: SlotConstraints, members: seq<int>) returns (u: ExamUnit)
    requires members != [] && forall a :: a in members ==> a in rec
    ensures MergedUnit(rec, constraints, members, u)
  {
    var seats, exahm, seb, pinned := 0, false, false, -1;
    for i := 0 to |members|
      invariant forall a :: a in members[..i] ==> a in rec
      invariant seats == SumRegs(rec, members[..i])
      invariant exahm <==> exists a :: a in members[..i] && rec[a].exahm
      invariant seb <==> exists a :: a in members[..i] && rec[a].seb
      invariant pinned == PinOf(rec, constraints, members[..i])
    {
      var a := members[i];
      assert a in members;
      assert members[..i + 1] == members[..i] + [a] && members[..i + 1][..i] == members[..i];
      seats := seats + rec[a].regs;
      if rec[a].exahm { exahm := true; }
      if rec[a].seb { seb := true; }
      pinned := PinnedSlot(rec, constraints, a, pinned);
    }
    assert members[..|members|] == members;
    u := ExamUnit(members[0], members, seats, exahm, seb, false, 0, pinned);
  }

  /** unitOf and the units' member lists are inverse to each other, and seats add up per unit. */
  ghost predicate Partition(rec: Recorded, units: seq<ExamUnit>, unitOf: map<int, nat>) {
    && (forall a :: a in unitOf ==> a in rec && unitOf[a] < |units| && a in units[unitOf[a]].ancodes)
    && (forall u :: 0 <= u < |units| ==> WellFormed(rec, units, unitOf, u))
  }

  ghost predicate WellFormed(rec: Recorded, units: seq<ExamUnit>, unitOf: map<int, nat>, u: nat)
    requires u < |units|
  {
    var m := units[u].ancodes;
    && m != [] && Ascending(m) && units[u].id == m[0]
    && (forall a :: a in m ==> a in rec && a in unitOf && unitOf[a] == u)
    && units[u].seats == SumRegs(rec, m)
  }

  function Assign(unitOf: map<int, nat>, members: seq<int>, u: nat): map<int, nat> {
    unitOf + map a | a in members :: u
  }

  lemma PartitionGrows(rec: Recorded, units: seq<ExamUnit>, unitOf: map<int, nat>, unit: ExamUnit)
    requires Partition(rec, units, unitOf)
    requires unit.ancodes != [] && Ascending(unit.ancodes) && unit.id == unit.ancodes[0]
    requires forall a :: a in unit.ancodes ==> a in rec && a !in unitOf
    requires unit.seats == SumRegs(rec, unit.ancodes)
    ensures Partition(rec, units + [unit], Assign(unitOf, unit.ancodes, |units|))
  {
    var units', unitOf' := units + [unit], Assign(unitOf, unit.ancodes, |units|);
    forall u | 0 <= u < |units'| ensures WellFormed(rec, units', unitOf', u) {
      if u < |units| { assert WellFormed(rec, units, unitOf, u); }
    }
  }

  // ----- grouping by root -----

  ghost predicate Group(rec: Recorded, rep: map<int, int>, ancodes: seq<int>, groups: map<int, seq<int>>, r: int) {
    if r in groups then groups[r] != [] && groups[r] == Members(rec, rep, ancodes, r)
    else Members(rec, rep, ancodes, r) == []
  }

  ghost predicate Grouped(rec: Recorded, rep: map<int, int>, ancodes: seq<int>, groups: map<int, seq<int>>, roots: seq<int>) {
    && (forall r :: r in roots <==> r in groups)
    && (forall r {:trigger Group(rec, rep, ancodes, groups, r)} :: Group(rec, rep, ancodes, groups, r))
  }

  /** Appends a to its group, opening the group if it is new. */
  function AddMember(groups: map<int, seq<int>>, r: int, a: int): map<int, seq<int>> {
    groups[r := (if r in groups then groups[r] else []) + [a]]
  }

  lemma GroupedStep(rec: Recorded, rep: map<int, int>, ancodes: seq<int>, i: nat, groups: map<int, seq<int>>, roots: seq<int>)
    requires i < |ancodes| && ancodes[i] in rep && ancodes[i] in rec
    requires Grouped(rec, rep, ancodes[..i], groups, roots)
    ensures var a, r := ancodes[i], rep[ancodes[i]];
            if rec[a].fixedSlot >= 0 then Grouped(rec, rep, ancodes[..i + 1], groups, roots)
            else Grouped(rec, rep, ancodes[..i + 1], AddMember(groups, r, a), if r in groups then roots else roots + [r])
  {
    var next := ancodes[..i + 1];
    assert next[..i] == ancodes[..i];
    var a, r := ancodes[i], rep[ancodes[i]];
    var groups' := if rec[a].fixedSlot >= 0 then groups else AddMember(groups, r, a);
    forall q ensures Group(rec, rep, next, groups', q) {
      assert Group(rec, rep, ancodes[..i], groups, q);
    }
  }

  method GroupByRoot(rec: Recorded, table: ParentTable, ancodes: seq<int>) returns (groups: map<int, seq<int>>, roots: seq<int>)
    requires table.Valid() && (forall a :: a in ancodes ==> a in rec)
    requires table.parent.Keys == rec.Keys
    modifies table`parent
    ensures table.Valid() && Ascending(roots) && Grouped(rec, table.rep, ancodes, groups, roots)
  {
    groups, roots := map[], [];
    for i := 0 to |ancodes|
      invariant table.Valid() && table.parent.Keys == rec.Keys
      invariant Grouped(rec, table.rep, ancodes[..i], groups, roots)
    {
      var a := ancodes[i];
      assert a in ancodes;
      GroupedStep(rec, table.rep, ancodes, i, groups, roots);
      if rec[a].fixedSlot >= 0 { continue; }
      var r := table.Find(a);
      if r !in groups { roots := roots + [r]; }
      groups := AddMember(groups, r, a);
    }
    assert ancodes[..|ancodes|] == ancodes;
    roots := SortRoots(rec, table.rep, ancodes, groups, roots);
  }

  method SortRoots(ghost rec: Recorded, ghost rep: map<int, int>, ghost ancodes: seq<int>, ghost groups: map<int, seq<int>>,
                   roots: seq<int>) returns (sorted: seq<int>)
    requires Grouped(rec, rep, ancodes, groups, roots)
    ensures Ascending(sorted) && Grouped(rec, rep, ancodes, groups, sorted)
  {
    sorted := SortKeys(roots);
  }

  /** Records unitOf for every member. */
  method Record(unitOf: map<int, nat>, members: seq<int>, u: nat) returns (r: map<int, nat>)
    ensures r == Assign(unitOf, members, u)
  {
    r := unitOf;
    for j := 0 to |members|
      invariant r == Assign(unitOf, members[..j], u)
    {
      r := r[members[j] := u];
      AssignGrows(unitOf, members, u, j);
    }
    assert members[..|members|] == members;
  }

  lemma AssignGrows(unitOf: map<int, nat>, members: seq<int>, u: nat, j: nat)
    requires j < |members|
    ensures Assign(unitOf, members[..j + 1], u) == Assign(unitOf, members[..j], u)[members[j] := u]
  {
    assert members[..j + 1] == members[..j] + [members[j]];
  }

  /** Unit k is the merged unit of the k-th root's group. */
  ghost predicate UnitFor(rec: Recorded, constraints: SlotConstraints, rep: map<int, int>, ancodes: seq<int>, r: int, u: ExamUnit) {
    MergedUnit(rec, constraints, Members(rec, rep, ancodes, r), u)
  }

  ghost predicate Among(roots: seq<int>, k: nat, r: int) { exists j :: 0 <= j < k && j < |roots| && roots[j] == r }

  /** The exams recorded so far belong to the first k roots. */
  ghost predicate OwnedUpTo(rec: Recorded, rep: map<int, int>, roots: seq<int>, k: nat, unitOf: map<int, nat>) {
    forall a :: a in unitOf ==> Movable(rec, a) && a in rep && Among(roots, k, rep[a])
  }

  ghost predicate UnitsFor(rec: Recorded, constraints: SlotConstraints, rep: map<int, int>, ancodes: seq<int>, roots: seq<int>, units: seq<ExamUnit>) {
    |units| <= |roots| &&
    forall j {:trigger UnitFor(rec, constraints, rep, ancodes, roots[j], units[j])} :: 0 <= j < |units| ==> UnitFor(rec, constraints, rep, ancodes, roots[j], units[j])
  }

  /** The units of the first roots. */
  ghost predicate UnitsUpTo(rec: Recorded, constraints: SlotConstraints, rep: map<int, int>, ancodes: seq<int>, roots: seq<int>,
                            units: seq<ExamUnit>, unitOf: map<int, nat>) {
    && Partition(rec, units, unitOf) && UnitsFor(rec, constraints, rep, ancodes, roots, units)
    && OwnedUpTo(rec, rep, roots, |units|, unitOf)
  }

  lemma OwnedStep(rec: Recorded, rep: map<int, int>, ancodes: seq<int>, roots: seq<int>, k: nat, unitOf: map<int, nat>)
    requires Ascending(ancodes) && Ascending(roots) && k < |roots| && OwnedUpTo(rec, rep, roots, k, unitOf)
    ensures var m := Members(rec, rep, ancodes, roots[k]);
            && Ascending(m) && (forall a :: a in m ==> a in rec && a !in unitOf)
            && OwnedUpTo(rec, rep, roots, k + 1, Assign(unitOf, m, k))
  {
    MembersExact(rec, rep, ancodes, roots[k]);
    assert Among(roots, k + 1, roots[k]);
    forall a | a in unitOf ensures Among(roots, k + 1, rep[a]) && rep[a] != roots[k] {
      assert Among(roots, k, rep[a]);
    }
  }

  lemma UnitsStep(rec: Recorded, constraints: SlotConstraints, rep: map<int, int>, ancodes: seq<int>, roots: seq<int>,
                  units: seq<ExamUnit>, unitOf: map<int, nat>, u: ExamUnit)
    requires Ascending(ancodes) && Ascending(roots) && |units| < |roots|
    requires UnitsUpTo(rec, constraints, rep, ancodes, roots, units, unitOf)
    requires UnitFor(rec, constraints, rep, ancodes, roots[|units|], u)
    ensures UnitsUpTo(rec, constraints, rep, ancodes, roots, units + [u], Assign(unitOf, u.ancodes, |units|))
  {
    OwnedStep(rec, rep, ancodes, roots, |units|, unitOf);
    PartitionGrows(rec, units, unitOf, u);
    forall j | 0 <= j < |units| + 1 ensures UnitFor(rec, constraints, rep, ancodes, roots[j], (units + [u])[j]) {
      if j < |units| { assert UnitFor(rec, constraints, rep, ancodes, roots[j], units[j]); }
    }
  }

  /** The movable units: one per group, ordered by root. */
  method MovableUnits(rec: Recorded, constraints: SlotConstraints, ghost rep: map<int, int>, ghost ancodes: seq<int>,
                      groups: map<int, seq<int>>, roots: seq<int>)
    returns (units: seq<ExamUnit>, unitOf: map<int, nat>)
    requires Ascending(ancodes) && Ascending(roots) && Grouped(rec, rep, ancodes, groups, roots)
    ensures |units| == |roots| && UnitsUpTo(rec, constraints, rep, ancodes, roots, units, unitOf)
  {
    units, unitOf := [], map[];
    for k := 0 to |roots|
      invariant |units| == k && UnitsUpTo(rec, constraints, rep, ancodes, roots, units, unitOf)
    {
      var members := groups[GroupRoot(rec, rep, ancodes, groups, roots, k)];
      var u := MergeMembers(rec, constraints, members);
      UnitsStep(rec, constraints, rep, ancodes, roots, units, unitOf, u);
      unitOf := Record(unitOf, members, k);
      units := units + [u];
    }
  }

  /** The k-th root, whose group is not empty. */
  function GroupRoot(ghost rec: Recorded, ghost rep: map<int, int>, ghost ancodes: seq<int>, groups: map<int, seq<int>>, roots: seq<int>, k: nat): (r: int)
    requires Ascending(ancodes) && k < |roots| && Grouped(rec, rep, ancodes, groups, roots)
    ensures r == roots[k] && r in groups && groups[r] != [] && groups[r] == Members(rec, rep, ancodes, r)
    ensures forall a :: a in groups[r] ==> a in rec
  {
    MembersExact(rec, rep, ancodes, roots[k]);
    assert roots[k] in roots;
    assert Group(rec, rep, ancodes, groups, roots[k]);
    roots[k]
  }

  /** A fixed exam has its own unit behind the movable ones. */
  ghost predicate FixedPlaced(rec: Recorded, from: nat, units: seq<ExamUnit>, unitOf: map<int, nat>, a: int) {
    a in unitOf && from <= unitOf[a] < |units| && FixedUnit(rec, units[unitOf[a]])
  }

  /** The fixed obstacles: one unit each, appended after the movable ones. */
  method FixedUnits(rec: Recorded, ancodes: seq<int>, units0: seq<ExamUnit>, unitOf0: map<int, nat>)
    returns (units: seq<ExamUnit>, unitOf: map<int, nat>)
    requires Ascending(ancodes) && (forall a :: a in ancodes <==> a in rec)
    requires Partition(rec, units0, unitOf0) && forall a :: a in unitOf0 ==> Movable(rec, a)
    ensures Partition(rec, units, unitOf) && units0 <= units
    ensures forall a :: a in unitOf0 ==> a in unitOf && unitOf[a] == unitOf0[a]
    ensures forall a :: a in rec && rec[a].fixedSlot >= 0 ==> FixedPlaced(rec, |units0|, units, unitOf, a)
  {
    units, unitOf := units0, unitOf0;
    for i := 0 to |ancodes|
      invariant Partition(rec, units, unitOf) && units0 <= units
      invariant forall a :: a in unitOf0 ==> a in unitOf && unitOf[a] == unitOf0[a]
      invariant forall a :: a in unitOf ==> a in unitOf0 || a in ancodes[..i]
      invariant forall a :: a in ancodes[..i] && rec[a].fixedSlot >= 0 ==> FixedPlaced(rec, |units0|, units, unitOf, a)
    {
      var a := ancodes[i];
      assert a in ancodes && ancodes[..i + 1] == ancodes[..i] + [a];
      if rec[a].fixedSlot < 0 { continue; }
      assert a !in ancodes[..i];
      units, unitOf := AppendFixed(rec, a, units, unitOf);
    }
    assert ancodes[..|ancodes|] == ancodes;
  }

  method AppendFixed(rec: Recorded, a: int, units0: seq<ExamUnit>, unitOf0: map<int, nat>)
    returns (units: seq<ExamUnit>, unitOf: map<int, nat>)
    requires a in rec && rec[a].fixedSlot >= 0 && a !in unitOf0 && Partition(rec, units0, unitOf0)
    ensures Partition(rec, units, unitOf) && units0 <= units && |units| == |units0| + 1
    ensures unitOf == unitOf0[a := |units0|] && FixedUnit(rec, units[|units0|])
  {
    var u := ExamUnit(a, [a], rec[a].regs, rec[a].exahm, rec[a].seb, true, rec[a].fixedSlot, -1);
    assert [a][..0] == [];
    PartitionGrows(rec, units0, unitOf0, u);
    assert Assign(unitOf0, [a], |units0|) == unitOf0[a := |units0|];
    unitOf := unitOf0[a := |units0|];
    units := units0 + [u];
  }

  ghost predicate FixedUnit(rec: Recorded, u: ExamUnit) {
    && |u.ancodes| == 1 && u.ancodes[0] in rec
    && var e := rec[u.ancodes[0]];
    u.fixed && e.fixedSlot >= 0 && u.fixedSlot == e.fixedSlot && u.exahm == e.exahm && u.seb == e.seb
  }

  // ----- the whole construction -----

  /** The units are the connected components of the movable same-slot graph plus one unit per fixed exam. */
  ghost predicate UnitsExact(rec: Recorded, constraints: SlotConstraints, edges: set<(int, int)>, units: seq<ExamUnit>, unitOf: map<int, nat>) {
    && Partition(rec, units, unitOf) && unitOf.Keys == rec.Keys
    && (forall a, b :: Movable(rec, a) && Movable(rec, b) ==> (unitOf[a] == unitOf[b] <==> Connected(edges, a, b)))
    && (forall a :: a in rec && rec[a].fixedSlot >= 0 ==> unitOf[a] < |units| && FixedUnit(rec, units[unitOf[a]]))
    && (forall a :: Movable(rec, a) ==> unitOf[a] < |units| && MergedUnit(rec, constraints, units[unitOf[a]].ancodes, units[unitOf[a]]))
  }

  /** Main result: for any order of the recorded exams the construction yields exactly the same-slot
      groups, and no registration is lost or counted twice. */
  method BuildUnits(rec: Recorded, constraints: SlotConstraints, order: seq<int>) returns (units: seq<ExamUnit>, unitOf: map<int, nat>)
    requires forall a :: a in order <==> a in rec
    ensures UnitsExact(rec, constraints, MovableEdges(rec, Edges(constraints)), units, unitOf)
    ensures TotalSeats(units) == SumOver(rec, rec.Keys)
  {
    var ancodes := SortKeys(order);
    var table := MergeSameSlot(rec, constraints, ancodes);
    ghost var rep := table.rep;
    var groups, roots := GroupByRoot(rec, table, ancodes);
    ghost var edges := MovableEdges(rec, Edges(constraints));
    assert rep.Keys == rec.Keys;
    units, unitOf := MovableUnits(rec, constraints, rep, ancodes, groups, roots);
    ghost var units0, unitOf0 := units, unitOf;
    forall a | Movable(rec, a) ensures a in unitOf0 && unitOf0[a] < |roots| && roots[unitOf0[a]] == rep[a] {
      UnitOfMember(rec, constraints, rep, ancodes, groups, roots, units0, unitOf0, a);
    }
    units, unitOf := FixedUnits(rec, ancodes, units, unitOf);
    forall a | a in rec ensures a in unitOf {
      assert Movable(rec, a) || rec[a].fixedSlot >= 0;
    }
    SeatsConserved(rec, units, unitOf);
    FinalUnitsExact(rec, constraints, edges, rep, ancodes, roots, units0, unitOf0, units, unitOf);
  }

  lemma UnitOfMember(rec: Recorded, constraints: SlotConstraints, rep: map<int, int>, ancodes: seq<int>, groups: map<int, seq<int>>, roots: seq<int>,
                     units: seq<ExamUnit>, unitOf: map<int, nat>, a: int)
    requires Ascending(ancodes) && Ascending(roots) && Grouped(rec, rep, ancodes, groups, roots)
    requires |units| == |roots| && UnitsUpTo(rec, constraints, rep, ancodes, roots, units, unitOf)
    requires Movable(rec, a) && a in ancodes && a in rep
    ensures a in unitOf && unitOf[a] < |roots| && roots[unitOf[a]] == rep[a]
  {
    MembersExact(rec, rep, ancodes, rep[a]);
    assert Group(rec, rep, ancodes, groups, rep[a]);
    assert rep[a] in roots;
    var k :| 0 <= k < |roots| && roots[k] == rep[a];
    assert UnitFor(rec, constraints, rep, ancodes, roots[k], units[k]);
    assert WellFormed(rec, units, unitOf, k);
    assert a in units[k].ancodes;
  }

  lemma FinalUnitsExact(rec: Recorded, constraints: SlotConstraints, edges: set<(int, int)>, rep: map<int, int>, ancodes: seq<int>, roots: seq<int>,
                        units0: seq<ExamUnit>, unitOf0: map<int, nat>, units: seq<ExamUnit>, unitOf: map<int, nat>)
    requires rep.Keys == rec.Keys && Labels(rep, edges) && Ascending(roots)
    requires Partition(rec, units, unitOf) && units0 <= units && |units0| == |roots|
    requires forall a :: Movable(rec, a) ==> a in unitOf0 && unitOf0[a] < |roots| && roots[unitOf0[a]] == rep[a]
    requires forall a :: a in unitOf0 ==> a in unitOf && unitOf[a] == unitOf0[a]
    requires UnitsUpTo(rec, constraints, rep, ancodes, roots, units0, unitOf0)
    requires forall a :: a in rec && rec[a].fixedSlot >= 0 ==> FixedPlaced(rec, |units0|, units, unitOf, a)
    ensures UnitsExact(rec, constraints, edges, units, unitOf)
  {
    forall a ensures a in unitOf.Keys <==> a in rec.Keys {
      assert a in rec ==> Movable(rec, a) || rec[a].fixedSlot >= 0;
    }
    forall a, b | Movable(rec, a) && Movable(rec, b) ensures unitOf[a] == unitOf[b] <==> Connected(edges, a, b) {
      LabelsExact(edges, rep, a, b);
    }
    forall a | Movable(rec, a) ensures unitOf[a] < |units| && MergedUnit(rec, constraints, units[unitOf[a]].ancodes, units[unitOf[a]]) {
      var k := unitOf0[a];
      assert units0[k] == units[k];
      assert UnitFor(rec, constraints, rep, ancodes, roots[k], units0[k]);
    }
  }

  lemma MovablePartners(rec: Recorded, constraints: SlotConstraints, a: int, b: int)
    requires Movable(rec, a) && Movable(rec, b) && b in PartnersOf(constraints, a)
    ensures Connected(MovableEdges(rec, Edges(constraints)), a, b)
  {
    var edges := MovableEdges(rec, Edges(constraints));
    assert SameSlotPair(constraints, (a, b));
    assert (a, b) in edges;
    ConnectedEdge(edges, a, b);
  }

  /** Movable same-slot partners share a unit. */
  lemma PartnersShareUnit(rec: Recorded, constraints: SlotConstraints, units: seq<ExamUnit>, unitOf: map<int, nat>, a: int, b: int)
    requires UnitsExact(rec, constraints, MovableEdges(rec, Edges(constraints)), units, unitOf)
    requires Movable(rec, a) && Movable(rec, b) && b in PartnersOf(constraints, a)
    ensures unitOf[a] == unitOf[b]
  {
    MovablePartners(rec, constraints, a, b);
  }

  /** A fixed exam shares its unit with nobody. */
  lemma FixedAlone(rec: Recorded, constraints: SlotConstraints, edges: set<(int, int)>, units: seq<ExamUnit>, unitOf: map<int, nat>, a: int, b: int)
    requires UnitsExact(rec, constraints, edges, units, unitOf) && a in rec && rec[a].fixedSlot >= 0 && b in rec && a != b
    ensures unitOf[a] != unitOf[b]
  {
    SoleMember(rec, units, unitOf, a);
    if unitOf[a] == unitOf[b] { SoleMember(rec, units, unitOf, b); }
  }

  lemma SoleMember(rec: Recorded, units: seq<ExamUnit>, unitOf: map<int, nat>, a: int)
    requires Partition(rec, units, unitOf) && a in unitOf && unitOf[a] < |units| && FixedUnit(rec, units[unitOf[a]])
    ensures units[unitOf[a]].ancodes == [a]
  {}

  // ----- conservation of seats -----

  ghost function SumOver(rec: Recorded, s: set<int>): int
    requires s <= rec.Keys
  {
    if s == {} then 0
    else
      var x := Pick(s);
      SumOver(rec, s - {x}) + rec[x].regs
  }

  lemma {:induction false} SumOverRemove(rec: Recorded, s: set<int>, x: int)
    requires s <= rec.Keys && x in s
    ensures SumOver(rec, s) == SumOver(rec, s - {x}) + rec[x].regs
    decreases |s|
  {
    var y := Pick(s);
    if y != x {
      SumOverRemove(rec, s - {y}, x);
      SumOverRemove(rec, s - {x}, y);
      assert s - {y} - {x} == s - {x} - {y};
    }
  }

  /** Adding the members of one unit to a set of other exams adds the unit's seats. */
  lemma {:induction false} SumOverMembers(rec: Recorded, s: set<int>, m: seq<int>)
    requires s <= rec.Keys && Ascending(m) && (forall a :: a in m ==> a in rec && a !in s)
    ensures Elements(m) <= rec.Keys && SumOver(rec, s + Elements(m)) == SumOver(rec, s) + SumRegs(rec, m)
    decreases |m|
  {
    if m == [] {
      assert s + Elements(m) == s;
    } else {
      var front, last := m[..|m| - 1], m[|m| - 1];
      assert m == front + [last];
      assert last !in front;
      SumOverMembers(rec, s, front);
      var all := s + Elements(m);
      assert last in Elements(m);
      assert all - {last} == s + Elements(front);
      SumOverRemove(rec, all, last);
    }
  }

  /** The exams of the first n units. */
  ghost function Placed(units: seq<ExamUnit>, n: nat): set<int>
    requires n <= |units|
  {
    if n == 0 then {} else Placed(units, n - 1) + Elements(units[n - 1].ancodes)
  }

  lemma {:induction false} PlacedExact(rec: Recorded, units: seq<ExamUnit>, unitOf: map<int, nat>, n: nat)
    requires Partition(rec, units, unitOf) && n <= |units|
    ensures forall a :: a in Placed(units, n) <==> a in unitOf && unitOf[a] < n
  {
    if n > 0 {
      PlacedExact(rec, units, unitOf, n - 1);
      assert WellFormed(rec, units, unitOf, n - 1);
      forall a ensures a in Placed(units, n) <==> a in unitOf && unitOf[a] < n {
        assert a in Elements(units[n - 1].ancodes) <==> a in units[n - 1].ancodes;
      }
    }
  }

  lemma {:induction false} SeatsOfPrefix(rec: Recorded, units: seq<ExamUnit>, unitOf: map<int, nat>, n: nat)
    requires Partition(rec, units, unitOf) && n <= |units|
    ensures Placed(units, n) <= rec.Keys && TotalSeats(units[..n]) == SumOver(rec, Placed(units, n))
  {
    PlacedExact(rec, units, unitOf, n);
    if n > 0 {
      SeatsOfPrefix(rec, units, unitOf, n - 1);
      PlacedExact(rec, units, unitOf, n - 1);
      assert units[..n][..n - 1] == units[..n - 1];
      assert WellFormed(rec, units, unitOf, n - 1);
      SumOverMembers(rec, Placed(units, n - 1), units[n - 1].ancodes);
    }
  }

  /** The seats of all units are the registrations of all recorded exams. */
  lemma SeatsConserved(rec: Recorded, units: seq<ExamUnit>, unitOf: map<int, nat>)
    requires Partition(rec, units, unitOf) && forall a :: a in rec ==> a in unitOf
    ensures TotalSeats(units) == SumOver(rec, rec.Keys)
  {
    SeatsOfPrefix(rec, units, unitOf, |units|);
    PlacedExact(rec, units, unitOf, |units|);
    assert units[..|units|] == units;
    forall a ensures a in Placed(units, |units|) <==> a in rec.Keys {}
    assert Placed(units, |units|) == rec.Keys;
  }
}
