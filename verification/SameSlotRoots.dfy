/** The recursive union-find that gives every ancode of a same-slot constraint its group root. */
module SameSlotRoots {
  import opened Graph
  import opened Options
  import opened Forests
  import opened Seqs

  /** Ancode to its constraints' SameSlot list; None is a stored nil. */
  type SlotConstraints = map<int, Option<seq<int>>>

  /** e.1 stands in the SameSlot list stored for e.0. */
  ghost predicate SameSlotPair(constraints: SlotConstraints, e: (int, int)) {
    e.0 in constraints && constraints[e.0].Some? && e.1 in constraints[e.0].value
  }

  /** The same-slot pairs of one exam. */
  ghost function Star(a: int, others: seq<int>): (star: set<(int, int)>)
    ensures forall e :: e in star <==> e.0 == a && e.1 in others
  {
    if others == [] then {}
    else
      assert others == others[..|others| - 1] + [others[|others| - 1]];
      Star(a, others[..|others| - 1]) + {(a, others[|others| - 1])}
  }

  /** The pairs stored for some of the exams. */
  ghost function EdgesOf(constraints: SlotConstraints, keys: set<int>): (edges: set<(int, int)>)
    ensures forall e :: e in edges <==> SameSlotPair(constraints, e) && e.0 in keys
  {
    if keys == {} then {}
    else
      var k := Pick(keys);
      EdgesOf(constraints, keys - {k}) + (if k in constraints && constraints[k].Some? then Star(k, constraints[k].value) else {})
  }

  /** The undirected same-slot graph the constraints describe. */
  ghost function Edges(constraints: SlotConstraints): (edges: set<(int, int)>)
    ensures forall e :: e in edges <==> SameSlotPair(constraints, e)
  {
    EdgesOf(constraints, constraints.Keys)
  }

  /** Visiting one more exam adds exactly its pairs. */
  lemma EdgesGrow(constraints: SlotConstraints, keys: set<int>, k: int)
    requires k in constraints
    ensures EdgesOf(constraints, keys + {k}) ==
            EdgesOf(constraints, keys) + (if constraints[k].Some? then Star(k, constraints[k].value) else {})
  {}

  class RootTable {
    var root: map<int, int>
    ghost var rep: map<int, int>
    ghost var rank: map<int, nat>

    ghost predicate Valid()
      reads this
    {
      Forest(root, rep, rank)
    }

    constructor ()
      ensures Valid() && root == map[] && Labels(rep, {})
    {
      root, rep, rank := map[], map[], map[];
    }

    /** Recursive find: every vertex on the way is re-hung to the root. */
    method Find(x: int) returns (r: int)
      requires Valid()
      modifies `root
      ensures Valid() && root.Keys == old(root.Keys)
      ensures r == if x in rep then rep[x] else x
      ensures x in rep ==> IsRoot(rep, r)
      ensures forall k :: k in root ==> root[k] == old(root[k]) || root[k] == rep[k]
      decreases if x in rank then rank[x] else 0
    {
      if x in root && root[x] != x {
        assert Vertex(root, rep, rank, x);
        var y := Find(root[x]);
        assert Vertex(root, rep, rank, x);
        Compress(root, rep, rank, x, y);
        root := root[x := y];
        return root[x];
      }
      assert x in root ==> Vertex(root, rep, rank, x);
      return x;
    }

    /** The table stands for exactly the connected components of the edges. */
    ghost predicate Represents(edges: set<(int, int)>)
      reads this
    {
      Valid() && Labels(rep, edges)
    }

    /** An ancode seen for the first time becomes its own root. */
    method Register(a: int, ghost edges: set<(int, int)>)
      requires Represents(edges)
      modifies this
      ensures Represents(edges) && root.Keys == old(root.Keys) + {a}
    {
      if a !in root {
        AddSingleton(root, rep, rank, a);
        LabelsSingleton(rep, edges, a);
        root, rep, rank := root[a := a], rep[a := a], rank[a := 0];
      }
    }

    /** root[find(a)] = find(b), for registered ancodes. */
    method Unite(a: int, b: int, ghost edges: set<(int, int)>)
      requires Represents(edges) && a in root && b in root
      modifies this
      ensures Represents(edges + {(a, b)}) && root.Keys == old(root.Keys)
    {
      var r0 := Find(a);
      var r1 := Find(b);
      Link(root, rep, rank, r0, r1);
      LabelsMerge(rep, edges, a, b);
      root, rep, rank := root[r0 := r1], Merge(rep, r0, r1), Lift(rank, rep, r0, r1);
    }

    /** The SameSlot list of one exam. */
    method JoinAll(a: int, others: seq<int>, ghost edges: set<(int, int)>)
      requires Represents(edges) && root.Keys == Vertices(edges)
      modifies this
      ensures Represents(edges + Star(a, others)) && root.Keys == Vertices(edges + Star(a, others))
    {
      assert edges + Star(a, others[..0]) == edges;
      for j := 0 to |others|
        invariant Represents(edges + Star(a, others[..j])) && root.Keys == Vertices(edges + Star(a, others[..j]))
      {
        ghost var now := edges + Star(a, others[..j]);
        StarGrows(edges, a, others, j);
        Register(a, now);
        Register(others[j], now);
        Unite(a, others[j], now);
      }
      assert others[..|others|] == others;
    }

    /** The final pass: every key is hung directly to its root. */
    method Flatten()
      requires Valid()
      modifies `root
      ensures Valid() && root.Keys == old(root.Keys)
      ensures forall k :: k in root ==> root[k] == rep[k]
    {
      var rest := root.Keys;
      while exists k :: k in rest
        invariant Valid() && rest <= root.Keys == old(root.Keys)
        invariant forall k :: k in root && k !in rest ==> root[k] == rep[k]
        decreases rest
      {
        var k :| k in rest;
        var r := Find(k);
        assert Vertex(root, rep, rank, k);
        if root[k] == k {
          assert root[k := r] == root;
        } else {
          Compress(root, rep, rank, k, r);
        }
        root := root[k := r];
        rest := rest - {k};
      }
    }
  }

  lemma StarGrows(edges: set<(int, int)>, a: int, others: seq<int>, j: nat)
    requires j < |others|
    ensures var now, next := edges + Star(a, others[..j]), edges + Star(a, others[..j + 1]);
            next == now + {(a, others[j])} && Vertices(next) == Vertices(now) + {a} + {others[j]}
  {
    assert others[..j + 1][..j] == others[..j];
    var now := edges + Star(a, others[..j]);
    assert edges + Star(a, others[..j + 1]) == now + {(a, others[j])};
    VerticesGrow(now, a, others[j]);
  }

  lemma VerticesGrow(edges: set<(int, int)>, a: int, b: int)
    ensures Vertices(edges + {(a, b)}) == Vertices(edges) + {a, b}
  {
    var more := edges + {(a, b)};
    assert (a, b) in more;
    forall x | x in Vertices(edges) + {a, b} ensures x in Vertices(more) {
      if x in Vertices(edges) {
        var e :| e in edges && (e.0 == x || e.1 == x);
        assert e in more;
      }
    }
  }

  /** The groups, for any iteration order of the constraints map. */
  method SameSlotGroups(constraints: SlotConstraints, order: seq<int>) returns (root: map<int, int>)
    requires forall i :: 0 <= i < |order| ==> order[i] in constraints
    requires forall k :: k in constraints ==> k in order
    ensures root.Keys == Vertices(Edges(constraints))
    ensures forall a, b :: a in root && b in root ==> (root[a] == root[b] <==> Connected(Edges(constraints), a, b))
    ensures forall a :: a in root ==> root[a] in root && root[root[a]] == root[a]
  {
    var table := BuildTable(constraints, order);
    table.Flatten();
    root := table.root;
    ghost var rep := table.rep;
    forall a | a in root ensures root[a] in root && root[root[a]] == root[a] {
      assert Vertex(root, rep, table.rank, a);
    }
    forall a, b | a in root && b in root ensures root[a] == root[b] <==> Connected(Edges(constraints), a, b) {
      LabelsExact(Edges(constraints), rep, a, b);
    }
  }

  method BuildTable(constraints: SlotConstraints, order: seq<int>) returns (table: RootTable)
    requires forall i :: 0 <= i < |order| ==> order[i] in constraints
    requires forall k :: k in constraints ==> k in order
    ensures fresh(table) && table.Represents(Edges(constraints)) && table.root.Keys == Vertices(Edges(constraints))
  {
    table := new RootTable();
    ghost var visited: set<int> := {};
    for i := 0 to |order|
      invariant fresh(table)
      invariant forall j :: 0 <= j < i ==> order[j] in visited
      invariant visited <= constraints.Keys
      invariant table.Represents(EdgesOf(constraints, visited))
      invariant table.root.Keys == Vertices(EdgesOf(constraints, visited))
    {
      var ancode := order[i];
      EdgesGrow(constraints, visited, ancode);
      ghost var done := EdgesOf(constraints, visited);
      visited := visited + {ancode};
      if constraints[ancode].None? {
        assert EdgesOf(constraints, visited) == done;
      } else {
        table.JoinAll(ancode, constraints[ancode].value, done);
      }
    }
    forall k | k in constraints ensures k in visited {
      var j :| 0 <= j < |order| && order[j] == k;
    }
    assert visited == constraints.Keys;
  }

  /** How callers ask whether two exams share a group: a missing second key reads as 0. */
  predicate SameGroup(root: map<int, int>, a: int, b: int) {
    a in root && root[a] == (if b in root then root[b] else 0)
  }

  /** The question is answered correctly for all pairs exactly when no group has the root 0. */
  lemma SameGroupExact(edges: set<(int, int)>, root: map<int, int>)
    requires root.Keys == Vertices(edges)
    requires forall a, b :: a in root && b in root ==> (root[a] == root[b] <==> Connected(edges, a, b))
    requires forall a :: a in root ==> root[a] in root && root[root[a]] == root[a]
    ensures (forall a, b :: a in root ==> (SameGroup(root, a, b) <==> Connected(edges, a, b)))
            <==> !(0 in root && root[0] == 0)
  {
    if 0 in root && root[0] == 0 {
      var b := Outside(root.Keys);
      assert SameGroup(root, 0, b);
      if Connected(edges, 0, b) { EndsAreVertices(edges, 0, b); }
    } else {
      forall a, b | a in root ensures SameGroup(root, a, b) <==> Connected(edges, a, b) {
        if b !in root {
          assert root[a] != 0;
          if Connected(edges, a, b) { EndsAreVertices(edges, a, b); }
        }
      }
    }
  }

  lemma EndsAreVertices(edges: set<(int, int)>, a: int, b: int)
    requires Connected(edges, a, b) && a in Vertices(edges)
    ensures b in Vertices(edges)
  {
    var p :| Joins(edges, p, a, b);
    if |p| > 1 { assert Adjacent(edges, p[|p| - 2], p[|p| - 2 + 1]); }
  }

  lemma Outside(s: set<int>) returns (x: int)
    ensures x !in s
  {
    x := Bound(s) + 1;
  }

  ghost function Bound(s: set<int>): (m: int)
    ensures forall x :: x in s ==> x <= m
  {
    if s == {} then 0
    else
      var x := Pick(s);
      var m := Bound(s - {x});
      assert s == (s - {x}) + {x};
      if x > m then x else m
  }
}
