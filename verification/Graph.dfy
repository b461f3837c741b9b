/** Undirected reachability over a finite edge set: the meaning of every same-slot grouping. */
module Graph {

  ghost predicate Adjacent(edges: set<(int, int)>, a: int, b: int) {
    (a, b) in edges || (b, a) in edges
  }

  ghost predicate Path(edges: set<(int, int)>, p: seq<int>) {
    p != [] && forall i :: 0 <= i < |p| - 1 ==> Adjacent(edges, p[i], p[i + 1])
  }

  ghost predicate Joins(edges: set<(int, int)>, p: seq<int>, a: int, b: int) {
    Path(edges, p) && p[0] == a && p[|p| - 1] == b
  }

  ghost predicate Connected(edges: set<(int, int)>, a: int, b: int) {
    exists p :: Joins(edges, p, a, b)
  }

  /** The endpoints of the edges. */
  ghost function Vertices(edges: set<(int, int)>): set<int> {
    (set e | e in edges :: e.0) + (set e | e in edges :: e.1)
  }

  lemma ConnectedRefl(edges: set<(int, int)>, a: int)
    ensures Connected(edges, a, a)
  {
    assert Joins(edges, [a], a, a);
  }

  lemma ConnectedEdge(edges: set<(int, int)>, a: int, b: int)
    requires Adjacent(edges, a, b)
    ensures Connected(edges, a, b)
  {
    assert Joins(edges, [a, b], a, b);
  }

  lemma ConnectedTrans(edges: set<(int, int)>, a: int, b: int, c: int)
    requires Connected(edges, a, b) && Connected(edges, b, c)
    ensures Connected(edges, a, c)
  {
    var p :| Joins(edges, p, a, b);
    var q :| Joins(edges, q, b, c);
    var r := p + q[1..];
    forall i | 0 <= i < |r| - 1 ensures Adjacent(edges, r[i], r[i + 1]) {
      if i < |p| - 1 {
      } else if i == |p| - 1 {
        assert r[i] == q[0] && r[i + 1] == q[1];
      } else {
        assert r[i] == q[i - |p| + 1] && r[i + 1] == q[i - |p| + 2];
      }
    }
    assert Joins(edges, r, a, c);
  }

  lemma {:induction false} ConnectedSym(edges: set<(int, int)>, a: int, b: int)
    requires Connected(edges, a, b)
    ensures Connected(edges, b, a)
  {
    var p :| Joins(edges, p, a, b);
    ReversedPath(edges, p);
  }

  lemma {:induction false} ReversedPath(edges: set<(int, int)>, p: seq<int>)
    requires Path(edges, p)
    ensures Connected(edges, p[|p| - 1], p[0])
    decreases |p|
  {
    if |p| == 1 {
      ConnectedRefl(edges, p[0]);
    } else {
      assert Adjacent(edges, p[0], p[1]);
      ReversedPath(edges, p[1..]);
      ConnectedEdge(edges, p[1], p[0]);
      ConnectedTrans(edges, p[|p| - 1], p[1], p[0]);
    }
  }

  lemma ConnectedMonotone(edges: set<(int, int)>, more: set<(int, int)>, a: int, b: int)
    requires edges <= more && Connected(edges, a, b)
    ensures Connected(more, a, b)
  {
    var p :| Joins(edges, p, a, b);
    assert forall i :: 0 <= i < |p| - 1 ==> Adjacent(edges, p[i], p[i + 1]);
    assert Joins(more, p, a, b);
  }

  /** A labelling that agrees along every edge agrees along every path. */
  lemma {:induction false} LabelsAgreeAlongPath(edges: set<(int, int)>, rep: map<int, int>, p: seq<int>)
    requires Path(edges, p)
    requires forall e :: e in edges ==> e.0 in rep && e.1 in rep && rep[e.0] == rep[e.1]
    requires p[0] in rep
    ensures p[|p| - 1] in rep && rep[p[0]] == rep[p[|p| - 1]]
    decreases |p|
  {
    if |p| > 1 {
      assert Adjacent(edges, p[0], p[1]);
      LabelsAgreeAlongPath(edges, rep, p[1..]);
    }
  }

  /** A labelling is exact when it agrees along edges and every vertex reaches its label. */
  lemma LabelsExact(edges: set<(int, int)>, rep: map<int, int>, a: int, b: int)
    requires forall e :: e in edges ==> e.0 in rep && e.1 in rep && rep[e.0] == rep[e.1]
    requires forall k :: k in rep ==> Connected(edges, k, rep[k])
    requires a in rep && b in rep
    ensures rep[a] == rep[b] <==> Connected(edges, a, b)
  {
    if Connected(edges, a, b) {
      var p :| Joins(edges, p, a, b);
      LabelsAgreeAlongPath(edges, rep, p);
    }
    if rep[a] == rep[b] {
      ConnectedSym(edges, b, rep[b]);
      ConnectedTrans(edges, a, rep[a], b);
    }
  }
}
