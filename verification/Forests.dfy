/** Parent maps as forests. rep names each vertex's root, rank strictly falls towards it: both
    are ghost witnesses that following parents terminates and where it ends. */
module Forests {
  import opened Graph

  ghost predicate Forest(parent: map<int, int>, rep: map<int, int>, rank: map<int, nat>) {
    && parent.Keys == rep.Keys && parent.Keys == rank.Keys
    && forall k {:trigger Vertex(parent, rep, rank, k)} :: k in parent ==> Vertex(parent, rep, rank, k)
  }

  ghost predicate Vertex(parent: map<int, int>, rep: map<int, int>, rank: map<int, nat>, k: int) {
    && k in parent && k in rep && k in rank
    && var p, r := parent[k], rep[k];
    && p in parent && p in rep && p in rank && r in parent && r in rep && r in rank
    && rep[p] == r && parent[r] == r && rep[r] == r
    && (if p == k then r == k else rank[p] < rank[k] && rank[r] < rank[k])
  }

  /** Hanging a non-root below a higher vertex of its own tree keeps every root. */
  lemma Compress(parent: map<int, int>, rep: map<int, int>, rank: map<int, nat>, x: int, y: int)
    requires Forest(parent, rep, rank) && x in parent && parent[x] != x
    requires y in parent && rep[y] == rep[x] && rank[y] < rank[x]
    ensures Forest(parent[x := y], rep, rank)
  {
    assert Vertex(parent, rep, rank, x) && Vertex(parent, rep, rank, y);
    var parent' := parent[x := y];
    assert parent'.Keys == parent.Keys;
    forall k | k in parent ensures Vertex(parent', rep, rank, k) {
      assert Vertex(parent, rep, rank, k);
    }
  }

  /** The roots after tree r0 is hung below root r1. */
  ghost function Merge(rep: map<int, int>, r0: int, r1: int): map<int, int> {
    map k | k in rep :: if rep[k] == r0 then r1 else rep[k]
  }

  ghost function Lift(rank: map<int, nat>, rep: map<int, int>, r0: int, r1: int): map<int, nat>
    requires rank.Keys == rep.Keys && r1 in rank
  {
    map k | k in rank :: if rep[k] == r0 && r0 != r1 then rank[k] + rank[r1] + 1 else rank[k]
  }

  ghost predicate IsRoot(rep: map<int, int>, r: int) { r in rep && rep[r] == r }

  lemma LinkVertex(parent: map<int, int>, rep: map<int, int>, rank: map<int, nat>, r0: int, r1: int, k: int)
    requires parent.Keys == rep.Keys && parent.Keys == rank.Keys
    requires Vertex(parent, rep, rank, k) && Vertex(parent, rep, rank, r0) && Vertex(parent, rep, rank, r1)
    requires rep[r0] == r0 && rep[r1] == r1
    ensures Vertex(parent[r0 := r1], Merge(rep, r0, r1), Lift(rank, rep, r0, r1), k)
  {
    var p, r := parent[k], rep[k];
    var lifted := Lift(rank, rep, r0, r1);
    assert lifted[k] - lifted[p] == rank[k] - rank[p];
    assert lifted[k] - lifted[r] == rank[k] - rank[r];
    if k == r0 {
    } else if r == r0 {
      assert lifted[r1] < lifted[r0] || r0 == r1;
    }
  }

  lemma Link(parent: map<int, int>, rep: map<int, int>, rank: map<int, nat>, r0: int, r1: int)
    requires Forest(parent, rep, rank) && IsRoot(rep, r0) && IsRoot(rep, r1)
    ensures r1 in rank && Forest(parent[r0 := r1], Merge(rep, r0, r1), Lift(rank, rep, r0, r1))
  {
    var parent', rep', rank' := parent[r0 := r1], Merge(rep, r0, r1), Lift(rank, rep, r0, r1);
    assert Vertex(parent, rep, rank, r0) && Vertex(parent, rep, rank, r1);
    assert parent'.Keys == parent.Keys && rep'.Keys == parent.Keys && rank'.Keys == parent.Keys;
    forall k | k in parent' ensures Vertex(parent', rep', rank', k) {
      assert Vertex(parent, rep, rank, k);
      LinkVertex(parent, rep, rank, r0, r1, k);
    }
  }

  lemma AddSingleton(parent: map<int, int>, rep: map<int, int>, rank: map<int, nat>, a: int)
    requires Forest(parent, rep, rank) && a !in parent
    ensures Forest(parent[a := a], rep[a := a], rank[a := 0])
  {
    var parent', rep', rank' := parent[a := a], rep[a := a], rank[a := 0];
    forall k | k in parent' ensures Vertex(parent', rep', rank', k) {
      assert k != a ==> Vertex(parent, rep, rank, k);
    }
  }

  /** The labelling is exact for the edges: it agrees along each and every vertex reaches its label. */
  ghost predicate Labels(rep: map<int, int>, edges: set<(int, int)>) {
    && (forall e :: e in edges ==> e.0 in rep && e.1 in rep && rep[e.0] == rep[e.1])
    && (forall k :: k in rep ==> Connected(edges, k, rep[k]))
  }

  lemma LabelsSingleton(rep: map<int, int>, edges: set<(int, int)>, a: int)
    requires Labels(rep, edges) && a !in rep
    ensures Labels(rep[a := a], edges)
  {
    ConnectedRefl(edges, a);
  }

  lemma LabelsMerge(rep: map<int, int>, edges: set<(int, int)>, a: int, b: int)
    requires Labels(rep, edges) && a in rep && b in rep
    ensures Labels(Merge(rep, rep[a], rep[b]), edges + {(a, b)})
  {
    var more, merged := edges + {(a, b)}, Merge(rep, rep[a], rep[b]);
    assert Adjacent(more, a, b);
    forall k | k in merged ensures Connected(more, k, merged[k]) {
      ConnectedMonotone(edges, more, k, rep[k]);
      if rep[k] == rep[a] {
        ConnectedMonotone(edges, more, a, rep[a]);
        ConnectedSym(more, a, rep[a]);
        ConnectedTrans(more, k, rep[k], a);
        ConnectedEdge(more, a, b);
        ConnectedTrans(more, k, a, b);
        ConnectedMonotone(edges, more, b, rep[b]);
        ConnectedTrans(more, k, b, rep[b]);
      }
    }
  }
}
