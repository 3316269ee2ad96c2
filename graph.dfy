/**
 * The user–food relation graph (main.py:267-290): an adjacency list per
 * vertex.  An edge is appended to both endpoints' lists, with no
 * de-duplication, so a repeated order adds a repeated neighbour.
 */
module Relations {

  /** Both endpoints gain the other as a neighbour (a self-loop gains itself twice). */
  function Link<V>(adj: map<V, seq<V>>, v1: V, v2: V): map<V, seq<V>>
    requires v1 in adj && v2 in adj
  {
    var once := adj[v1 := adj[v1] + [v2]];
    once[v2 := once[v2] + [v1]]
  }

  /** Every neighbour is itself a vertex. */
  ghost predicate Closed<V>(adj: map<V, seq<V>>)
  {
    forall v, w :: v in adj && w in adj[v] ==> w in adj
  }

  /** `w` is a neighbour of `v` as often as `v` is a neighbour of `w`. */
  ghost predicate Symmetric<V>(adj: map<V, seq<V>>)
  {
    forall v, w :: v in adj && w in adj ==> multiset(adj[v])[w] == multiset(adj[w])[v]
  }

  /** Linking adds exactly one edge: each endpoint gains the other, nothing else changes. */
  lemma LinkAddsOneEdge<V>(adj: map<V, seq<V>>, v1: V, v2: V)
    requires v1 in adj && v2 in adj
    ensures Link(adj, v1, v2).Keys == adj.Keys
    ensures v1 != v2 ==> Link(adj, v1, v2)[v1] == adj[v1] + [v2] && Link(adj, v1, v2)[v2] == adj[v2] + [v1]
    ensures v1 == v2 ==> Link(adj, v1, v2)[v1] == adj[v1] + [v1, v1]
    ensures forall v :: v in adj && v != v1 && v != v2 ==> Link(adj, v1, v2)[v] == adj[v]
  {
    if v1 == v2 {
      assert adj[v1] + [v2] + [v1] == adj[v1] + [v1, v1];
    }
  }

  /** Linking two vertices keeps every neighbour a vertex. */
  lemma LinkKeepsClosed<V>(adj: map<V, seq<V>>, v1: V, v2: V)
    requires v1 in adj && v2 in adj && Closed(adj)
    ensures Closed(Link(adj, v1, v2))
  {
    var adj' := Link(adj, v1, v2);
    LinkAddsOneEdge(adj, v1, v2);
    forall v, w | v in adj' && w in adj'[v]
      ensures w in adj'
    {
      if v != v1 && v != v2 {
        assert w in adj[v];
      } else if v1 == v2 {
        assert w in adj[v1] + [v1, v1];
      } else if v == v1 {
        assert w in adj[v1] + [v2];
      } else {
        assert w in adj[v2] + [v1];
      }
    }
  }

  /** After linking, v lists w once more for each endpoint pairing (v, w) of the new edge. */
  lemma LinkCount<V>(adj: map<V, seq<V>>, v1: V, v2: V, v: V, w: V)
    requires v1 in adj && v2 in adj && v in adj
    ensures multiset(Link(adj, v1, v2)[v])[w]
         == multiset(adj[v])[w] + (if v == v1 && w == v2 then 1 else 0) + (if v == v2 && w == v1 then 1 else 0)
  {
    LinkAddsOneEdge(adj, v1, v2);
    if v == v1 && v1 == v2 {
      assert multiset(adj[v1] + [v1, v1]) == multiset(adj[v1]) + multiset{v1, v1};
    } else if v == v1 {
      assert multiset(adj[v1] + [v2]) == multiset(adj[v1]) + multiset{v2};
    } else if v == v2 {
      assert multiset(adj[v2] + [v1]) == multiset(adj[v2]) + multiset{v1};
    }
  }

  /** Linking keeps neighbour counts symmetric. */
  lemma LinkKeepsSymmetric<V>(adj: map<V, seq<V>>, v1: V, v2: V)
    requires v1 in adj && v2 in adj && Symmetric(adj)
    ensures Symmetric(Link(adj, v1, v2))
  {
    var adj' := Link(adj, v1, v2);
    assert adj'.Keys == adj.Keys;
    forall v, w | v in adj' && w in adj'
      ensures multiset(adj'[v])[w] == multiset(adj'[w])[v]
    {
      LinkCount(adj, v1, v2, v, w);
      LinkCount(adj, v1, v2, w, v);
      assert multiset(adj[v])[w] == multiset(adj[w])[v];
    }
  }

  class Graph<V(==)> {
    var adjList: map<V, seq<V>>

    constructor ()
      ensures adjList == map[]
    {
      adjList := map[];
    }

    /** `add_vertex`: a new vertex starts without neighbours; a known one is left alone. */
    method AddVertex(v: V) returns (added: bool)
      modifies this
      ensures added <==> v !in old(adjList)
      ensures adjList == if added then old(adjList)[v := []] else old(adjList)
    {
      if v !in adjList {
        adjList := adjList[v := []];
        return true;
      }
      return false;
    }

    /** `add_edge`: only between two known vertices. */
    method AddEdge(v1: V, v2: V) returns (added: bool)
      modifies this
      ensures added <==> v1 in old(adjList) && v2 in old(adjList)
      ensures adjList == if added then Link(old(adjList), v1, v2) else old(adjList)
    {
      if v1 in adjList && v2 in adjList {
        adjList := adjList[v1 := adjList[v1] + [v2]];
        adjList := adjList[v2 := adjList[v2] + [v1]];
        return true;
      }
      return false;
    }
  }

  /** A fresh vertex has no neighbours and so keeps closure and symmetry. */
  lemma NewVertexKeepsShape<V>(adj: map<V, seq<V>>, v: V)
    requires v !in adj
    ensures Closed(adj) ==> Closed(adj[v := []])
    ensures Symmetric(adj) && Closed(adj) ==> Symmetric(adj[v := []])
  {
    var adj' := adj[v := []];
    if Symmetric(adj) && Closed(adj) {
      forall a, b | a in adj' && b in adj'
        ensures multiset(adj'[a])[b] == multiset(adj'[b])[a]
      {
        if a == v && b != v {
          assert a !in adj[b];
        } else if b == v && a != v {
          assert b !in adj[a];
        }
      }
    }
  }
}
