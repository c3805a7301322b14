/** Directed graphs as adjacency lists, and what it means for one vertex to
    reach another (src/graph.rs). */
module Graphs {
  const USIZE_MAX: nat := 0xFFFF_FFFF_FFFF_FFFF

  type Adjacency = seq<seq<nat>>

  /** Every edge ends at a vertex of the graph. */
  ghost predicate Closed(adj: Adjacency)
  {
    forall u, j :: 0 <= u < |adj| && 0 <= j < |adj[u]| ==> adj[u][j] < |adj|
  }

  ghost predicate Edge(adj: Adjacency, u: nat, v: nat)
  {
    u < |adj| && v < |adj| && v in adj[u]
  }

  ghost predicate IsPath(adj: Adjacency, p: seq<nat>)
  {
    && |p| > 0
    && p[0] < |adj|
    && forall i :: 0 < i < |p| ==> Edge(adj, p[i - 1], p[i])
  }

  ghost predicate PathFromTo(adj: Adjacency, p: seq<nat>, u: nat, v: nat)
  {
    IsPath(adj, p) && p[0] == u && p[|p| - 1] == v
  }

  /** `v` can be reached from `u` along zero or more edges. */
  ghost predicate Reaches(adj: Adjacency, u: nat, v: nat)
  {
    exists p :: PathFromTo(adj, p, u, v)
  }

  lemma ReachesSelf(adj: Adjacency, v: nat)
    requires v < |adj|
    ensures Reaches(adj, v, v)
  {
    assert PathFromTo(adj, [v], v, v);
  }

  lemma ReachesEdge(adj: Adjacency, u: nat, v: nat)
    requires Edge(adj, u, v)
    ensures Reaches(adj, u, v)
  {
    assert PathFromTo(adj, [u, v], u, v);
  }

  lemma ReachesTrans(adj: Adjacency, u: nat, v: nat, w: nat)
    requires Reaches(adj, u, v) && Reaches(adj, v, w)
    ensures Reaches(adj, u, w)
  {
    var p :| PathFromTo(adj, p, u, v);
    var q :| PathFromTo(adj, q, v, w);
    var r := p + q[1..];
    forall i | 0 < i < |r|
      ensures Edge(adj, r[i - 1], r[i])
    {
      if i < |p| {
        assert Edge(adj, p[i - 1], p[i]);
      } else {
        var j := i - |p| + 1;
        assert Edge(adj, q[j - 1], q[j]);
        assert r[i] == q[j] && r[i - 1] == q[j - 1];
      }
    }
    assert PathFromTo(adj, r, u, w);
  }

  /** A set of vertices closed under edges cannot be left. */
  lemma ReachesStays(adj: Adjacency, inside: set<nat>, u: nat, v: nat)
    requires u in inside && Reaches(adj, u, v)
    requires forall x, y :: x in inside && Edge(adj, x, y) ==> y in inside
    ensures v in inside
  {
    var p :| PathFromTo(adj, p, u, v);
    PathStays(adj, inside, p, |p| - 1);
  }

  lemma {:induction false} PathStays(adj: Adjacency, inside: set<nat>, p: seq<nat>, k: nat)
    requires IsPath(adj, p) && p[0] in inside && k < |p|
    requires forall x, y :: x in inside && Edge(adj, x, y) ==> y in inside
    ensures p[k] in inside
  {
    if k > 0 {
      PathStays(adj, inside, p, k - 1);
      assert Edge(adj, p[k - 1], p[k]);
    }
  }
}
