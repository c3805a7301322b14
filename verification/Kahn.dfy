/** Counting in-degrees, and why Kahn's algorithm finds a topological order
    exactly when there is no cycle (src/graph.rs, lines 52-92). */
module Kahn {
  import opened Graphs

  /** Edges into `to` from the vertices below `n` outside `out`, with multiplicity. */
  ghost function InDegree(adj: Adjacency, out: set<nat>, n: nat, to: nat): nat
    requires n <= |adj|
  {
    if n == 0 then 0
    else InDegree(adj, out, n - 1, to) + if n - 1 in out then 0 else multiset(adj[n - 1])[to]
  }

  lemma {:induction false} InDegreeZero(adj: Adjacency, out: set<nat>, n: nat, to: nat)
    requires n <= |adj| && to < |adj|
    ensures InDegree(adj, out, n, to) == 0 <==> forall u :: 0 <= u < n && Edge(adj, u, to) ==> u in out
  {
    if n > 0 {
      InDegreeZero(adj, out, n - 1, to);
      assert multiset(adj[n - 1])[to] == 0 <==> !Edge(adj, n - 1, to);
    }
  }

  lemma {:induction false} InDegreeProcess(adj: Adjacency, out: set<nat>, n: nat, v: nat, to: nat)
    requires n <= |adj| && v !in out && v < |adj|
    ensures InDegree(adj, out, n, to) == InDegree(adj, out + {v}, n, to) + if v < n then multiset(adj[v])[to] else 0
  {
    if n > 0 {
      InDegreeProcess(adj, out, n - 1, v, to);
    }
  }

  ghost predicate HasCycle(adj: Adjacency)
  {
    exists u, v :: Edge(adj, u, v) && Reaches(adj, v, u)
  }

  ghost predicate Distinct(s: seq<nat>)
  {
    forall i, j :: 0 <= i < j < |s| ==> s[i] != s[j]
  }

  /** All vertices once each, every edge leading forward. */
  ghost predicate TopologicalOrder(adj: Adjacency, order: seq<nat>)
  {
    && |order| == |adj| && Distinct(order)
    && (forall v :: 0 <= v < |adj| ==> v in order)
    && forall i, j :: 0 <= i < |order| && 0 <= j < |order| && Edge(adj, order[i], order[j]) ==> i < j
  }

  lemma {:induction false} PathAscends(adj: Adjacency, order: seq<nat>, p: seq<nat>, k: nat, i: nat, j: nat)
    requires TopologicalOrder(adj, order) && IsPath(adj, p) && k < |p|
    requires i < |order| && j < |order| && order[i] == p[0] && order[j] == p[k]
    ensures i <= j
  {
    if k > 0 {
      assert Edge(adj, p[k - 1], p[k]);
      assert p[k - 1] in order;
      var h :| 0 <= h < |order| && order[h] == p[k - 1];
      PathAscends(adj, order, p, k - 1, i, h);
    }
  }

  lemma OrderedHasNoCycle(adj: Adjacency, order: seq<nat>)
    requires TopologicalOrder(adj, order)
    ensures !HasCycle(adj)
  {
    forall u, v | Edge(adj, u, v) && Reaches(adj, v, u)
      ensures false
    {
      var p :| PathFromTo(adj, p, v, u);
      assert v in order && u in order;
      var i :| 0 <= i < |order| && order[i] == v;
      var j :| 0 <= j < |order| && order[j] == u;
      PathAscends(adj, order, p, |p| - 1, i, j);
    }
  }

  ghost predicate HasPredecessor(adj: Adjacency, stuck: set<nat>, x: nat)
  {
    exists u :: u in stuck && Edge(adj, u, x)
  }

  ghost function Ancestors(adj: Adjacency, stuck: set<nat>, v: nat): set<nat>
  {
    set x | x in stuck && Reaches(adj, x, v)
  }

  /** If each vertex of a set has a predecessor in the set, there is a cycle. */
  lemma {:induction false} StuckHasCycle(adj: Adjacency, stuck: set<nat>, v: nat)
    requires v in stuck && v < |adj|
    requires forall x {:trigger HasPredecessor(adj, stuck, x)} :: x in stuck ==> HasPredecessor(adj, stuck, x)
    ensures HasCycle(adj)
    decreases |Ancestors(adj, stuck, v)|
  {
    assert HasPredecessor(adj, stuck, v);
    var u :| u in stuck && Edge(adj, u, v);
    if !Reaches(adj, v, u) {
      var a, b := Ancestors(adj, stuck, u), Ancestors(adj, stuck, v);
      ReachesEdge(adj, u, v);
      forall x | x in a ensures x in b { ReachesTrans(adj, x, u, v); }
      ReachesSelf(adj, v);
      assert v in b - a && a <= b - {v};
      SmallerSet(a, b - {v});
      StuckHasCycle(adj, stuck, u);
    }
  }

  lemma SmallerSet(a: set<nat>, b: set<nat>)
    requires a <= b
    ensures |a| <= |b|
  {
    assert b == a + (b - a);
  }

  ghost function Below(n: nat): (r: set<nat>)
    ensures |r| == n && forall v :: v in r <==> 0 <= v < n
  {
    if n == 0 then {} else Below(n - 1) + {n - 1}
  }

  ghost function Elements(s: seq<nat>): set<nat>
  {
    set x | x in s
  }

  lemma {:induction false} DistinctSize(s: seq<nat>)
    requires Distinct(s)
    ensures |Elements(s)| == |s|
  {
    if s != [] {
      var t, x := s[..|s| - 1], s[|s| - 1];
      DistinctSize(t);
      assert s == t + [x];
      assert Elements(s) == Elements(t) + {x};
      assert x !in t;
    }
  }

  /** Distinct vertices, as many as there are, are all of them. */
  lemma DistinctBelow(s: seq<nat>, n: nat)
    requires Distinct(s) && forall i :: 0 <= i < |s| ==> s[i] < n
    ensures |s| <= n && (|s| == n ==> forall v :: 0 <= v < n ==> v in s)
  {
    var a := Elements(s);
    DistinctSize(s);
    SmallerSet(a, Below(n));
    if |s| == n {
      assert Below(n) == a + (Below(n) - a);
      forall v | 0 <= v < n ensures v in s { assert v in Below(n) && v !in Below(n) - a; }
    }
  }

  /** The loop state: the queue holds exactly the vertices whose count is zero, its
      first `head` entries have been processed, and every predecessor of a queued
      vertex was processed earlier. */
  ghost predicate QueueOk(adj: Adjacency, indeg: seq<nat>, queue: seq<nat>, head: nat)
  {
    && |indeg| == |adj| && head <= |queue| && Distinct(queue)
    && (forall i :: 0 <= i < |queue| ==> queue[i] < |adj|)
    && (forall x :: 0 <= x < |adj| ==> (x in queue <==> indeg[x] == 0))
    && (forall q :: 0 <= q < |queue| ==> Preceded(adj, queue[q], queue[..head]) && Preceded(adj, queue[q], queue[..q]))
  }

  ghost predicate Preceded(adj: Adjacency, v: nat, before: seq<nat>)
  {
    forall u :: Edge(adj, u, v) ==> u in before
  }

  /** `indeg` counts the edges from unprocessed vertices and those in `rest`. */
  ghost predicate Counts(adj: Adjacency, indeg: seq<nat>, done: seq<nat>, rest: seq<nat>)
  {
    |indeg| == |adj| && forall t :: 0 <= t < |adj| ==>
      indeg[t] == InDegree(adj, Elements(done), |adj|, t) + multiset(rest)[t]
  }

  lemma QueueFacts(adj: Adjacency, indeg: seq<nat>, queue: seq<nat>, head: nat)
    requires QueueOk(adj, indeg, queue, head)
    ensures |indeg| == |adj| && |queue| <= |adj|
    ensures forall i :: 0 <= i < |queue| ==> queue[i] < |adj|
  {
    DistinctBelow(queue, |adj|);
  }

  lemma StartQueue(adj: Adjacency, indeg: seq<nat>, queue: seq<nat>)
    requires |indeg| == |adj| && Distinct(queue)
    requires forall x :: x in queue <==> 0 <= x < |adj| && indeg[x] == 0
    requires forall t :: 0 <= t < |adj| ==> indeg[t] == InDegree(adj, {}, |adj|, t)
    ensures QueueOk(adj, indeg, queue, 0) && Counts(adj, indeg, queue[..0], [])
  {
    assert Elements(queue[..0]) == {};
    forall i | 0 <= i < |queue| ensures queue[i] < |adj| { assert queue[i] in queue; }
    forall q | 0 <= q < |queue|
      ensures Preceded(adj, queue[q], queue[..0]) && Preceded(adj, queue[q], queue[..q])
    {
      assert queue[q] in queue;
      InDegreeZero(adj, {}, |adj|, queue[q]);
    }
  }

  /** Taking the next vertex off the queue leaves its out-edges to be subtracted. */
  lemma TakeNext(adj: Adjacency, indeg: seq<nat>, queue: seq<nat>, head: nat)
    requires QueueOk(adj, indeg, queue, head) && Counts(adj, indeg, queue[..head], []) && head < |queue|
    ensures QueueOk(adj, indeg, queue, head + 1) && Counts(adj, indeg, queue[..head + 1], adj[queue[head]])
  {
    var v := queue[head];
    assert queue[..head + 1] == queue[..head] + [v];
    assert Elements(queue[..head + 1]) == Elements(queue[..head]) + {v};
    assert v !in queue[..head];
    forall t | 0 <= t < |adj|
      ensures indeg[t] == InDegree(adj, Elements(queue[..head + 1]), |adj|, t) + multiset(adj[v])[t]
    {
      InDegreeProcess(adj, Elements(queue[..head]), |adj|, v, t);
    }
  }

  /** Subtracting one edge from the counts. */
  lemma SubtractCount(adj: Adjacency, indeg: seq<nat>, done: seq<nat>, rest: seq<nat>)
    requires Counts(adj, indeg, done, rest) && rest != [] && rest[0] < |adj|
    ensures indeg[rest[0]] > 0
    ensures Counts(adj, indeg[rest[0] := indeg[rest[0]] - 1], done, rest[1..])
    ensures indeg[rest[0]] == 1 ==> InDegree(adj, Elements(done), |adj|, rest[0]) == 0
  {
    assert rest == [rest[0]] + rest[1..];
  }

  lemma KeepQueue(adj: Adjacency, indeg: seq<nat>, queue: seq<nat>, head: nat, to: nat)
    requires QueueOk(adj, indeg, queue, head) && to < |adj| && indeg[to] > 1
    ensures QueueOk(adj, indeg[to := indeg[to] - 1], queue, head)
  {
  }

  lemma GrowQueue(adj: Adjacency, indeg: seq<nat>, queue: seq<nat>, head: nat, to: nat)
    requires QueueOk(adj, indeg, queue, head) && to < |adj| && indeg[to] == 1
    requires InDegree(adj, Elements(queue[..head]), |adj|, to) == 0
    ensures QueueOk(adj, indeg[to := 0], queue + [to], head)
  {
    var queue' := queue + [to];
    assert queue'[..head] == queue[..head];
    InDegreeZero(adj, Elements(queue[..head]), |adj|, to);
    hide InDegree, Edge;
    assert Preceded(adj, to, queue[..head]);
    forall q | 0 <= q < |queue'|
      ensures Preceded(adj, queue'[q], queue'[..head]) && Preceded(adj, queue'[q], queue'[..q])
    {
      assert q < |queue| ==> queue'[..q] == queue[..q];
      assert q == |queue| ==> queue'[..q] == queue;
    }
  }

  /** Subtracting one edge, and queueing its target when its count reaches zero. */
  lemma SubtractEdge(adj: Adjacency, indeg: seq<nat>, queue: seq<nat>, head: nat, rest: seq<nat>)
    requires QueueOk(adj, indeg, queue, head) && Counts(adj, indeg, queue[..head], rest)
    requires rest != [] && rest[0] < |adj|
    ensures indeg[rest[0]] > 0
    ensures var indeg' := indeg[rest[0] := indeg[rest[0]] - 1];
            var queue' := if indeg[rest[0]] == 1 then queue + [rest[0]] else queue;
            QueueOk(adj, indeg', queue', head) && Counts(adj, indeg', queue'[..head], rest[1..])
  {
    SubtractCount(adj, indeg, queue[..head], rest);
    hide QueueOk, Counts;
    if indeg[rest[0]] == 1 {
      GrowQueue(adj, indeg, queue, head, rest[0]);
      assert (queue + [rest[0]])[..head] == queue[..head];
    } else {
      KeepQueue(adj, indeg, queue, head, rest[0]);
    }
  }

  /** The queue has run dry: what it holds decides the result. */
  lemma QueueDry(adj: Adjacency, indeg: seq<nat>, queue: seq<nat>)
    requires QueueOk(adj, indeg, queue, |queue|) && Counts(adj, indeg, queue, [])
    ensures |queue| == |adj| ==> TopologicalOrder(adj, queue)
    ensures |queue| != |adj| ==> HasCycle(adj)
  {
    DistinctBelow(queue, |adj|);
    if |queue| == |adj| {
      forall i, j | 0 <= i < |queue| && 0 <= j < |queue| && Edge(adj, queue[i], queue[j])
        ensures i < j
      {
        assert Preceded(adj, queue[j], queue[..j]);
        var h :| 0 <= h < |queue[..j]| && queue[..j][h] == queue[i];
      }
    } else {
      var stuck := set v | v in Below(|adj|) && v !in queue;
      forall x | x in stuck
        ensures HasPredecessor(adj, stuck, x)
      {
        InDegreeZero(adj, Elements(queue), |adj|, x);
      }
      if stuck == {} {
        SmallerSet(Below(|adj|), Elements(queue));
        DistinctSize(queue);
      } else {
        var v :| v in stuck;
        StuckHasCycle(adj, stuck, v);
      }
    }
  }
}
