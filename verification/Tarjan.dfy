/** The invariant of iterative Tarjan (src/graph.rs, lines 116-172) and the proof
    that every step of its loop keeps it.

    `Core` is the part of the state that only changes when a vertex is entered or
    finished: the `index` array, the Tarjan `stack`, the emitted components, and
    three things the code does not store: `unseen` (the vertices without an
    index), `owner` (the number of a vertex's component, or -1) and `path` (the
    entered vertices on the work stack). Beside it, `done[v]` counts the out-edges
    of `v` already looked at, and `next` is a vertex pushed on the work stack but
    not entered yet, or -1. */
module Tarjan {
  import opened Graphs

  datatype Core = Core(
    index: seq<nat>,
    owner: seq<int>,
    unseen: set<nat>,
    path: seq<nat>,
    stack: seq<nat>,
    comps: seq<seq<nat>>)

  function Min(a: nat, b: nat): nat { if a <= b then a else b }

  // ----- the invariant, one concern at a time --------------------------------

  ghost predicate CoreOk(adj: Adjacency, c: Core)
  {
    && |adj| < USIZE_MAX
    && |c.index| == |c.owner| == |adj|
    && |c.unseen| <= |adj|
    && (forall v :: v in c.unseen ==> v < |adj|)
    && (forall v :: 0 <= v < |adj| ==> (v in c.unseen <==> c.index[v] == USIZE_MAX))
    && (forall v :: 0 <= v < |adj| && v !in c.unseen ==> c.index[v] < |adj| - |c.unseen|)
    && (forall v :: 0 <= v < |adj| ==> -1 <= c.owner[v] < |c.comps|)
    && (forall v :: 0 <= v < |adj| && v in c.unseen ==> c.owner[v] == -1)
  }

  /** `v` has an index but no component yet. */
  ghost predicate Open(c: Core, v: nat)
    requires v < |c.owner|
  {
    v !in c.unseen && c.owner[v] == -1
  }

  /** The Tarjan stack holds the open vertices in the order they were indexed. */
  ghost predicate StackOk(adj: Adjacency, c: Core)
    requires CoreOk(adj, c)
  {
    && (forall i :: 0 <= i < |c.stack| ==> c.stack[i] < |adj| && Open(c, c.stack[i]))
    && (forall i, j :: 0 <= i < j < |c.stack| ==> c.index[c.stack[i]] < c.index[c.stack[j]])
    && (forall v :: 0 <= v < |adj| && Open(c, v) ==> v in c.stack)
  }

  /** The vertices being explored form a path of open vertices. */
  ghost predicate PathOk(adj: Adjacency, c: Core)
    requires CoreOk(adj, c)
  {
    && (forall i :: 0 <= i < |c.path| ==> c.path[i] < |adj| && Open(c, c.path[i]))
    && (forall i, j :: 0 <= i < j < |c.path| ==> c.index[c.path[i]] < c.index[c.path[j]])
  }

  /** A vertex pushed but not entered has no index, and the end of the path has
      an edge to it. */
  ghost predicate NextOk(adj: Adjacency, c: Core, next: int)
  {
    next == -1 || (0 <= next < |adj| && next in c.unseen && (|c.path| > 0 ==> Edge(adj, Last(c.path), next)))
  }

  function Last<T>(s: seq<T>): T
    requires |s| > 0
  {
    s[|s| - 1]
  }

  /** The target of every edge already looked at is indexed or about to be, and
      an indexed vertex that is no longer explored has all its edges looked at. */
  ghost predicate DoneOk(adj: Adjacency, c: Core, done: seq<nat>, next: int)
    requires CoreOk(adj, c) && Closed(adj)
  {
    && |done| == |adj|
    && (forall v :: 0 <= v < |adj| ==> done[v] <= |adj[v]|)
    && (forall v, j :: 0 <= v < |adj| && v !in c.unseen && 0 <= j < done[v] ==>
      adj[v][j] !in c.unseen || adj[v][j] == next)
    && (forall v :: 0 <= v < |adj| && v !in c.unseen && v !in c.path ==> done[v] == |adj[v]|)
  }

  /** The `i`-th explored vertex is responsible for the open vertices indexed
      from its own index up to that of the next explored vertex. */
  ghost predicate InSegment(c: Core, i: nat, x: nat)
    requires i < |c.path| && x < |c.index| == |c.owner| && forall k :: 0 <= k < |c.path| ==> c.path[k] < |c.index|
  {
    && Open(c, x)
    && c.index[c.path[i]] <= c.index[x]
    && (i + 1 < |c.path| ==> c.index[x] < c.index[c.path[i + 1]])
  }

  /** `low` of an explored vertex is the index of an open vertex it reaches. */
  ghost predicate LowWitness(adj: Adjacency, c: Core, low: seq<nat>, v: nat)
    requires CoreOk(adj, c) && v < |adj| == |low|
  {
    low[v] <= c.index[v] && exists y :: 0 <= y < |adj| && Open(c, y) && c.index[y] == low[v] && Reaches(adj, v, y)
  }

  /** `low` of the `i`-th explored vertex is at most the index of the open end of
      the `j`-th edge of `x`. */
  ghost predicate LowBound(adj: Adjacency, c: Core, low: seq<nat>, i: nat, x: nat, j: nat)
    requires CoreOk(adj, c) && PathOk(adj, c) && Closed(adj)
    requires i < |c.path| && x < |adj| == |low| && j < |adj[x]|
  {
    Open(c, adj[x][j]) ==> low[c.path[i]] <= c.index[adj[x][j]]
  }

  ghost predicate LowOk(adj: Adjacency, c: Core, done: seq<nat>, low: seq<nat>)
    requires CoreOk(adj, c) && PathOk(adj, c) && Closed(adj)
  {
    && |low| == |done| == |adj|
    && (forall i :: 0 <= i < |c.path| ==> LowWitness(adj, c, low, c.path[i]))
    && (forall i, x, j ::
      0 <= i < |c.path| && 0 <= x < |adj| && InSegment(c, i, x) && 0 <= j < done[x] && j < |adj[x]| ==>
          LowBound(adj, c, low, i, x, j))
  }

  /** `x` reaches the `i`-th explored vertex, which was indexed no later. */
  ghost predicate AnchoredAt(adj: Adjacency, c: Core, x: nat, i: nat)
    requires CoreOk(adj, c) && PathOk(adj, c) && x < |adj| && i < |c.path|
  {
    c.index[c.path[i]] <= c.index[x] && Reaches(adj, x, c.path[i])
  }

  ghost predicate Anchored(adj: Adjacency, c: Core, x: nat)
    requires CoreOk(adj, c) && PathOk(adj, c) && x < |adj|
  {
    exists i :: 0 <= i < |c.path| && AnchoredAt(adj, c, x, i)
  }

  /** An explored vertex reaches every open vertex indexed after it, and every
      open vertex reaches some explored one. */
  ghost predicate ReachOk(adj: Adjacency, c: Core)
    requires CoreOk(adj, c) && PathOk(adj, c)
  {
    && (forall i, x {:trigger Reaches(adj, c.path[i], x)} ::
          (0 <= i < |c.path| && 0 <= x < |adj| && Open(c, x) && c.index[c.path[i]] <= c.index[x]) ==>
          Reaches(adj, c.path[i], x))
    && (forall x {:trigger Anchored(adj, c, x)} :: 0 <= x < |adj| && Open(c, x) ==> Anchored(adj, c, x))
  }

  /** Strictly ascending. */
  ghost predicate SortedSet(s: seq<nat>)
  {
    forall i, j :: 0 <= i < j < |s| ==> s[i] < s[j]
  }

  /** The emitted components list exactly the vertices that own them. */
  ghost predicate CompsList(n: nat, comps: seq<seq<nat>>, owner: seq<int>)
    requires |owner| == n
  {
    && (forall k :: 0 <= k < |comps| ==> |comps[k]| > 0 && SortedSet(comps[k]))
    && (forall k, i :: 0 <= k < |comps| && 0 <= i < |comps[k]| ==> comps[k][i] < n && owner[comps[k][i]] == k)
    && (forall v :: 0 <= v < n && 0 <= owner[v] < |comps| ==> v in comps[owner[v]])
  }

  /** They are strongly connected, and edges out of them lead to themselves or to
      components emitted earlier. */
  ghost predicate CompsStrong(adj: Adjacency, owner: seq<int>)
    requires |owner| == |adj| && Closed(adj)
  {
    && (forall v, j :: 0 <= v < |adj| && owner[v] >= 0 && 0 <= j < |adj[v]| ==> 0 <= owner[adj[v][j]] <= owner[v])
    && (forall u, v :: 0 <= u < |adj| && 0 <= v < |adj| && owner[u] >= 0 && owner[u] == owner[v] ==> Reaches(adj, u, v))
  }

  ghost predicate CoreInv(adj: Adjacency, c: Core)
  {
    && Closed(adj)
    && CoreOk(adj, c)
    && StackOk(adj, c)
    && PathOk(adj, c)
    && ReachOk(adj, c)
    && CompsList(|adj|, c.comps, c.owner)
    && CompsStrong(adj, c.owner)
  }

  ghost predicate Inv(adj: Adjacency, c: Core, done: seq<nat>, low: seq<nat>, next: int)
  {
    && CoreInv(adj, c)
    && NextOk(adj, c, next)
    && DoneOk(adj, c, done, next)
    && LowOk(adj, c, done, low)
  }

  // ----- entering a vertex (lines 134-140) -----------------------------------

  ghost function Enter(adj: Adjacency, c: Core, v: nat): Core
    requires CoreOk(adj, c) && v in c.unseen
  {
    c.(index := c.index[v := |adj| - |c.unseen|], stack := c.stack + [v], unseen := c.unseen - {v},
      path := c.path + [v])
  }

  lemma EnterCore(adj: Adjacency, c: Core, v: nat)
    requires CoreOk(adj, c) && v in c.unseen
    ensures CoreOk(adj, Enter(adj, c, v))
    ensures |adj| - |Enter(adj, c, v).unseen| == |adj| - |c.unseen| + 1
  {
    assert |c.unseen - {v}| == |c.unseen| - 1;
  }

  lemma EnterStack(adj: Adjacency, c: Core, v: nat)
    requires CoreOk(adj, c) && StackOk(adj, c) && v in c.unseen && CoreOk(adj, Enter(adj, c, v))
    ensures StackOk(adj, Enter(adj, c, v))
  {
    var d := Enter(adj, c, v);
    assert d.stack[|c.stack|] == v;
    forall x | 0 <= x < |adj| && Open(d, x)
      ensures x in d.stack
    {
      assert x != v ==> Open(c, x);
    }
  }

  lemma EnterReachDown(adj: Adjacency, c: Core, v: nat, i: nat, x: nat)
    requires CoreOk(adj, c) && PathOk(adj, c) && ReachOk(adj, c) && NextOk(adj, c, v) && v in c.unseen
    requires i <= |c.path| && x < |adj| && Open(Enter(adj, c, v), x)
    requires i == |c.path| ==> x == v
    requires i < |c.path| && x != v ==> c.index[c.path[i]] <= c.index[x]
    ensures Reaches(adj, Enter(adj, c, v).path[i], x)
  {
    hide Reaches;
    if x == v && i < |c.path| {
      assert Reaches(adj, c.path[i], Last(c.path));
      ReachesEdge(adj, Last(c.path), v);
      ReachesTrans(adj, c.path[i], Last(c.path), v);
    } else if x == v {
      ReachesSelf(adj, v);
    } else {
      assert Open(c, x);
    }
  }

  lemma EnterAnchored(adj: Adjacency, c: Core, v: nat, x: nat)
    requires CoreOk(adj, c) && PathOk(adj, c) && ReachOk(adj, c) && v in c.unseen
    requires CoreOk(adj, Enter(adj, c, v)) && PathOk(adj, Enter(adj, c, v)) && x < |adj| && Open(Enter(adj, c, v), x)
    ensures Anchored(adj, Enter(adj, c, v), x)
  {
    hide Reaches;
    var d := Enter(adj, c, v);
    if x == v {
      ReachesSelf(adj, x);
      assert AnchoredAt(adj, d, x, |c.path|);
    } else {
      assert Open(c, x) && Anchored(adj, c, x);
      var i :| 0 <= i < |c.path| && AnchoredAt(adj, c, x, i);
      assert AnchoredAt(adj, d, x, i);
    }
  }

  lemma EnterReach(adj: Adjacency, c: Core, v: nat)
    requires CoreOk(adj, c) && PathOk(adj, c) && ReachOk(adj, c) && NextOk(adj, c, v) && v in c.unseen
    requires CoreOk(adj, Enter(adj, c, v)) && PathOk(adj, Enter(adj, c, v))
    ensures ReachOk(adj, Enter(adj, c, v))
  {
    hide Reaches, Anchored;
    var d := Enter(adj, c, v);
    forall i, x | 0 <= i < |d.path| && 0 <= x < |adj| && Open(d, x) && d.index[d.path[i]] <= d.index[x]
      ensures Reaches(adj, d.path[i], x)
    {
      EnterReachDown(adj, c, v, i, x);
    }
    forall x | 0 <= x < |adj| && Open(d, x)
      ensures Anchored(adj, d, x)
    {
      EnterAnchored(adj, c, v, x);
    }
  }

  lemma EnterDone(adj: Adjacency, c: Core, done: seq<nat>, v: nat)
    requires Closed(adj) && CoreOk(adj, c) && DoneOk(adj, c, done, v) && v in c.unseen
    requires CoreOk(adj, Enter(adj, c, v))
    ensures DoneOk(adj, Enter(adj, c, v), done[v := 0], -1)
  {
    var d := Enter(adj, c, v);
    assert d.path[|c.path|] == v;
  }

  lemma EnterLow(adj: Adjacency, c: Core, done: seq<nat>, low: seq<nat>, v: nat)
    requires Closed(adj) && CoreOk(adj, c) && PathOk(adj, c) && LowOk(adj, c, done, low) && v in c.unseen
    requires CoreOk(adj, Enter(adj, c, v)) && PathOk(adj, Enter(adj, c, v))
    ensures LowOk(adj, Enter(adj, c, v), done[v := 0], low[v := |adj| - |c.unseen|])
  {
    hide Reaches;
    var d := Enter(adj, c, v);
    var low' := low[v := |adj| - |c.unseen|];
    forall i | 0 <= i < |d.path|
      ensures LowWitness(adj, d, low', d.path[i])
    {
      if i < |c.path| {
        assert LowWitness(adj, c, low, c.path[i]);
        var y :| 0 <= y < |adj| && Open(c, y) && c.index[y] == low[c.path[i]] && Reaches(adj, c.path[i], y);
        assert Open(d, y);
      } else {
        ReachesSelf(adj, v);
        assert Open(d, v);
      }
    }
    forall i, x, j |
      0 <= i < |d.path| && 0 <= x < |adj| && InSegment(d, i, x) && 0 <= j < done[v := 0][x] && j < |adj[x]|
      ensures LowBound(adj, d, low', i, x, j)
    {
      assert x != v && i < |c.path|;
      assert InSegment(c, i, x);
      assert LowBound(adj, c, low, i, x, j);
    }
  }

  lemma EnterKeepsInv(adj: Adjacency, c: Core, done: seq<nat>, low: seq<nat>, v: nat)
    requires Inv(adj, c, done, low, v)
    ensures Inv(adj, Enter(adj, c, v), done[v := 0], low[v := |adj| - |c.unseen|], -1)
  {
    hide Closed, StackOk, LowOk, ReachOk, CompsList, CompsStrong;
    EnterCore(adj, c, v);
    EnterStack(adj, c, v);
    assert PathOk(adj, Enter(adj, c, v));
    EnterReach(adj, c, v);
    EnterDone(adj, c, done, v);
    EnterLow(adj, c, done, low, v);
  }

  // ----- looking at an edge (lines 141-148) ----------------------------------

  /** The end of the path has an out-edge that has not been looked at. */
  ghost predicate HasEdge(adj: Adjacency, c: Core, done: seq<nat>)
  {
    |c.path| > 0 && Last(c.path) < |adj| == |done| && done[Last(c.path)] < |adj[Last(c.path)]|
  }

  ghost function Target(adj: Adjacency, c: Core, done: seq<nat>): nat
    requires HasEdge(adj, c, done)
  {
    adj[Last(c.path)][done[Last(c.path)]]
  }

  /** `low` of the end of the path after an edge to an indexed vertex. */
  ghost function LookLow(adj: Adjacency, c: Core, done: seq<nat>, low: seq<nat>): seq<nat>
    requires HasEdge(adj, c, done) && |c.index| == |c.owner| == |low| == |adj| && Target(adj, c, done) < |adj|
  {
    var v, w := Last(c.path), Target(adj, c, done);
    low[v := if Open(c, w) then Min(low[v], c.index[w]) else low[v]]
  }

  ghost function Looked(c: Core, done: seq<nat>): seq<nat>
    requires |c.path| > 0 && Last(c.path) < |done|
  {
    done[Last(c.path) := done[Last(c.path)] + 1]
  }

  lemma LookWitness(adj: Adjacency, c: Core, done: seq<nat>, low: seq<nat>, v: nat)
    requires Closed(adj) && CoreOk(adj, c) && HasEdge(adj, c, done) && v < |adj| == |low|
    requires LowWitness(adj, c, low, v)
    ensures LowWitness(adj, c, LookLow(adj, c, done, low), v)
  {
    hide Reaches;
    var w := Target(adj, c, done);
    if v == Last(c.path) && Open(c, w) && c.index[w] < low[v] {
      assert Edge(adj, v, w);
      ReachesEdge(adj, v, w);
    } else {
      var y :| 0 <= y < |adj| && Open(c, y) && c.index[y] == low[v] && Reaches(adj, v, y);
    }
  }

  lemma LookBound(adj: Adjacency, c: Core, done: seq<nat>, low: seq<nat>, i: nat, x: nat, j: nat)
    requires Closed(adj) && CoreOk(adj, c) && PathOk(adj, c) && LowOk(adj, c, done, low) && HasEdge(adj, c, done)
    requires i < |c.path| && x < |adj| && InSegment(c, i, x) && j < |adj[x]| && j < Looked(c, done)[x]
    ensures LowBound(adj, c, LookLow(adj, c, done, low), i, x, j)
  {
    var v := Last(c.path);
    if x == v && j == done[v] {
    } else {
      assert LowBound(adj, c, low, i, x, j);
    }
  }

  lemma LookKeepsInv(adj: Adjacency, c: Core, done: seq<nat>, low: seq<nat>)
    requires Inv(adj, c, done, low, -1) && HasEdge(adj, c, done) && Target(adj, c, done) !in c.unseen
    ensures Inv(adj, c, Looked(c, done), LookLow(adj, c, done, low), -1)
  {
    hide Reaches, StackOk, ReachOk, CompsList, CompsStrong, LowOk;
    LookLowOk(adj, c, done, low);
  }

  lemma LookLowOk(adj: Adjacency, c: Core, done: seq<nat>, low: seq<nat>)
    requires Inv(adj, c, done, low, -1) && HasEdge(adj, c, done) && Target(adj, c, done) !in c.unseen
    ensures LowOk(adj, c, Looked(c, done), LookLow(adj, c, done, low))
  {
    hide Reaches, StackOk, ReachOk, CompsList, CompsStrong, LowWitness, LowBound, InSegment;
    var done', low' := Looked(c, done), LookLow(adj, c, done, low);
    forall i | 0 <= i < |c.path|
      ensures LowWitness(adj, c, low', c.path[i])
    {
      LookWitness(adj, c, done, low, c.path[i]);
    }
    forall i, x, j | 0 <= i < |c.path| && 0 <= x < |adj| && InSegment(c, i, x) && 0 <= j < done'[x] && j < |adj[x]|
      ensures LowBound(adj, c, low', i, x, j)
    {
      LookBound(adj, c, done, low, i, x, j);
    }
  }

  lemma DescendLow(adj: Adjacency, c: Core, done: seq<nat>, low: seq<nat>)
    requires Closed(adj) && CoreOk(adj, c) && PathOk(adj, c) && LowOk(adj, c, done, low) && HasEdge(adj, c, done)
    requires Target(adj, c, done) in c.unseen
    ensures LowOk(adj, c, Looked(c, done), low)
  {
    var done' := Looked(c, done);
    forall i, x, j | 0 <= i < |c.path| && 0 <= x < |adj| && InSegment(c, i, x) && 0 <= j < done'[x] && j < |adj[x]|
      ensures LowBound(adj, c, low, i, x, j)
    {
      assert j < done[x] ==> LowBound(adj, c, low, i, x, j);
    }
  }

  lemma DescendKeepsInv(adj: Adjacency, c: Core, done: seq<nat>, low: seq<nat>)
    requires Inv(adj, c, done, low, -1) && HasEdge(adj, c, done) && Target(adj, c, done) in c.unseen
    ensures Inv(adj, c, Looked(c, done), low, Target(adj, c, done))
  {
    hide StackOk, ReachOk, CompsList, CompsStrong, LowOk;
    DescendLow(adj, c, done, low);
    assert Edge(adj, Last(c.path), Target(adj, c, done));
  }

  // ----- finishing a vertex (lines 149-168) ----------------------------------

  /** Every out-edge of the end of the path has been looked at. */
  ghost predicate Finished(adj: Adjacency, c: Core, done: seq<nat>)
  {
    |c.path| > 0 && Last(c.path) < |adj| == |done| && done[Last(c.path)] == |adj[Last(c.path)]|
  }

  /** Lines 165-167: the parent takes over the `low` of the finished vertex. */
  ghost function PassUp(c: Core, low: seq<nat>): seq<nat>
    requires |c.path| > 0 && forall k :: 0 <= k < |c.path| ==> c.path[k] < |low|
  {
    var m := |c.path| - 1;
    if m > 0 then low[c.path[m - 1] := Min(low[c.path[m - 1]], low[c.path[m]])] else low
  }

  ghost function Leave(c: Core): Core
    requires |c.path| > 0
  {
    c.(path := c.path[..|c.path| - 1])
  }

  /** A finished vertex whose `low` is below its index reaches an explored vertex
      that stays on the path. */
  lemma LeaveAnchor(adj: Adjacency, c: Core, low: seq<nat>) returns (g: nat)
    requires Closed(adj) && CoreOk(adj, c) && PathOk(adj, c) && ReachOk(adj, c) && |c.path| > 0 && |low| == |adj|
    requires LowWitness(adj, c, low, Last(c.path)) && low[Last(c.path)] != c.index[Last(c.path)]
    ensures g < |c.path| - 1 && AnchoredAt(adj, c, Last(c.path), g)
  {
    hide Reaches;
    var v := Last(c.path);
    var y :| 0 <= y < |adj| && Open(c, y) && c.index[y] == low[v] && Reaches(adj, v, y);
    assert Anchored(adj, c, y);
    g :| 0 <= g < |c.path| && AnchoredAt(adj, c, y, g);
    ReachesTrans(adj, v, y, c.path[g]);
  }

  lemma LeaveAnchored(adj: Adjacency, c: Core, low: seq<nat>, x: nat)
    requires Closed(adj) && CoreOk(adj, c) && PathOk(adj, c) && ReachOk(adj, c) && |c.path| > 0 && |low| == |adj|
    requires LowWitness(adj, c, low, Last(c.path)) && low[Last(c.path)] != c.index[Last(c.path)]
    requires CoreOk(adj, Leave(c)) && PathOk(adj, Leave(c)) && x < |adj| && Open(c, x)
    ensures Anchored(adj, Leave(c), x)
  {
    hide Reaches;
    assert Anchored(adj, c, x);
    var i :| 0 <= i < |c.path| && AnchoredAt(adj, c, x, i);
    if i == |c.path| - 1 {
      var g := LeaveAnchor(adj, c, low);
      ReachesTrans(adj, x, Last(c.path), c.path[g]);
      assert AnchoredAt(adj, Leave(c), x, g);
    } else {
      assert AnchoredAt(adj, Leave(c), x, i);
    }
  }

  lemma LeaveReach(adj: Adjacency, c: Core, low: seq<nat>)
    requires Closed(adj) && CoreOk(adj, c) && PathOk(adj, c) && ReachOk(adj, c) && |c.path| > 0 && |low| == |adj|
    requires LowWitness(adj, c, low, Last(c.path)) && low[Last(c.path)] != c.index[Last(c.path)]
    requires CoreOk(adj, Leave(c)) && PathOk(adj, Leave(c))
    ensures ReachOk(adj, Leave(c))
  {
    hide Reaches, Anchored, LowWitness, Closed;
    var d := Leave(c);
    forall x | 0 <= x < |adj| && Open(d, x)
      ensures Anchored(adj, d, x)
    {
      LeaveAnchored(adj, c, low, x);
    }
    ShorterPathReaches(adj, c, d);
  }

  /** The first half of `ReachOk` survives when vertices leave the path or stop
      being open. */
  lemma ShorterPathReaches(adj: Adjacency, c: Core, d: Core)
    requires CoreOk(adj, c) && PathOk(adj, c) && CoreOk(adj, d) && PathOk(adj, d)
    requires forall i, x {:trigger Reaches(adj, c.path[i], x)} ::
        (0 <= i < |c.path| && 0 <= x < |adj| && Open(c, x) && c.index[c.path[i]] <= c.index[x]) ==>
          Reaches(adj, c.path[i], x)
    requires d.path <= c.path && d.index == c.index && d.unseen == c.unseen
    requires forall x :: 0 <= x < |adj| && d.owner[x] == -1 ==> c.owner[x] == -1
    ensures forall i, x {:trigger Reaches(adj, d.path[i], x)} ::
        (0 <= i < |d.path| && 0 <= x < |adj| && Open(d, x) && d.index[d.path[i]] <= d.index[x]) ==>
          Reaches(adj, d.path[i], x)
  {
    hide Reaches;
    forall i, x | 0 <= i < |d.path| && 0 <= x < |adj| && Open(d, x) && d.index[d.path[i]] <= d.index[x]
      ensures Reaches(adj, d.path[i], x)
    {
      assert Reaches(adj, c.path[i], x);
    }
  }

  lemma LeaveBound(adj: Adjacency, c: Core, done: seq<nat>, low: seq<nat>, i: nat, x: nat, j: nat)
    requires Closed(adj) && CoreOk(adj, c) && PathOk(adj, c) && LowOk(adj, c, done, low) && |c.path| > 0
    requires CoreOk(adj, Leave(c)) && PathOk(adj, Leave(c))
    requires i < |c.path| - 1 && x < |adj| && InSegment(Leave(c), i, x) && j < |adj[x]| && j < done[x]
    ensures LowBound(adj, Leave(c), PassUp(c, low), i, x, j)
  {
    var m := |c.path| - 1;
    if i == m - 1 && c.index[c.path[m]] <= c.index[x] {
      assert InSegment(c, m, x);
      assert LowBound(adj, c, low, m, x, j);
    } else {
      assert InSegment(c, i, x);
      assert LowBound(adj, c, low, i, x, j);
      assert c.path[i] == c.path[m - 1] ==> i == m - 1;
    }
  }

  lemma LeaveWitness(adj: Adjacency, c: Core, low: seq<nat>, i: nat)
    requires CoreOk(adj, c) && PathOk(adj, c) && ReachOk(adj, c) && |low| == |adj|
    requires i < |c.path| - 1 && CoreOk(adj, Leave(c))
    requires LowWitness(adj, c, low, c.path[i]) && LowWitness(adj, c, low, Last(c.path))
    ensures LowWitness(adj, Leave(c), PassUp(c, low), c.path[i])
  {
    hide Reaches;
    var m := |c.path| - 1;
    var v, low', d := c.path[i], PassUp(c, low), Leave(c);
    var y :| 0 <= y < |adj| && Open(c, y) && c.index[y] == low[v] && Reaches(adj, v, y);
    assert Open(d, y);
    if i == m - 1 && low[c.path[m]] < low[v] {
      var z :| 0 <= z < |adj| && Open(c, z) && c.index[z] == low[c.path[m]] && Reaches(adj, c.path[m], z);
      assert Reaches(adj, c.path[m - 1], c.path[m]);
      ReachesTrans(adj, v, c.path[m], z);
      assert Open(d, z);
    }
  }

  lemma LeaveLow(adj: Adjacency, c: Core, done: seq<nat>, low: seq<nat>)
    requires Closed(adj) && CoreOk(adj, c) && PathOk(adj, c) && ReachOk(adj, c) && LowOk(adj, c, done, low)
             && |c.path| > 0
    requires CoreOk(adj, Leave(c)) && PathOk(adj, Leave(c))
    ensures LowOk(adj, Leave(c), done, PassUp(c, low))
  {
    var d, low' := Leave(c), PassUp(c, low);
    forall i | 0 <= i < |d.path|
      ensures LowWitness(adj, d, low', d.path[i])
    {
      assert LowWitness(adj, c, low, c.path[|d.path|]);
      LeaveWitness(adj, c, low, i);
    }
    forall i, x, j | 0 <= i < |d.path| && 0 <= x < |adj| && InSegment(d, i, x) && 0 <= j < done[x] && j < |adj[x]|
      ensures LowBound(adj, d, low', i, x, j)
    {
      LeaveBound(adj, c, done, low, i, x, j);
    }
  }

  lemma LeaveDone(adj: Adjacency, c: Core, done: seq<nat>)
    requires Closed(adj) && CoreOk(adj, c) && DoneOk(adj, c, done, -1) && Finished(adj, c, done)
    requires CoreOk(adj, Leave(c))
    ensures DoneOk(adj, Leave(c), done, -1)
  {
    var d := Leave(c);
    forall v | 0 <= v < |adj| && v !in d.unseen && v !in d.path
      ensures done[v] == |adj[v]|
    {
      assert c.path == d.path + [Last(c.path)];
    }
  }

  lemma LeaveKeepsInv(adj: Adjacency, c: Core, done: seq<nat>, low: seq<nat>)
    requires Inv(adj, c, done, low, -1) && Finished(adj, c, done)
    requires low[Last(c.path)] != c.index[Last(c.path)]
    ensures Inv(adj, Leave(c), done, PassUp(c, low), -1)
  {
    hide Closed, ReachOk, CompsList, CompsStrong;
    var d := Leave(c);
    assert CoreOk(adj, d) && StackOk(adj, d) && PathOk(adj, d);
    assert LowWitness(adj, c, low, c.path[|c.path| - 1]);
    LeaveReach(adj, c, low);
    LeaveLow(adj, c, done, low);
    LeaveDone(adj, c, done);
  }

  // ----- closing a component (lines 151-163) ---------------------------------

  /** The open vertices indexed no earlier than the end of the path. */
  ghost predicate InTop(c: Core, x: nat)
    requires |c.path| > 0 && x < |c.index| == |c.owner| && Last(c.path) < |c.index|
  {
    Open(c, x) && c.index[Last(c.path)] <= c.index[x]
  }

  ghost function Claimed(c: Core): (r: seq<int>)
    requires |c.path| > 0 && |c.index| == |c.owner| && Last(c.path) < |c.index|
    ensures |r| == |c.owner|
    ensures forall x :: 0 <= x < |r| ==> r[x] == if InTop(c, x) then |c.comps| else c.owner[x]
  {
    seq(|c.owner|, x requires 0 <= x < |c.owner| => if InTop(c, x) then |c.comps| else c.owner[x])
  }

  /** The state after popping the Tarjan stack down to `k` entries and emitting
      the popped vertices as `comp`. */
  ghost function Close(c: Core, k: nat, comp: seq<nat>): Core
    requires |c.path| > 0 && |c.index| == |c.owner| && Last(c.path) < |c.index| && k <= |c.stack|
  {
    Leave(c).(owner := Claimed(c), stack := c.stack[..k], comps := c.comps + [comp])
  }

  /** What closing needs: `v` is finished and nothing looked at from the vertices
      above it leads to an open vertex below it. */
  ghost predicate Closing(adj: Adjacency, c: Core, done: seq<nat>, low: seq<nat>, k: nat, comp: seq<nat>)
  {
    && Inv(adj, c, done, low, -1) && Finished(adj, c, done)
    && low[Last(c.path)] == c.index[Last(c.path)]
    && k < |c.stack| && c.stack[k] == Last(c.path)
    && SortedSet(comp)
    && (forall x :: x in comp <==> x in c.stack[k..])
  }

  /** The popped part of the stack is exactly the top segment. */
  lemma PoppedIsTop(adj: Adjacency, c: Core, k: nat, x: nat)
    requires CoreOk(adj, c) && StackOk(adj, c) && PathOk(adj, c) && |c.path| > 0
    requires k < |c.stack| && c.stack[k] == Last(c.path)
    ensures x in c.stack[k..] <==> x < |adj| && InTop(c, x)
  {
    if x < |adj| && InTop(c, x) {
      var i :| 0 <= i < |c.stack| && c.stack[i] == x;
      assert i >= k;
      assert c.stack[k..][i - k] == x;
    }
  }

  lemma TopEdge(adj: Adjacency, c: Core, done: seq<nat>, low: seq<nat>, x: nat, j: nat)
    requires Closed(adj) && CoreOk(adj, c) && PathOk(adj, c) && LowOk(adj, c, done, low) && DoneOk(adj, c, done, -1)
    requires Finished(adj, c, done) && low[Last(c.path)] == c.index[Last(c.path)]
    requires x < |adj| && InTop(c, x) && j < |adj[x]|
    ensures adj[x][j] !in c.unseen && (c.owner[adj[x][j]] == -1 ==> InTop(c, adj[x][j]))
  {
    var m := |c.path| - 1;
    if x in c.path {
      var i :| 0 <= i < |c.path| && c.path[i] == x;
      assert i == m;
    }
    assert done[x] == |adj[x]|;
    assert InSegment(c, m, x);
    assert LowBound(adj, c, low, m, x, j);
  }

  lemma TopReachesRoot(adj: Adjacency, c: Core, done: seq<nat>, low: seq<nat>, x: nat)
    requires Closed(adj) && CoreOk(adj, c) && PathOk(adj, c) && LowOk(adj, c, done, low) && DoneOk(adj, c, done, -1)
    requires ReachOk(adj, c) && CompsStrong(adj, c.owner)
    requires Finished(adj, c, done) && low[Last(c.path)] == c.index[Last(c.path)]
    requires x < |adj| && InTop(c, x)
    ensures Reaches(adj, x, Last(c.path))
  {
    hide Reaches;
    assert Anchored(adj, c, x);
    var i :| 0 <= i < |c.path| && AnchoredAt(adj, c, x, i);
    var inside := set y | 0 <= y < |adj| && (c.owner[y] >= 0 || InTop(c, y));
    forall y, z | y in inside && Edge(adj, y, z)
      ensures z in inside
    {
      var j :| 0 <= j < |adj[y]| && adj[y][j] == z;
      if c.owner[y] >= 0 {
        assert c.owner[adj[y][j]] >= 0;
      } else {
        TopEdge(adj, c, done, low, y, j);
      }
    }
    ReachesStays(adj, inside, x, c.path[i]);
    assert i == |c.path| - 1;
  }

  lemma CloseStrong(adj: Adjacency, c: Core, done: seq<nat>, low: seq<nat>)
    requires Closed(adj) && CoreOk(adj, c) && PathOk(adj, c) && LowOk(adj, c, done, low) && DoneOk(adj, c, done, -1)
    requires ReachOk(adj, c) && CompsStrong(adj, c.owner)
    requires Finished(adj, c, done) && low[Last(c.path)] == c.index[Last(c.path)]
    ensures CompsStrong(adj, Claimed(c))
  {
    hide Reaches;
    var owner := Claimed(c);
    forall v, j | 0 <= v < |adj| && owner[v] >= 0 && 0 <= j < |adj[v]|
      ensures 0 <= owner[adj[v][j]] <= owner[v]
    {
      if InTop(c, v) {
        TopEdge(adj, c, done, low, v, j);
      }
    }
    forall u, v | 0 <= u < |adj| && 0 <= v < |adj| && owner[u] >= 0 && owner[u] == owner[v]
      ensures Reaches(adj, u, v)
    {
      if InTop(c, u) {
        TopReachesRoot(adj, c, done, low, u);
        assert Reaches(adj, c.path[|c.path| - 1], v);
        ReachesTrans(adj, u, Last(c.path), v);
      }
    }
  }

  lemma CloseCore(adj: Adjacency, c: Core, k: nat, comp: seq<nat>)
    requires CoreOk(adj, c) && PathOk(adj, c) && |c.path| > 0 && k < |c.stack|
    ensures CoreOk(adj, Close(c, k, comp)) && PathOk(adj, Close(c, k, comp))
  {
  }

  lemma CloseStack(adj: Adjacency, c: Core, k: nat, comp: seq<nat>)
    requires CoreOk(adj, c) && StackOk(adj, c) && PathOk(adj, c) && |c.path| > 0
    requires k < |c.stack| && c.stack[k] == Last(c.path) && CoreOk(adj, Close(c, k, comp))
    ensures StackOk(adj, Close(c, k, comp))
  {
    var d := Close(c, k, comp);
    forall x | 0 <= x < |adj| && Open(d, x)
      ensures x in d.stack
    {
      PoppedIsTop(adj, c, k, x);
      assert Open(c, x) && !InTop(c, x);
      assert c.stack == c.stack[..k] + c.stack[k..];
    }
    forall i | 0 <= i < |d.stack|
      ensures Open(d, d.stack[i])
    {
      assert c.index[c.stack[i]] < c.index[c.stack[k]];
    }
  }

  lemma CloseAnchored(adj: Adjacency, c: Core, k: nat, comp: seq<nat>, x: nat)
    requires CoreOk(adj, c) && PathOk(adj, c) && ReachOk(adj, c) && |c.path| > 0 && k <= |c.stack|
    requires CoreOk(adj, Close(c, k, comp)) && PathOk(adj, Close(c, k, comp))
    requires x < |adj| && Open(c, x) && !InTop(c, x)
    ensures Anchored(adj, Close(c, k, comp), x)
  {
    hide Reaches;
    assert Anchored(adj, c, x);
    var i :| 0 <= i < |c.path| && AnchoredAt(adj, c, x, i);
    assert AnchoredAt(adj, Close(c, k, comp), x, i);
  }

  lemma CloseReach(adj: Adjacency, c: Core, k: nat, comp: seq<nat>)
    requires CoreOk(adj, c) && PathOk(adj, c) && ReachOk(adj, c) && |c.path| > 0 && k <= |c.stack|
    requires CoreOk(adj, Close(c, k, comp)) && PathOk(adj, Close(c, k, comp))
    ensures ReachOk(adj, Close(c, k, comp))
  {
    hide Reaches, Anchored;
    var d := Close(c, k, comp);
    forall x | 0 <= x < |adj| && Open(d, x)
      ensures Anchored(adj, d, x)
    {
      CloseAnchored(adj, c, k, comp, x);
    }
    ShorterPathReaches(adj, c, d);
  }

  lemma CloseList(adj: Adjacency, c: Core, k: nat, comp: seq<nat>)
    requires CoreOk(adj, c) && StackOk(adj, c) && PathOk(adj, c) && |c.path| > 0
    requires k < |c.stack| && c.stack[k] == Last(c.path)
    requires SortedSet(comp) && forall x :: x in comp <==> x in c.stack[k..]
    requires CompsList(|adj|, c.comps, c.owner)
    ensures CompsList(|adj|, c.comps + [comp], Claimed(c))
  {
    forall x: nat ensures x in comp <==> x < |adj| && InTop(c, x) { PoppedIsTop(adj, c, k, x); }
    assert c.stack[k] in comp;
    var comps := c.comps + [comp];
    forall h, i | 0 <= h < |comps| && 0 <= i < |comps[h]|
      ensures comps[h][i] < |adj| && Claimed(c)[comps[h][i]] == h
    {
      assert h < |c.comps| ==> !InTop(c, c.comps[h][i]);
      assert h == |c.comps| ==> comp[i] in comp;
    }
  }

  lemma CloseLowBound(adj: Adjacency, c: Core, done: seq<nat>, low: seq<nat>, k: nat, comp: seq<nat>, i: nat, x: nat,
          j: nat)
    requires Closed(adj) && CoreOk(adj, c) && PathOk(adj, c) && LowOk(adj, c, done, low) && |c.path| > 0
             && k <= |c.stack|
    requires CoreOk(adj, Close(c, k, comp)) && PathOk(adj, Close(c, k, comp))
    requires low[Last(c.path)] == c.index[Last(c.path)]
    requires i < |c.path| - 1 && x < |adj| && InSegment(Close(c, k, comp), i, x) && j < |adj[x]| && j < done[x]
    ensures LowBound(adj, Close(c, k, comp), PassUp(c, low), i, x, j)
  {
    assert InSegment(c, i, x);
    assert LowBound(adj, c, low, i, x, j);
  }

  lemma CloseLowWitness(adj: Adjacency, c: Core, low: seq<nat>, k: nat, comp: seq<nat>, i: nat)
    requires CoreOk(adj, c) && PathOk(adj, c) && |low| == |adj| && |c.path| > 0 && k <= |c.stack|
    requires CoreOk(adj, Close(c, k, comp)) && i < |c.path| - 1
    requires low[Last(c.path)] == c.index[Last(c.path)]
    requires LowWitness(adj, c, low, c.path[i])
    ensures LowWitness(adj, Close(c, k, comp), PassUp(c, low), c.path[i])
  {
    hide Reaches;
    var m := |c.path| - 1;
    var y :| 0 <= y < |adj| && Open(c, y) && c.index[y] == low[c.path[i]] && Reaches(adj, c.path[i], y);
    assert c.index[c.path[i]] < c.index[c.path[m]];
    assert Open(Close(c, k, comp), y);
  }

  lemma CloseLow(adj: Adjacency, c: Core, done: seq<nat>, low: seq<nat>, k: nat, comp: seq<nat>)
    requires Closed(adj) && CoreOk(adj, c) && PathOk(adj, c) && LowOk(adj, c, done, low) && |c.path| > 0
             && k <= |c.stack|
    requires CoreOk(adj, Close(c, k, comp)) && PathOk(adj, Close(c, k, comp))
    requires low[Last(c.path)] == c.index[Last(c.path)]
    ensures LowOk(adj, Close(c, k, comp), done, PassUp(c, low))
  {
    var d, low' := Close(c, k, comp), PassUp(c, low);
    forall i | 0 <= i < |d.path|
      ensures LowWitness(adj, d, low', d.path[i])
    {
      CloseLowWitness(adj, c, low, k, comp, i);
    }
    forall i, x, j | 0 <= i < |d.path| && 0 <= x < |adj| && InSegment(d, i, x) && 0 <= j < done[x] && j < |adj[x]|
      ensures LowBound(adj, d, low', i, x, j)
    {
      CloseLowBound(adj, c, done, low, k, comp, i, x, j);
    }
  }

  lemma CloseDone(adj: Adjacency, c: Core, done: seq<nat>, k: nat, comp: seq<nat>)
    requires Closed(adj) && CoreOk(adj, c) && DoneOk(adj, c, done, -1) && Finished(adj, c, done) && k <= |c.stack|
    requires CoreOk(adj, Close(c, k, comp))
    ensures DoneOk(adj, Close(c, k, comp), done, -1)
  {
    var d := Close(c, k, comp);
    forall v | 0 <= v < |adj| && v !in d.unseen && v !in d.path
      ensures done[v] == |adj[v]|
    {
      assert c.path == d.path + [Last(c.path)];
    }
  }

  lemma CloseKeepsInv(adj: Adjacency, c: Core, done: seq<nat>, low: seq<nat>, k: nat, comp: seq<nat>)
    requires Closing(adj, c, done, low, k, comp)
    ensures Inv(adj, Close(c, k, comp), done, PassUp(c, low), -1)
  {
    hide Closed, StackOk, PathOk, ReachOk, CompsList, CompsStrong, SortedSet;
    CloseCore(adj, c, k, comp);
    CloseStack(adj, c, k, comp);
    CloseReach(adj, c, k, comp);
    CloseList(adj, c, k, comp);
    CloseStrong(adj, c, done, low);
    CloseLow(adj, c, done, low, k, comp);
    CloseDone(adj, c, done, k, comp);
  }
}
