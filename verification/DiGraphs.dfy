/** The graph object and its three traversals (src/graph.rs). */
module DiGraphs {
  import opened Graphs
  import opened Options
  import Kahn
  import Sorting
  import opened Tarjan

  datatype Frame = Frame(v: nat, ei: nat)

  class DiGraph {
    var adj: seq<seq<nat>>

    ghost predicate Valid()
      reads this
    {
      Closed(adj) && |adj| < USIZE_MAX
    }

    constructor (n: nat)
      requires n < USIZE_MAX
      ensures Valid() && |adj| == n && forall v :: 0 <= v < n ==> adj[v] == []
    {
      adj := seq(n, _ => []);
    }

    /** Lines 35-45: the graph grows to hold both ends of a new edge. */
    method AddEdge(from: nat, to: nat)
      requires Valid() && from < USIZE_MAX - 1 && to < USIZE_MAX - 1
      modifies this
      ensures Valid()
      ensures |adj| == if |old(adj)| > from
              && |old(adj)| > to then |old(adj)| else if from > to then from + 1 else to + 1
      ensures forall v :: 0 <= v < |adj| ==>
        adj[v] == (if v < |old(adj)| then old(adj)[v] else []) + (if v == from then [to] else [])
    {
      var m := if from > to then from else to;
      if |adj| <= m {
        adj := adj + seq(m + 1 - |adj|, _ => []);
      }
      adj := adj[from := adj[from] + [to]];
    }

    /** Lines 53-61. */
    method InDegrees() returns (deg: seq<nat>)
      requires Valid()
      ensures |deg| == |adj| && forall t :: 0 <= t < |adj| ==> deg[t] == Kahn.InDegree(adj, {}, |adj|, t)
    {
      deg := seq(|adj|, _ => 0);
      for u := 0 to |adj|
        invariant |deg| == |adj| && forall t :: 0 <= t < |adj| ==> deg[t] == Kahn.InDegree(adj, {}, u, t)
      {
        ghost var before := deg;
        for j := 0 to |adj[u]|
          invariant |deg| == |adj|
          invariant forall t :: 0 <= t < |adj| ==> deg[t] == before[t] + multiset(adj[u][..j])[t]
        {
          assert adj[u][..j + 1] == adj[u][..j] + [adj[u][j]];
          deg := deg[adj[u][j] := deg[adj[u][j]] + 1];
        }
        assert adj[u][..|adj[u]|] == adj[u];
      }
    }

    /** Lines 64-87: an order with every edge forward, or `None` exactly when the
        graph has a cycle. */
    method TopoSort() returns (r: Option<seq<nat>>)
      requires Valid()
      ensures r.Some? ==> Kahn.TopologicalOrder(adj, r.value)
      ensures r.None? <==> Kahn.HasCycle(adj)
    {
      hide Kahn.QueueOk, Kahn.Counts, Kahn.HasCycle, Kahn.TopologicalOrder, Kahn.InDegree;
      var indeg := InDegrees();
      var queue: seq<nat> := [];
      for v := 0 to |adj|
        invariant Kahn.Distinct(queue) && forall x :: x in queue <==> 0 <= x < v && indeg[x] == 0
      {
        if indeg[v] == 0 {
          queue := queue + [v];
        }
      }
      Kahn.StartQueue(adj, indeg, queue);
      var head := 0;
      while head < |queue|
        invariant head <= |queue| && Kahn.QueueOk(adj, indeg, queue, head) && Kahn.Counts(adj, indeg, queue[..head], [])
        decreases |adj| - head
      {
        Kahn.QueueFacts(adj, indeg, queue, head);
        var v := queue[head];
        Kahn.TakeNext(adj, indeg, queue, head);
        head := head + 1;
        assert adj[v][0..] == adj[v];
        for j := 0 to |adj[v]|
          invariant head <= |queue| && Kahn.QueueOk(adj, indeg, queue, head)
          invariant Kahn.Counts(adj, indeg, queue[..head], adj[v][j..])
        {
          Kahn.QueueFacts(adj, indeg, queue, head);
          var to := adj[v][j];
          Kahn.SubtractEdge(adj, indeg, queue, head, adj[v][j..]);
          assert adj[v][j..][1..] == adj[v][j + 1..];
          indeg := indeg[to := indeg[to] - 1];
          if indeg[to] == 0 {
            queue := queue + [to];
          }
        }
        assert adj[v][|adj[v]|..] == [];
      }
      assert queue[..head] == queue;
      Kahn.QueueDry(adj, indeg, queue);
      if |queue| == |adj| {
        Kahn.OrderedHasNoCycle(adj, queue);
        r := Some(queue);
      } else {
        r := None;
      }
    }

    /** Lines 95-114. */
    method Reachable(src: nat, dst: nat) returns (r: bool)
      requires Valid()
      ensures r <==> Reaches(adj, src, dst)
    {
      if src >= |adj| {
        return false;
      }
      hide Reaches, Edge;
      var visited := seq(|adj|, _ => false)[src := true];
      var stack := [src];
      ghost var left := Kahn.Below(|adj|) - {src};
      ReachesSelf(adj, src);
      assert Settled(adj, dst, visited, stack, |adj|);
      hide Settled;
      while |stack| > 0
        invariant Visiting(adj, src, visited, stack, left)
        invariant Settled(adj, dst, visited, stack, |adj|)
        decreases |left|, |stack|
      {
        var v := Last(stack);
        TakeTop(adj, dst, visited, stack);
        TopVisited(adj, src, visited, stack, left);
        stack := stack[..|stack| - 1];
        if v == dst {
          return true;
        }
        ghost var left0, height := left, |stack|;
        for j := 0 to |adj[v]|
          invariant Visiting(adj, src, visited, stack, left) && visited[v]
          invariant Settled(adj, dst, visited, stack, v) && Expanded(adj, visited, v, j)
          invariant |left| < |left0| || (left == left0 && |stack| == height)
        {
          var to := adj[v][j];
          if !visited[to] {
            EdgeAt(adj, v, j);
            VisitTarget(adj, src, visited, stack, left, v, to);
            SettleTarget(adj, dst, visited, stack, v, to);
            visited := visited[to := true];
            stack := stack + [to];
            left := left - {to};
          }
        }
        SettleTop(adj, dst, visited, stack, v);
      }
      NothingLeft(adj, src, dst, visited, left);
      return false;
    }

    /** Lines 118-172. */
    method StronglyConnectedComponents() returns (components: seq<seq<nat>>)
      requires Valid()
      ensures forall k :: 0 <= k < |components| ==> |components[k]| > 0 && SortedSet(components[k])
      ensures IsPartition(|adj|, components)
      ensures forall u, v :: 0 <= u < |adj| && 0 <= v < |adj| ==>
        (Together(components, u, v) <==> Reaches(adj, u, v) && Reaches(adj, v, u))
      ensures ReverseTopological(adj, components)
    {
      var s := new Search(adj);
      components := s.Run();
    }
  }

  /** The local variables of `strongly_connected_components` as one object, with
      the ghost parts of the invariant beside them. */
  class Search {
    const adj: seq<seq<nat>>
    var index: seq<nat>
    var lowlink: seq<nat>
    var onStack: seq<bool>
    var stack: seq<nat>
    var components: seq<seq<nat>>
    var counter: nat
    var work: seq<Frame>
    ghost var core: Core
    ghost var done: seq<nat>
    ghost var next: int

    ghost predicate Valid()
      reads this
    {
      && Inv(adj, core, done, lowlink, next)
      && Sane(adj, core, done, lowlink, next)
      && index == core.index && stack == core.stack && components == core.comps
      && OnStackIs(core, onStack)
      && counter == |adj| - |core.unseen|
      && WorkIs(work, core.path, done, next)
    }

    /** The first `m` vertices on the path have had an edge looked at. */
    ghost predicate Moving(m: int)
      reads this
    {
      forall i :: 0 <= i < m <= |core.path| && core.path[i] < |done| ==> done[core.path[i]] > 0
    }

    constructor (adj: seq<seq<nat>>)
      requires Closed(adj) && |adj| < USIZE_MAX
      ensures this.adj == adj && Valid() && next == -1 && core.path == []
    {
      hide Inv, Closed, Reaches;
      StartInv(adj, seq(|adj|, _ => 0));
      InvSane(adj, StartCore(|adj|), seq(|adj|, _ => 0), seq(|adj|, _ => 0), -1);
      this.adj := adj;
      index := seq(|adj|, _ => USIZE_MAX);
      lowlink := seq(|adj|, _ => 0);
      onStack := seq(|adj|, _ => false);
      stack, components, counter, work := [], [], 0, [];
      core, done, next := StartCore(|adj|), seq(|adj|, _ => 0), -1;
    }

    /** Lines 134-140. */
    method EnterTop()
      requires Valid() && next != -1 && Moving(|core.path|)
      modifies this
      ensures Valid() && next == -1 && |core.path| > 0 && Moving(|core.path| - 1)
      ensures core.unseen == old(core.unseen - {next}) && |core.unseen| < |old(core.unseen)|
    {
      hide Inv, Closed, CoreOk, Reaches;
      var v := work[|work| - 1].v;
      EnterKeepsInv(adj, core, done, lowlink, v);
      EnterMatches(adj, core, onStack, done, lowlink, v);
      index, lowlink, counter := index[v := counter], lowlink[v := counter], counter + 1;
      stack, onStack := stack + [v], onStack[v := true];
      core, done, next := Enter(adj, core, v), done[v := 0], -1;
      InvSane(adj, core, done, lowlink, next);
    }

    /** Lines 142-148. */
    method LookAtEdge()
      requires Valid() && next == -1 && HasEdge(adj, core, done) && Moving(|core.path| - 1)
      modifies this
      ensures Valid() && core == old(core) && Moving(|core.path|) && (next == -1 || next in core.unseen)
      ensures Weight(adj, core.path, done) < old(Weight(adj, core.path, done))
    {
      hide Inv, Closed, CoreOk, Reaches, OnStackIs, Weight;
      WeightLooked(adj, core, done, lowlink);
      TopFacts(adj, core, done, lowlink, work);
      var m := |work| - 1;
      var v, ei := work[m].v, work[m].ei;
      var w := adj[v][ei];
      assert w == Target(adj, core, done);
      work := work[m := Frame(v, ei + 1)];
      if index[w] == USIZE_MAX {
        work := work + [Frame(w, 0)];
        DescendKeepsInv(adj, core, done, lowlink);
        next := w;
      } else {
        LookKeepsInv(adj, core, done, lowlink);
        OnStackAt(core, onStack, w);
        if onStack[w] {
          lowlink := lowlink[v := Min(lowlink[v], index[w])];
        }
        assert lowlink == LookLow(adj, core, done, old(lowlink));
      }
      done := Looked(core, done);
      InvSane(adj, core, done, lowlink, next);
    }

    /** Lines 149-168. */
    method FinishTop()
      requires Valid() && next == -1 && Finished(adj, core, done) && Moving(|core.path| - 1)
      modifies this
      ensures Valid() && next == -1 && Moving(|core.path|) && core.unseen == old(core.unseen)
      ensures Weight(adj, core.path, done) < old(Weight(adj, core.path, done))
    {
      hide Inv, Closed, CoreOk, Reaches, Weight;
      WeightFinish(adj, core, done, lowlink);
      var m := |work| - 1;
      var v := work[m].v;
      ghost var before := core;
      if lowlink[v] == index[v] {
        PopComponent();
      } else {
        LeaveKeepsInv(adj, core, done, lowlink);
        core := Leave(core);
      }
      work := work[..m];
      if m > 0 {
        var parent := work[m - 1].v;
        lowlink := lowlink[parent := Min(lowlink[parent], lowlink[v])];
      }
      assert lowlink == PassUp(before, old(lowlink));
      InvSane(adj, core, done, lowlink, next);
    }

    /** Lines 152-162: pop the stack down to the finished vertex, and emit what was
        popped as a sorted component. */
    method PopComponent()
      requires Valid() && next == -1 && Finished(adj, core, done)
      requires lowlink[Last(core.path)] == core.index[Last(core.path)]
      modifies this`stack, this`onStack, this`components, this`core
      ensures stack == core.stack && components == core.comps && core.index == old(core.index)
      ensures core.unseen == old(core.unseen) && core.path == old(core.path[..|core.path| - 1])
      ensures OnStackIs(core, onStack)
      ensures Inv(adj, core, done, PassUp(old(core), lowlink), -1)
    {
      hide Inv, Closed, Reaches;
      ghost var k := RootPosition(adj, core, done, lowlink);
      var comp := PopUntil(work[|work| - 1].v, k);
      hide Sane, OnStackIs, WorkIs, Finished;
      EmitComponent(adj, core, done, lowlink, k, comp, onStack);
      comp := Sorting.Sort(comp);
      components := components + [comp];
      core := Close(core, k, comp);
    }

    /** Lines 152-160: pop the stack until `v` has come off it. */
    method PopUntil(v: nat, ghost k: nat) returns (comp: seq<nat>)
      requires stack == core.stack && OnStackIs(core, onStack)
      requires k < |core.stack| && core.stack[k] == v
      requires forall i :: 0 <= i < |core.stack| ==> core.stack[i] < |core.owner|
      requires forall i, j :: 0 <= i < j < |core.stack| ==> core.stack[i] != core.stack[j]
      modifies this`stack, this`onStack
      ensures stack == core.stack[..k] && Reversed(comp, core.stack[k..])
      ensures OnStackExcept(core, onStack, core.stack[k..])
    {
      comp := [];
      while true
        invariant k < |stack| <= |core.stack| && stack == core.stack[..|stack|]
        invariant Reversed(comp, core.stack[|stack|..])
        invariant OnStackExcept(core, onStack, core.stack[|stack|..])
        decreases |stack|
        modifies this`stack, this`onStack
      {
        var w := Last(stack);
        PopOne(core, onStack, comp, |stack| - 1);
        hide Reversed;
        stack := stack[..|stack| - 1];
        onStack := onStack[w := false];
        comp := comp + [w];
        if w == v {
          break;
        }
      }
    }

    /** One round of the loop over the work stack (lines 133-168). */
    method Step()
      requires Valid() && Moving(|core.path|) && |work| > 0
      modifies this
      ensures Valid() && Moving(|core.path|)
      ensures next == -1 || next in core.unseen
      ensures old(next) != -1 ==> core.unseen == old(core.unseen - {next}) && |core.unseen| < |old(core.unseen)|
      ensures old(next) == -1 ==> core.unseen == old(core.unseen)
      ensures old(next) == -1 ==> Weight(adj, core.path, done) < old(Weight(adj, core.path, done))
    {
      hide Inv, Closed, CoreOk, Reaches, OnStackIs, Weight;
      if work[|work| - 1].ei == 0 {
        EnterTop();
      }
      hide Sane;
      TopFacts(adj, core, done, lowlink, work);
      var top := work[|work| - 1];
      if top.ei < |adj[top.v]| {
        LookAtEdge();
      } else {
        FinishTop();
      }
    }

    /** Lines 132-169: explore everything reachable from an unseen vertex. */
    method Explore(start: nat)
      requires Valid() && next == -1 && core.path == [] && start in core.unseen
      modifies this
      ensures Valid() && next == -1 && core.path == []
      ensures core.unseen <= old(core.unseen) - {start}
    {
      hide Inv, Closed, CoreOk, Reaches, OnStackIs, Weight;
      PushRoot(adj, core, done, lowlink, start);
      InvSane(adj, core, done, lowlink, start);
      work, next := [Frame(start, 0)], start;
      while |work| > 0
        invariant Valid() && Moving(|core.path|)
        invariant core.unseen <= old(core.unseen)
        invariant start in core.unseen ==> next == start
        decreases |core.unseen|, Weight(adj, core.path, done)
      {
        Step();
      }
    }

    /** Lines 128-171. */
    method Run() returns (comps: seq<seq<nat>>)
      requires Valid() && next == -1 && core.path == []
      modifies this
      ensures forall k :: 0 <= k < |comps| ==> |comps[k]| > 0 && SortedSet(comps[k])
      ensures IsPartition(|adj|, comps)
      ensures forall u, v :: 0 <= u < |adj| && 0 <= v < |adj| ==>
        (Together(comps, u, v) <==> Reaches(adj, u, v) && Reaches(adj, v, u))
      ensures ReverseTopological(adj, comps)
    {
      hide Inv, Closed, CoreOk, Reaches, Together, IsPartition, ReverseTopological, SortedSet;
      var start := 0;
      while start < |adj|
        invariant start <= |adj|
        invariant Valid() && next == -1 && core.path == []
        invariant forall v :: 0 <= v < start ==> v !in core.unseen
      {
        if index[start] == USIZE_MAX {
          Explore(start);
        }
        start := start + 1;
      }
      comps := components;
      assert core.unseen == {} by { SeenAll(adj, core, done, lowlink); }
      Conclude(adj, core, done, lowlink);
    }
  }

  ghost predicate OnStackIs(core: Core, onStack: seq<bool>)
  {
    |onStack| == |core.owner| && forall v :: 0 <= v < |onStack| ==> (onStack[v] <==> Open(core, v))
  }

  ghost predicate OnStackExcept(core: Core, onStack: seq<bool>, popped: seq<nat>)
  {
    |onStack| == |core.owner| && forall v :: 0 <= v < |onStack| ==> (onStack[v] <==> Open(core, v) && v !in popped)
  }

  /** The work stack is the path, each vertex with its number of edges looked at,
      and the vertex about to be entered. */
  ghost predicate WorkIs(work: seq<Frame>, path: seq<nat>, done: seq<nat>, next: int)
  {
    && |work| == |path| + (if next == -1 then 0 else 1)
    && (forall i :: 0 <= i < |path| ==> path[i] < |done| && work[i] == Frame(path[i], done[path[i]]))
    && (next != -1 ==> next >= 0 && work[|path|] == Frame(next, 0))
  }

  // ----- facts used by the methods -------------------------------------------

  ghost function StartCore(n: nat): Core
  {
    Core(seq(n, _ => USIZE_MAX), seq(n, _ => -1), Kahn.Below(n), [], [], [])
  }

  lemma StartInv(adj: Adjacency, low: seq<nat>)
    requires Closed(adj) && |adj| < USIZE_MAX && |low| == |adj|
    ensures Inv(adj, StartCore(|adj|), seq(|adj|, _ => 0), low, -1)
  {
    hide Reaches, StackOk, PathOk, ReachOk, LowOk;
    assert CoreOk(adj, StartCore(|adj|));
    hide CoreOk;
    StartRest(adj, low);
  }

  lemma StartRest(adj: Adjacency, low: seq<nat>)
    requires Closed(adj) && |low| == |adj| && CoreOk(adj, StartCore(|adj|))
    ensures StackOk(adj, StartCore(|adj|)) && PathOk(adj, StartCore(|adj|)) && ReachOk(adj, StartCore(|adj|))
    ensures LowOk(adj, StartCore(|adj|), seq(|adj|, _ => 0), low)
  {
    hide Reaches;
    var c := StartCore(|adj|);
    assert forall v :: 0 <= v < |adj| ==> !Open(c, v);
  }

  /** The first vertex of a traversal can be pushed when the path is empty. */
  lemma PushRoot(adj: Adjacency, core: Core, done: seq<nat>, low: seq<nat>, start: nat)
    requires Inv(adj, core, done, low, -1) && core.path == [] && start in core.unseen
    ensures Inv(adj, core, done, low, start)
  {
    hide StackOk, ReachOk, CompsList, CompsStrong;
  }

  lemma EnterMatches(adj: Adjacency, core: Core, onStack: seq<bool>, done: seq<nat>, low: seq<nat>, v: nat)
    requires Inv(adj, core, done, low, v) && OnStackIs(core, onStack)
    ensures CoreOk(adj, core) && v < |adj| && OnStackIs(Enter(adj, core, v), onStack[v := true])
    ensures |Enter(adj, core, v).unseen| == |core.unseen| - 1
  {
    hide Closed, StackOk, PathOk, ReachOk, CompsList, CompsStrong, DoneOk, LowOk;
    EnterCore(adj, core, v);
  }

  /** The bounds the method body relies on. */
  ghost predicate Sane(adj: Adjacency, core: Core, done: seq<nat>, low: seq<nat>, next: int)
  {
    && |core.index| == |core.owner| == |done| == |low| == |adj|
    && |core.unseen| <= |adj| < USIZE_MAX
    && (forall v :: 0 <= v < |adj| ==> (v in core.unseen <==> core.index[v] == USIZE_MAX))
    && (forall i :: 0 <= i < |core.path| ==> core.path[i] < |adj| && core.path[i] !in core.unseen)
    && (forall i, j :: 0 <= i < j < |core.path| ==> core.path[i] != core.path[j])
    && (forall v :: 0 <= v < |adj| ==> done[v] <= |adj[v]|)
    && (forall u, j :: 0 <= u < |adj| && 0 <= j < |adj[u]| ==> adj[u][j] < |adj|)
    && (next == -1 || (0 <= next < |adj| && next in core.unseen))
  }

  lemma InvSane(adj: Adjacency, core: Core, done: seq<nat>, low: seq<nat>, next: int)
    requires Inv(adj, core, done, low, next)
    ensures Sane(adj, core, done, low, next)
  {
    hide StackOk, ReachOk, CompsList, CompsStrong;
  }

  /** Out-edges still to be looked at along the path, plus one per vertex. */
  ghost function Weight(adj: Adjacency, path: seq<nat>, done: seq<nat>): nat
    requires |done| == |adj| && forall i :: 0 <= i < |path| ==> path[i] < |adj| && done[path[i]] <= |adj[path[i]]|
  {
    if path == [] then 0
    else
      var v := Last(path);
      assert forall i :: 0 <= i < |path| - 1 ==> path[..|path| - 1][i] == path[i];
      Weight(adj, path[..|path| - 1], done) + |adj[v]| - done[v] + 1
  }

  lemma {:induction false} WeightElsewhere(adj: Adjacency, path: seq<nat>, done: seq<nat>, v: nat, d: nat)
    requires |done| == |adj| && forall i :: 0 <= i < |path| ==> path[i] < |adj| && done[path[i]] <= |adj[path[i]]|
    requires v < |adj| && v !in path
    ensures Weight(adj, path, done[v := d]) == Weight(adj, path, done)
  {
    if path != [] {
      assert Last(path) in path;
      WeightElsewhere(adj, path[..|path| - 1], done, v, d);
    }
  }

  lemma WeightLooked(adj: Adjacency, core: Core, done: seq<nat>, low: seq<nat>)
    requires Sane(adj, core, done, low, -1) && HasEdge(adj, core, done)
    ensures Weight(adj, core.path, Looked(core, done)) < Weight(adj, core.path, done)
  {
    var m := |core.path| - 1;
    WeightElsewhere(adj, core.path[..m], done, core.path[m], done[core.path[m]] + 1);
  }

  lemma WeightFinish(adj: Adjacency, core: Core, done: seq<nat>, low: seq<nat>)
    requires Sane(adj, core, done, low, -1) && Finished(adj, core, done)
    ensures Weight(adj, core.path[..|core.path| - 1], done) < Weight(adj, core.path, done)
  {
  }

  /** The top of the work stack is the end of the path. */
  lemma TopFacts(adj: Adjacency, core: Core, done: seq<nat>, low: seq<nat>, work: seq<Frame>)
    requires Sane(adj, core, done, low, -1) && WorkIs(work, core.path, done, -1) && |work| > 0
    ensures |core.path| > 0 && Last(work).v == Last(core.path) < |adj| == |done|
    ensures Last(work).ei == done[Last(work).v] <= |adj[Last(work).v]|
  {
  }

  lemma OnStackAt(core: Core, onStack: seq<bool>, w: nat)
    requires OnStackIs(core, onStack) && w < |core.owner|
    ensures w < |onStack| && (onStack[w] <==> Open(core, w))
  {
  }

  /** Where the end of the path sits on the Tarjan stack. */
  lemma RootPosition(adj: Adjacency, core: Core, done: seq<nat>, low: seq<nat>) returns (k: nat)
    requires Inv(adj, core, done, low, -1) && |core.path| > 0
    ensures k < |core.stack| && core.stack[k] == Last(core.path)
    ensures forall i :: 0 <= i < |core.stack| ==> core.stack[i] < |core.owner| && Open(core, core.stack[i])
    ensures forall i, j :: 0 <= i < j < |core.stack| ==> core.stack[i] != core.stack[j]
  {
    assert Open(core, core.path[|core.path| - 1]);
    k :| 0 <= k < |core.stack| && core.stack[k] == Last(core.path);
  }

  ghost predicate Reversed(r: seq<nat>, s: seq<nat>)
  {
    |r| == |s| && forall i :: 0 <= i < |s| ==> r[|s| - 1 - i] == s[i]
  }

  lemma PopOne(core: Core, onStack: seq<bool>, comp: seq<nat>, i: nat)
    requires i < |core.stack| && core.stack[i] < |core.owner| == |onStack|
    requires Reversed(comp, core.stack[i + 1..]) && OnStackExcept(core, onStack, core.stack[i + 1..])
    ensures Reversed(comp + [core.stack[i]], core.stack[i..])
    ensures OnStackExcept(core, onStack[core.stack[i] := false], core.stack[i..])
  {
    assert core.stack[i..] == [core.stack[i]] + core.stack[i + 1..];
  }

  lemma PoppedSorted(core: Core, k: nat, comp: seq<nat>)
    requires forall i, j :: 0 <= i < j < |core.stack| ==> core.stack[i] != core.stack[j]
    requires k < |core.stack| && Reversed(comp, core.stack[k..])
    ensures SortedSet(Sorting.Sort(comp)) && forall x :: x in Sorting.Sort(comp) <==> x in core.stack[k..]
  {
    var s := core.stack[k..];
    forall i, j | 0 <= i < j < |comp|
      ensures comp[i] != comp[j]
    {
      assert comp[i] == s[|s| - 1 - i] && comp[j] == s[|s| - 1 - j];
      assert core.stack[k + |s| - 1 - j] != core.stack[k + |s| - 1 - i];
    }
    forall x ensures x in comp <==> x in s {
      if x in comp {
        var i :| 0 <= i < |comp| && comp[i] == x;
        assert s[|s| - 1 - i] == x;
      }
      if x in s {
        var i :| 0 <= i < |s| && s[i] == x;
        assert comp[|s| - 1 - i] == x;
      }
    }
    Sorting.SortDistinct(comp);
  }

  lemma PoppedOnStack(adj: Adjacency, core: Core, done: seq<nat>, low: seq<nat>, k: nat, comp: seq<nat>,
          onStack: seq<bool>)
    requires Inv(adj, core, done, low, -1) && |core.path| > 0 && |core.index| == |core.owner|
             && Last(core.path) < |core.index|
    requires k < |core.stack| && core.stack[k] == Last(core.path) && |onStack| == |core.owner|
    requires OnStackExcept(core, onStack, core.stack[k..])
    ensures OnStackIs(Close(core, k, comp), onStack)
  {
    forall x | 0 <= x < |onStack|
      ensures onStack[x] <==> Open(Close(core, k, comp), x)
    {
      PoppedIsTop(adj, core, k, x);
    }
  }

  lemma EmitComponent(adj: Adjacency, core: Core, done: seq<nat>, low: seq<nat>, k: nat, comp: seq<nat>,
          onStack: seq<bool>)
    requires Inv(adj, core, done, low, -1) && Finished(adj, core, done)
             && |low| == |core.index| == |core.owner| == |onStack|
    requires Last(core.path) < |core.index| && low[Last(core.path)] == core.index[Last(core.path)]
    requires forall i, j :: 0 <= i < j < |core.stack| ==> core.stack[i] != core.stack[j]
    requires k < |core.stack| && core.stack[k] == Last(core.path) && Reversed(comp, core.stack[k..])
    requires OnStackExcept(core, onStack, core.stack[k..])
    ensures forall v :: 0 <= v < |core.path| ==> core.path[v] < |low|
    ensures Inv(adj, Close(core, k, Sorting.Sort(comp)), done, PassUp(core, low), -1)
    ensures OnStackIs(Close(core, k, Sorting.Sort(comp)), onStack)
  {
    hide Inv, Reaches, SortedSet;
    PoppedSorted(core, k, comp);
    CloseKeepsInv(adj, core, done, low, k, Sorting.Sort(comp));
    PoppedOnStack(adj, core, done, low, k, Sorting.Sort(comp), onStack);
    InvSane(adj, core, done, low, -1);
  }

  // ----- reachability search --------------------------------------------------

  /** Everything visited is reached from `src`; `left` is what is not visited. */
  ghost predicate Visiting(adj: Adjacency, src: nat, visited: seq<bool>, stack: seq<nat>, left: set<nat>)
  {
    && |visited| == |adj| && src < |adj| && visited[src]
    && (forall x :: 0 <= x < |adj| && visited[x] ==> Reaches(adj, src, x))
    && (forall i :: 0 <= i < |stack| ==> stack[i] < |adj| && visited[stack[i]])
    && (forall x :: x in left <==> 0 <= x < |adj| && !visited[x])
  }

  /** The first `k` successors of `x` are visited. */
  ghost predicate Expanded(adj: Adjacency, visited: seq<bool>, x: nat, k: nat)
    requires x < |adj| && k <= |adj[x]|
  {
    forall j :: 0 <= j < k ==> adj[x][j] < |visited| && visited[adj[x][j]]
  }

  lemma EdgeAt(adj: Adjacency, v: nat, j: nat)
    requires Closed(adj) && v < |adj| && j < |adj[v]|
    ensures Edge(adj, v, adj[v][j])
  {
  }

  /** Every visited vertex that is neither on the stack nor `v` is not `dst` and has
      all its successors visited. */
  ghost predicate Settled(adj: Adjacency, dst: nat, visited: seq<bool>, stack: seq<nat>, v: nat)
    requires |visited| == |adj|
  {
    forall x :: 0 <= x < |adj| && visited[x] && x !in stack && x != v ==>
      x != dst && Expanded(adj, visited, x, |adj[x]|)
  }

  lemma TakeTop(adj: Adjacency, dst: nat, visited: seq<bool>, stack: seq<nat>)
    requires |visited| == |adj| && Settled(adj, dst, visited, stack, |adj|) && |stack| > 0
    ensures Settled(adj, dst, visited, stack[..|stack| - 1], Last(stack))
  {
    assert stack == stack[..|stack| - 1] + [Last(stack)];
  }

  lemma TopVisited(adj: Adjacency, src: nat, visited: seq<bool>, stack: seq<nat>, left: set<nat>)
    requires Visiting(adj, src, visited, stack, left) && |stack| > 0
    ensures Visiting(adj, src, visited, stack[..|stack| - 1], left)
    ensures Last(stack) < |adj| && visited[Last(stack)] && Reaches(adj, src, Last(stack))
  {
    hide Reaches;
  }

  lemma SettleTarget(adj: Adjacency, dst: nat, visited: seq<bool>, stack: seq<nat>, v: nat, to: nat)
    requires |visited| == |adj| && to < |adj| && Settled(adj, dst, visited, stack, v)
    ensures Settled(adj, dst, visited[to := true], stack + [to], v)
  {
    forall x | 0 <= x < |adj| && visited[to := true][x] && x !in stack + [to] && x != v
      ensures x != dst && Expanded(adj, visited[to := true], x, |adj[x]|)
    {
      assert Expanded(adj, visited, x, |adj[x]|);
    }
  }

  lemma SettleTop(adj: Adjacency, dst: nat, visited: seq<bool>, stack: seq<nat>, v: nat)
    requires |visited| == |adj| && v < |adj| && Settled(adj, dst, visited, stack, v)
    requires v != dst && Expanded(adj, visited, v, |adj[v]|)
    ensures Settled(adj, dst, visited, stack, |adj|)
  {
  }

  lemma VisitTarget(adj: Adjacency, src: nat, visited: seq<bool>, stack: seq<nat>, left: set<nat>, v: nat, to: nat)
    requires Visiting(adj, src, visited, stack, left) && v < |adj| && visited[v] && Edge(adj, v, to) && !visited[to]
    ensures Visiting(adj, src, visited[to := true], stack + [to], left - {to})
    ensures |left - {to}| < |left|
  {
    hide Reaches;
    ReachesEdge(adj, v, to);
    ReachesTrans(adj, src, v, to);
  }

  lemma NothingLeft(adj: Adjacency, src: nat, dst: nat, visited: seq<bool>, left: set<nat>)
    requires Visiting(adj, src, visited, [], left)
    requires Settled(adj, dst, visited, [], |adj|)
    ensures !Reaches(adj, src, dst)
  {
    if Reaches(adj, src, dst) {
      var inside := set x | 0 <= x < |adj| && visited[x];
      forall x, y | x in inside && Edge(adj, x, y)
        ensures y in inside
      {
        assert Expanded(adj, visited, x, |adj[x]|);
      }
      ReachesStays(adj, inside, src, dst);
    }
  }

  // ----- what the components are ---------------------------------------------

  ghost predicate IsPartition(n: nat, components: seq<seq<nat>>)
  {
    && (forall k, i :: 0 <= k < |components| && 0 <= i < |components[k]| ==> components[k][i] < n)
    && (forall v :: 0 <= v < n ==> Listed(components, v))
    && (forall k, l, v ::
      0 <= k < |components| && 0 <= l < |components| && v in components[k] && v in components[l] ==> k == l)
  }

  ghost predicate Listed(components: seq<seq<nat>>, v: nat)
  {
    exists k :: 0 <= k < |components| && v in components[k]
  }

  ghost predicate Together(components: seq<seq<nat>>, u: nat, v: nat)
  {
    exists k :: 0 <= k < |components| && u in components[k] && v in components[k]
  }

  /** An edge between two components leads to the one emitted earlier. */
  ghost predicate ReverseTopological(adj: Adjacency, components: seq<seq<nat>>)
  {
    forall k, l, u, v ::
      0 <= k < |components| && 0 <= l < |components| && u in components[k] && v in components[l] && Edge(adj, u, v) ==>
      l <= k
  }

  lemma AllOwned(adj: Adjacency, core: Core)
    requires CoreInv(adj, core) && core.path == [] && core.unseen == {}
    ensures forall v :: 0 <= v < |adj| ==> 0 <= core.owner[v] < |core.comps|
  {
    forall v | 0 <= v < |adj|
      ensures core.owner[v] != -1
    {
      assert !Anchored(adj, core, v);
    }
  }

  /** From a vertex only components emitted no later can be reached. */
  lemma ReachesEarlier(adj: Adjacency, owner: seq<int>, u: nat, v: nat)
    requires Closed(adj) && |owner| == |adj| && CompsStrong(adj, owner)
    requires u < |adj| && owner[u] >= 0 && Reaches(adj, u, v)
    ensures v < |adj| && 0 <= owner[v] <= owner[u]
  {
    var inside := set x | 0 <= x < |adj| && 0 <= owner[x] <= owner[u];
    forall x, y | x in inside && Edge(adj, x, y)
      ensures y in inside
    {
      var j :| 0 <= j < |adj[x]| && adj[x][j] == y;
      assert 0 <= owner[adj[x][j]] <= owner[x];
    }
    ReachesStays(adj, inside, u, v);
  }

  lemma TogetherIffMutual(adj: Adjacency, core: Core, u: nat, v: nat)
    requires CoreInv(adj, core) && core.path == [] && core.unseen == {}
    requires u < |adj| && v < |adj|
    ensures Together(core.comps, u, v) <==> Reaches(adj, u, v) && Reaches(adj, v, u)
  {
    AllOwned(adj, core);
    if Together(core.comps, u, v) {
      var k :| 0 <= k < |core.comps| && u in core.comps[k] && v in core.comps[k];
      assert core.owner[u] == k == core.owner[v];
    }
    if Reaches(adj, u, v) && Reaches(adj, v, u) {
      ReachesEarlier(adj, core.owner, u, v);
      ReachesEarlier(adj, core.owner, v, u);
      assert u in core.comps[core.owner[u]] && v in core.comps[core.owner[u]];
    }
  }

  lemma FinalPartition(adj: Adjacency, core: Core)
    requires CoreInv(adj, core) && core.path == [] && core.unseen == {}
    ensures IsPartition(|adj|, core.comps)
  {
    AllOwned(adj, core);
    hide ReachOk, StackOk, CompsStrong;
    forall k, v | 0 <= k < |core.comps| && v in core.comps[k]
      ensures core.owner[v] == k
    {
      var i :| 0 <= i < |core.comps[k]| && core.comps[k][i] == v;
    }
    forall v | 0 <= v < |adj|
      ensures Listed(core.comps, v)
    {
      assert v in core.comps[core.owner[v]];
    }
  }

  lemma FinalOrder(adj: Adjacency, core: Core)
    requires Closed(adj) && |core.owner| == |adj| && CompsList(|adj|, core.comps, core.owner)
             && CompsStrong(adj, core.owner)
    ensures ReverseTopological(adj, core.comps)
  {
    forall k, l, u, v |
      0 <= k < |core.comps| && 0 <= l < |core.comps| && u in core.comps[k] && v in core.comps[l] && Edge(adj, u, v)
      ensures l <= k
    {
      var j :| 0 <= j < |adj[u]| && adj[u][j] == v;
      assert core.owner[adj[u][j]] <= core.owner[u];
      var a :| 0 <= a < |core.comps[k]| && core.comps[k][a] == u;
      var b :| 0 <= b < |core.comps[l]| && core.comps[l][b] == v;
    }
  }

  lemma SeenAll(adj: Adjacency, core: Core, done: seq<nat>, low: seq<nat>)
    requires Inv(adj, core, done, low, -1) && forall v :: 0 <= v < |adj| ==> v !in core.unseen
    ensures core.unseen == {}
  {
    hide Reaches, StackOk, PathOk, ReachOk, CompsList, CompsStrong, DoneOk, LowOk;
  }

  /** What the invariant gives once every vertex has been explored. */
  lemma Conclude(adj: Adjacency, core: Core, done: seq<nat>, low: seq<nat>)
    requires Inv(adj, core, done, low, -1) && core.path == [] && core.unseen == {}
    ensures forall k :: 0 <= k < |core.comps| ==> |core.comps[k]| > 0 && SortedSet(core.comps[k])
    ensures IsPartition(|adj|, core.comps)
    ensures forall u, v :: 0 <= u < |adj| && 0 <= v < |adj| ==>
      (Together(core.comps, u, v) <==> Reaches(adj, u, v) && Reaches(adj, v, u))
    ensures ReverseTopological(adj, core.comps)
  {
    FinalPartition(adj, core);
    FinalOrder(adj, core);
    hide CoreOk, ReachOk, StackOk, CompsStrong;
    forall u, v | 0 <= u < |adj| && 0 <= v < |adj|
      ensures Together(core.comps, u, v) <==> Reaches(adj, u, v) && Reaches(adj, v, u)
    {
      TogetherIffMutual(adj, core, u, v);
    }
  }
}
