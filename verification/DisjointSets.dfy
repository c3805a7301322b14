/** Union-find with path compression and union by rank (src/dsu.rs). */
module DisjointSets {

  /** `rep` is the labelling the parent links describe: every root is its own
      label and every other element has the label of its parent. */
  ghost predicate Labels(parent: seq<nat>, rep: seq<nat>)
  {
    && |rep| == |parent|
    && (forall i :: 0 <= i < |parent| ==> parent[i] < |parent|)
    && (forall i :: 0 <= i < |rep| ==> rep[i] < |rep|)
    && (forall i {:trigger LabelAt(parent, rep, i)} :: 0 <= i < |parent| ==> LabelAt(parent, rep, i))
  }

  ghost predicate LabelAt(parent: seq<nat>, rep: seq<nat>, i: nat)
    requires |rep| == |parent| && i < |rep| && parent[i] < |rep| && rep[i] < |rep|
  {
    && rep[i] == rep[parent[i]]
    && (parent[i] == i <==> rep[i] == i)
    && parent[rep[i]] == rep[i]
  }

  /** Ranks strictly increase along parent links. */
  ghost predicate Ranked(parent: seq<nat>, rank: seq<nat>)
    requires forall i :: 0 <= i < |parent| ==> parent[i] < |parent|
  {
    |rank| == |parent| && forall i :: 0 <= i < |parent| && parent[i] != i ==> rank[i] < rank[parent[i]]
  }

  /** The elements labelled `r`. */
  ghost function Class(rep: seq<nat>, r: nat): set<nat>
  {
    set i | 0 <= i < |rep| && rep[i] == r
  }

  /** The elements that label themselves. */
  ghost function Roots(rep: seq<nat>): set<nat>
  {
    set i | 0 <= i < |rep| && rep[i] == i
  }

  function Pow2(n: nat): (p: nat)
    ensures p >= 1
  {
    if n == 0 then 1 else 2 * Pow2(n - 1)
  }

  /** Each root's size is the size of its class and at least 2 to its rank. */
  ghost predicate Sized(rep: seq<nat>, rank: seq<nat>, size: seq<nat>)
    requires |rank| == |rep|
  {
    && |size| == |rep|
    && forall r :: 0 <= r < |rep| && rep[r] == r ==> size[r] == |Class(rep, r)| && size[r] >= Pow2(rank[r])
  }

  // ----- the reference: what a set of unions connects ------------------------

  ghost predicate Chain(pairs: set<(nat, nat)>, p: seq<nat>)
  {
    |p| > 0 && forall i, j :: 0 <= i && j == i + 1 && j < |p| ==> (p[i], p[j]) in pairs || (p[j], p[i]) in pairs
  }

  ghost predicate ChainFromTo(pairs: set<(nat, nat)>, p: seq<nat>, a: nat, b: nat)
  {
    Chain(pairs, p) && p[0] == a && p[|p| - 1] == b
  }

  /** `a` and `b` are joined by a chain of united pairs, in either direction. */
  ghost predicate Linked(pairs: set<(nat, nat)>, a: nat, b: nat)
  {
    exists p :: ChainFromTo(pairs, p, a, b)
  }

  /** The labels tell exactly which elements the unions have linked. */
  ghost predicate Partitions(rep: seq<nat>, pairs: set<(nat, nat)>)
  {
    && (forall q :: q in pairs ==> q.0 < |rep| && q.1 < |rep|)
    && (forall a, b {:trigger Linked(pairs, a, b)} :: 0 <= a < |rep| && 0 <= b < |rep| ==>
      (Linked(pairs, a, b) <==> rep[a] == rep[b]))
  }

  lemma LinkedSelf(pairs: set<(nat, nat)>, a: nat)
    ensures Linked(pairs, a, a)
  {
    assert ChainFromTo(pairs, [a], a, a);
  }

  lemma LinkedTrans(pairs: set<(nat, nat)>, a: nat, b: nat, c: nat)
    requires Linked(pairs, a, b) && Linked(pairs, b, c)
    ensures Linked(pairs, a, c)
  {
    var p :| ChainFromTo(pairs, p, a, b);
    var q :| ChainFromTo(pairs, q, b, c);
    var r := p + q[1..];
    forall i, j | 0 <= i && j == i + 1 && j < |r|
      ensures (r[i], r[j]) in pairs || (r[j], r[i]) in pairs
    {
      if j < |p| {
        assert r[i] == p[i] && r[j] == p[j];
      } else {
        assert r[j] == q[j - |p| + 1] && r[i] == q[i - |p| + 1];
      }
    }
    assert ChainFromTo(pairs, r, a, c);
  }

  lemma LinkedSym(pairs: set<(nat, nat)>, a: nat, b: nat)
    requires Linked(pairs, a, b)
    ensures Linked(pairs, b, a)
  {
    var p :| ChainFromTo(pairs, p, a, b);
    var r := seq(|p|, i requires 0 <= i < |p| => p[|p| - 1 - i]);
    forall i, j | 0 <= i && j == i + 1 && j < |r|
      ensures (r[i], r[j]) in pairs || (r[j], r[i]) in pairs
    {
      assert r[i] == p[|p| - 1 - i] && r[j] == p[|p| - 1 - j];
    }
    assert ChainFromTo(pairs, r, b, a);
  }

  /** More pairs link no less. */
  lemma LinkedMore(pairs: set<(nat, nat)>, more: set<(nat, nat)>, a: nat, b: nat)
    requires Linked(pairs, a, b) && pairs <= more
    ensures Linked(more, a, b)
  {
    var p :| ChainFromTo(pairs, p, a, b);
    assert ChainFromTo(more, p, a, b);
  }

  /** A label that agrees on every united pair agrees along every chain. */
  lemma {:induction false} ChainAgrees(rep: seq<nat>, pairs: set<(nat, nat)>, p: seq<nat>, k: nat)
    requires forall q :: q in pairs ==> q.0 < |rep| && q.1 < |rep| && rep[q.0] == rep[q.1]
    requires Chain(pairs, p) && k < |p| && p[0] < |rep|
    ensures p[k] < |rep| && rep[p[k]] == rep[p[0]]
  {
    if k > 0 {
      ChainAgrees(rep, pairs, p, k - 1);
      assert (p[k - 1], p[k]) in pairs || (p[k], p[k - 1]) in pairs;
    }
  }

  lemma PairLinked(pairs: set<(nat, nat)>, a: nat, b: nat)
    requires (a, b) in pairs
    ensures Linked(pairs, a, b)
  {
    assert ChainFromTo(pairs, [a, b], a, b);
  }

  lemma UniteLinked(rep: seq<nat>, pairs: set<(nat, nat)>, a: nat, b: nat, x: nat, y: nat)
    requires Partitions(rep, pairs) && a < |rep| && b < |rep| && x < |rep| && y < |rep|
    requires rep[x] == rep[a] && rep[y] == rep[b]
    ensures Linked(pairs + {(a, b)}, x, y)
  {
    hide Linked;
    var more := pairs + {(a, b)};
    assert Linked(pairs, x, a) && Linked(pairs, b, y);
    LinkedMore(pairs, more, x, a);
    LinkedMore(pairs, more, b, y);
    PairLinked(more, a, b);
    LinkedTrans(more, x, a, b);
    LinkedTrans(more, x, b, y);
  }

  lemma UniteSame(rep: seq<nat>, pairs: set<(nat, nat)>, a: nat, b: nat)
    requires Partitions(rep, pairs) && a < |rep| && b < |rep| && rep[a] == rep[b]
    ensures Partitions(rep, pairs + {(a, b)})
  {
    assert Relabel(rep, rep[a], rep[b]) == rep;
    UnitePartitions(rep, pairs, a, b, rep);
  }

  ghost function LinkedTo(n: nat, pairs: set<(nat, nat)>, x: nat): set<nat>
  {
    set y | 0 <= y < n && Linked(pairs, y, x)
  }

  lemma ClassIsLinked(rep: seq<nat>, pairs: set<(nat, nat)>, x: nat)
    requires Partitions(rep, pairs) && x < |rep|
    ensures Class(rep, rep[x]) == LinkedTo(|rep|, pairs, x)
  {
    hide Linked;
  }

  /** Merging the classes of `a` and `b` is what uniting the pair asks for. */
  lemma UnitePartitions(rep: seq<nat>, pairs: set<(nat, nat)>, a: nat, b: nat, rep': seq<nat>)
    requires Partitions(rep, pairs) && a < |rep| && b < |rep|
    requires rep' == Relabel(rep, rep[a], rep[b]) || rep' == Relabel(rep, rep[b], rep[a])
    ensures Partitions(rep', pairs + {(a, b)})
  {
    var more := pairs + {(a, b)};
    forall q | q in more
      ensures q.0 < |rep'| && q.1 < |rep'| && rep'[q.0] == rep'[q.1]
    {
      if q in pairs {
        PairLinked(pairs, q.0, q.1);
      }
    }
    forall x, y | 0 <= x < |rep| && 0 <= y < |rep|
      ensures Linked(more, x, y) <==> rep'[x] == rep'[y]
    {
      UniteAt(rep, pairs, a, b, rep', x, y);
    }
  }

  lemma UniteAt(rep: seq<nat>, pairs: set<(nat, nat)>, a: nat, b: nat, rep': seq<nat>, x: nat, y: nat)
    requires Partitions(rep, pairs) && a < |rep| && b < |rep| && x < |rep| && y < |rep|
    requires rep' == Relabel(rep, rep[a], rep[b]) || rep' == Relabel(rep, rep[b], rep[a])
    requires forall q :: q in pairs + {(a, b)} ==> q.0 < |rep'| && q.1 < |rep'| && rep'[q.0] == rep'[q.1]
    ensures Linked(pairs + {(a, b)}, x, y) <==> rep'[x] == rep'[y]
  {
    var more := pairs + {(a, b)};
    if Linked(more, x, y) {
      var p :| ChainFromTo(more, p, x, y);
      ChainAgrees(rep', more, p, |p| - 1);
    }
    hide Linked;
    if rep'[x] == rep'[y] {
      if rep[x] == rep[y] {
        assert Linked(pairs, x, y);
        LinkedMore(pairs, more, x, y);
      } else if rep[x] == rep[a] && rep[y] == rep[b] {
        UniteLinked(rep, pairs, a, b, x, y);
      } else {
        UniteLinked(rep, pairs, a, b, y, x);
        LinkedSym(more, y, x);
      }
    }
  }

  lemma GrowPartitions(rep: seq<nat>, pairs: set<(nat, nat)>)
    requires Partitions(rep, pairs) && forall i :: 0 <= i < |rep| ==> rep[i] < |rep|
    ensures Partitions(rep + [|rep|], pairs)
  {
    var rep' := rep + [|rep|];
    forall x, y | 0 <= x < |rep'| && 0 <= y < |rep'|
      ensures Linked(pairs, x, y) <==> rep'[x] == rep'[y]
    {
      if Linked(pairs, x, y) {
        var p :| ChainFromTo(pairs, p, x, y);
        forall q | q in pairs ensures rep'[q.0] == rep'[q.1] { PairLinked(pairs, q.0, q.1); }
        ChainAgrees(rep', pairs, p, |p| - 1);
      } else if x == y {
        LinkedSelf(pairs, x);
      }
    }
  }

  lemma StartPartitions(n: nat)
    ensures Partitions(Identity(n), {})
  {
    forall x, y | 0 <= x < n && 0 <= y < n
      ensures Linked({}, x, y) <==> x == y
    {
      if Linked({}, x, y) {
        var p :| ChainFromTo({}, p, x, y);
        ChainAgrees(Identity(n), {}, p, |p| - 1);
      } else {
        LinkedSelf({}, x);
      }
    }
  }

  class DisjointSet {
    var parent: seq<nat>
    var rank: seq<nat>
    var size: seq<nat>
    var sets: nat
    ghost var rep: seq<nat>
    ghost var united: set<(nat, nat)>  // every pair passed to `Union` so far

    ghost predicate Valid()
      reads this
    {
      && Labels(parent, rep)
      && Ranked(parent, rank)
      && Sized(rep, rank, size)
      && sets == |Roots(rep)|
      && Partitions(rep, united)
    }

    /** Lines 21-28: `n` singletons. */
    constructor (n: nat)
      ensures Valid() && rep == Identity(n) && sets == n && united == {}
    {
      parent := Identity(n);
      rank := seq(n, _ => 0);
      size := seq(n, _ => 1);
      sets := n;
      rep := Identity(n);
      united := {};
      new;
      StartPartitions(n);
      hide Partitions;
      IdentityRoots(n);
      forall r | 0 <= r < n ensures |Class(rep, r)| == 1 { assert Class(rep, r) == {r}; }
    }

    /** Lines 41-49: grow to at least `n` elements. */
    method Ensure(n: nat)
      requires Valid()
      modifies this
      ensures Valid()
      ensures |rep| == if n > |old(rep)| then n else |old(rep)|
      ensures forall i :: 0 <= i < |rep| ==> rep[i] == if i < |old(rep)| then old(rep)[i] else i
      ensures sets == old(sets) + (|rep| - |old(rep)|) && united == old(united)
    {
      while |parent| < n
        invariant Valid() && |parent| == |rep| && |old(rep)| <= |rep| && (|rep| <= n || |rep| == |old(rep)|)
        invariant forall i :: 0 <= i < |rep| ==> rep[i] == if i < |old(rep)| then old(rep)[i] else i
        invariant sets == old(sets) + (|rep| - |old(rep)|) && united == old(united)
      {
        hide Valid;
        AddSingleton();
      }
    }

    method AddSingleton()
      requires Valid()
      modifies this
      ensures Valid() && rep == old(rep) + [|old(rep)|] && |parent| == |rep| && sets == old(sets) + 1
      ensures united == old(united)
    {
      GrowPartitions(rep, united);
      hide Labels, Ranked, Sized, Roots, Partitions;
      GrowLabels(parent, rank, size, rep);
      var i := |parent|;
      parent, rank, size := parent + [i], rank + [0], size + [1];
      sets := sets + 1;
      rep := rep + [i];
    }

    /** Lines 52-65. Everything on the way to the root is linked to it directly, and no
        label, rank or size changes. */
    method Find(x: nat) returns (root: nat)
      requires Valid() && x < |parent|
      modifies this`parent
      ensures Valid() && |parent| == |old(parent)|
      ensures root == rep[x] && parent[x] == root
      ensures forall n: nat :: parent[Up(old(parent), x, n)] == root
      ensures forall i :: 0 <= i < |parent| ==> parent[i] == old(parent)[i] || parent[i] == rep[i]
    {
      hide Labels, Ranked, Sized, Roots, Partitions;
      InRange(parent, rep);
      root := x;
      LinkFacts(parent, rank, rep, x);
      while parent[root] != root
        invariant parent == old(parent) && root < |parent| && rep[root] == rep[x]
        decreases MaxRank(rank) - rank[root]
      {
        LinkFacts(parent, rank, rep, root);
        root := parent[root];
      }
      LinkFacts(parent, rank, rep, root);
      Compress(x, root);
    }

    /** Lines 58-63: links everything on the way from `x` to the root. */
    method Compress(x: nat, root: nat)
      requires Valid() && |rep| == |parent| && x < |parent| && root < |parent| && root == rep[x] && parent[root] == root
      requires forall i :: 0 <= i < |parent| ==> parent[i] < |parent|
      modifies this`parent
      ensures Valid() && |parent| == |old(parent)| && parent[x] == root
      ensures forall n: nat :: parent[Up(old(parent), x, n)] == root
      ensures forall i :: 0 <= i < |parent| ==> parent[i] == old(parent)[i] || parent[i] == rep[i]
    {
      hide Labels, Ranked, Sized, Roots, Partitions, Up, Above;
      var cur: nat := x;
      ghost var steps, before := 0, parent;
      LinkFacts(parent, rank, rep, cur);
      assert Up(before, x, 0) == x && Above(before, parent, rank, cur) by {
        assert parent == before;
        UpStep(before, x, 0);
        SameAbove(before, rank, cur);
      }
      while parent[cur] != root
        invariant Valid() && |parent| == |before| == |rep| && cur < |parent| && root < |parent|
        invariant rep[cur] == root && parent[root] == root
        invariant cur == x || parent[x] == root
        invariant forall i :: 0 <= i < |parent| ==> parent[i] == before[i] || parent[i] == rep[i]
        invariant cur == Up(before, x, steps) && forall n: nat :: n < steps ==> parent[Up(before, x, n)] == root
        invariant Above(before, parent, rank, cur)
        decreases MaxRank(rank) - rank[cur]
      {
        LinkFacts(parent, rank, rep, cur);
        StillAbove(before, parent, rank, cur, root);
        UpStep(before, x, steps);
        var next := parent[cur];
        CompressRanked(parent, rank, rep, cur);
        parent := parent[cur := root];
        cur := next;
        steps := steps + 1;
        LinkFacts(parent, rank, rep, cur);
      }
      StillAbove(before, parent, rank, cur, root);
      LinkFacts(parent, rank, rep, cur);
      LinkedAsBefore(before, parent, rank, cur, root);
      AllUp(before, parent, x, steps, root);
    }

    /** Lines 69-87: the two classes become one, and nothing else changes. */
    method Union(a: nat, b: nat) returns (merged: bool)
      requires Valid() && a < |parent| && b < |parent|
      modifies this
      ensures Valid()
      ensures merged <==> old(rep[a]) != old(rep[b])
      ensures !merged ==> rep == old(rep) && sets == old(sets)
      ensures merged ==> sets == old(sets) - 1
      ensures |old(rank)| == |old(rep)| && old(rep[a]) < |old(rep)| && old(rep[b]) < |old(rep)|
      ensures merged ==> rep == Hung(old(rep), old(rank), old(rep[a]), old(rep[b]))
      ensures rank ==
        if merged
          && old(rank)[old(rep[a])] == old(rank)[old(rep[b])] then old(rank)[old(rep[a]) := old(rank)[old(rep[a])] + 1]
        else old(rank)
      ensures united == old(united) + {(a, b)}
    {
      hide Labels, Ranked, Sized, Roots, Relabel, Partitions;
      LinkFacts(parent, rank, rep, a);
      var ra := Find(a);
      var rb := Find(b);
      LinkFacts(parent, rank, rep, a);
      LinkFacts(parent, rank, rep, b);
      if ra == rb {
        UniteSame(rep, united, a, b);
        united := united + {(a, b)};
        return false;
      }
      var big, small := ra, rb;
      if rank[ra] < rank[rb] {
        big, small := rb, ra;
      }
      UnitePartitions(rep, united, a, b, Relabel(rep, small, big));
      united := united + {(a, b)};
      Link(big, small);
      merged := true;
    }

    /** Lines 80-85: one root below another. */
    method Link(big: nat, small: nat)
      requires Labels(parent, rep) && Ranked(parent, rank) && Sized(rep, rank, size) && sets == |Roots(rep)|
      requires big < |parent| && small < |parent| && big != small && parent[big] == big && parent[small] == small
      requires rank[big] >= rank[small] && Partitions(Relabel(rep, small, big), united)
      modifies this`parent, this`rank, this`size, this`sets, this`rep
      ensures Valid() && rep == Relabel(old(rep), small, big) && sets == old(sets) - 1
      ensures rank == if old(rank)[big] == old(rank)[small] then old(rank)[big := old(rank)[big] + 1] else old(rank)
    {
      hide Labels, Ranked, Sized, Roots, Relabel, Partitions;
      LinkFacts(parent, rank, rep, big);
      SizeAt(rep, rank, size, big);
      LinkValid(parent, rank, size, rep, big, small);
      parent := parent[small := big];
      size := size[big := size[big] + size[small]];
      if rank[big] == rank[small] {
        rank := rank[big := rank[big] + 1];
      }
      sets := sets - 1;
      rep := Relabel(rep, small, big);
    }

    /** Lines 90-92. */
    method Connected(a: nat, b: nat) returns (same: bool)
      requires Valid() && a < |parent| && b < |parent|
      modifies this`parent
      ensures Valid() && |parent| == |old(parent)|
      ensures same <==> Linked(united, a, b)
    {
      hide Ranked, Sized, Roots, Linked;
      var ra := Find(a);
      var rb := Find(b);
      same := ra == rb;
    }

    /** Lines 95-98. */
    method SetSize(x: nat) returns (n: nat)
      requires Valid() && x < |parent|
      modifies this`parent
      ensures Valid() && |parent| == |old(parent)|
      ensures n == |LinkedTo(|parent|, united, x)|
    {
      hide Labels, Ranked, Sized, Roots, Class, Partitions;
      LinkFacts(parent, rank, rep, x);
      var r := Find(x);
      LinkFacts(parent, rank, rep, x);
      SizeAt(rep, rank, size, r);
      ClassIsLinked(rep, united, x);
      n := size[r];
    }
  }

  function Identity(n: nat): (s: seq<nat>)
    ensures |s| == n && forall i :: 0 <= i < n ==> s[i] == i
  {
    seq(n, i => i)
  }

  /** Root `a` takes over root `b`, unless its rank is lower. */
  ghost function Hung(rep: seq<nat>, rank: seq<nat>, a: nat, b: nat): seq<nat>
    requires a < |rank| && b < |rank|
  {
    if rank[a] >= rank[b] then Relabel(rep, b, a) else Relabel(rep, a, b)
  }

  /** Everything labelled `from` becomes labelled `to`. */
  ghost function Relabel(rep: seq<nat>, from: nat, to: nat): (r: seq<nat>)
    ensures |r| == |rep| && forall i :: 0 <= i < |rep| ==> r[i] == if rep[i] == from then to else rep[i]
  {
    seq(|rep|, i requires 0 <= i < |rep| => if rep[i] == from then to else rep[i])
  }

  ghost function MaxRank(rank: seq<nat>): nat
  {
    if rank == [] then 0
    else
      var m := MaxRank(rank[..|rank| - 1]);
      if m < rank[|rank| - 1] then rank[|rank| - 1] else m
  }

  lemma {:induction false} MaxRankBound(rank: seq<nat>, i: nat)
    requires i < |rank|
    ensures rank[i] <= MaxRank(rank)
  {
    if i < |rank| - 1 {
      MaxRankBound(rank[..|rank| - 1], i);
    }
  }

  lemma {:induction false} IdentityRoots(n: nat)
    ensures |Roots(Identity(n))| == n
  {
    if n > 0 {
      IdentityRoots(n - 1);
      assert Roots(Identity(n)) == Roots(Identity(n - 1)) + {n - 1};
    }
  }

  lemma GrowSized(rep: seq<nat>, rank: seq<nat>, size: seq<nat>)
    requires |rank| == |rep| && Sized(rep, rank, size) && forall i :: 0 <= i < |rep| ==> rep[i] < |rep|
    ensures Sized(rep + [|rep|], rank + [0], size + [1])
    ensures |Roots(rep + [|rep|])| == |Roots(rep)| + 1
  {
    var rep' := rep + [|rep|];
    assert Roots(rep') == Roots(rep) + {|rep|};
    forall r | 0 <= r < |rep'|
      ensures Class(rep', r) == if r < |rep| then Class(rep, r) else {r}
    {
    }
  }

  lemma GrowLabels(parent: seq<nat>, rank: seq<nat>, size: seq<nat>, rep: seq<nat>)
    requires Labels(parent, rep) && Ranked(parent, rank) && Sized(rep, rank, size)
    ensures Labels(parent + [|parent|], rep + [|rep|]) && Ranked(parent + [|parent|], rank + [0])
    ensures Sized(rep + [|rep|], rank + [0], size + [1])
    ensures |Roots(rep + [|rep|])| == |Roots(rep)| + 1 && |rep| == |parent|
  {
    hide Sized, Roots;
    GrowSized(rep, rank, size);
    forall j | 0 <= j <= |parent|
      ensures LabelAt(parent + [|parent|], rep + [|rep|], j)
    {
      assert j < |parent| ==> LabelAt(parent, rep, j);
    }
  }

  /** A root has a higher rank than every other element of its class. */
  lemma RootRank(parent: seq<nat>, rank: seq<nat>, rep: seq<nat>, i: nat)
    requires Labels(parent, rep) && Ranked(parent, rank) && i < |parent|
    ensures rank[i] <= rank[rep[i]] && (rep[i] != i ==> rank[i] < rank[rep[i]])
    decreases MaxRank(rank) - rank[i]
  {
    assert LabelAt(parent, rep, i);
    if parent[i] != i {
      MaxRankBound(rank, parent[i]);
      RootRank(parent, rank, rep, parent[i]);
    }
  }

  /** The element `n` links up. */
  ghost function Up(parent: seq<nat>, x: nat, n: nat): (r: nat)
    requires x < |parent| && forall i :: 0 <= i < |parent| ==> parent[i] < |parent|
    ensures r < |parent|
  {
    if n == 0 then x else parent[Up(parent, x, n - 1)]
  }

  lemma UpStep(parent: seq<nat>, x: nat, n: nat)
    requires x < |parent| && forall i :: 0 <= i < |parent| ==> parent[i] < |parent|
    ensures Up(parent, x, 0) == x && Up(parent, x, n + 1) == parent[Up(parent, x, n)]
  {
  }

  /** Elements of at least the rank of `cur` are linked as before. */
  ghost predicate Above(before: seq<nat>, parent: seq<nat>, rank: seq<nat>, cur: nat)
  {
    |rank| == |parent| == |before| && cur < |rank| && forall i :: 0 <= i < |parent| && rank[i] >= rank[cur] ==>
      parent[i] == before[i]
  }

  lemma SameAbove(before: seq<nat>, rank: seq<nat>, cur: nat)
    requires |rank| == |before| && cur < |rank|
    ensures Above(before, before, rank, cur)
  {
  }

  lemma StillAbove(before: seq<nat>, parent: seq<nat>, rank: seq<nat>, cur: nat, root: nat)
    requires Above(before, parent, rank, cur) && parent[cur] < |parent|
    ensures parent[cur] == before[cur]
    ensures rank[cur] < rank[parent[cur]] ==> Above(before, parent[cur := root], rank, parent[cur])
  {
  }

  lemma LinkedAsBefore(before: seq<nat>, parent: seq<nat>, rank: seq<nat>, cur: nat, i: nat)
    requires Above(before, parent, rank, cur) && i < |rank| && rank[i] >= rank[cur]
    ensures parent[i] == before[i]
  {
  }

  lemma InRange(parent: seq<nat>, rep: seq<nat>)
    requires Labels(parent, rep)
    ensures forall i :: 0 <= i < |parent| ==> parent[i] < |parent|
  {
  }

  /** Beyond a link to the root there is only the root. */
  lemma AllUp(before: seq<nat>, parent: seq<nat>, x: nat, steps: nat, root: nat)
    requires x < |before| == |parent| && root < |parent| && forall i :: 0 <= i < |before| ==> before[i] < |before|
    requires before[root] == root && before[Up(before, x, steps)] == root && parent[Up(before, x, steps)] == root
             && parent[root] == root
    requires forall n: nat :: n < steps ==> parent[Up(before, x, n)] == root
    ensures forall n: nat :: parent[Up(before, x, n)] == root
  {
    forall n: nat ensures parent[Up(before, x, n)] == root {
      if n > steps {
        UpIsRoot(before, x, steps, n, root);
      }
    }
  }

  lemma {:induction false} UpIsRoot(before: seq<nat>, x: nat, steps: nat, n: nat, root: nat)
    requires x < |before| && root < |before| && forall i :: 0 <= i < |before| ==> before[i] < |before|
    requires before[root] == root && before[Up(before, x, steps)] == root && n > steps
    ensures Up(before, x, n) == root
  {
    if n > steps + 1 {
      UpIsRoot(before, x, steps, n - 1, root);
    }
  }

  /** What the methods use about one element. */
  lemma LinkFacts(parent: seq<nat>, rank: seq<nat>, rep: seq<nat>, i: nat)
    requires Labels(parent, rep) && Ranked(parent, rank) && i < |parent|
    ensures |rank| == |rep| == |parent| && parent[i] < |parent| && rep[i] < |rep| && LabelAt(parent, rep, i)
    ensures parent[i] != i ==> rank[i] < rank[parent[i]] <= MaxRank(rank)
  {
    assert LabelAt(parent, rep, i);
    MaxRankBound(rank, parent[i]);
  }

  lemma SizeAt(rep: seq<nat>, rank: seq<nat>, size: seq<nat>, r: nat)
    requires |rank| == |rep| && Sized(rep, rank, size) && r < |rep| && rep[r] == r
    ensures |size| == |rep| && size[r] == |Class(rep, r)| && size[r] >= Pow2(rank[r])
  {
  }

  lemma CompressRanked(parent: seq<nat>, rank: seq<nat>, rep: seq<nat>, i: nat)
    requires Labels(parent, rep) && Ranked(parent, rank) && i < |parent| && rep[i] != i
    ensures Labels(parent[i := rep[i]], rep) && Ranked(parent[i := rep[i]], rank)
  {
    RootRank(parent, rank, rep, i);
    assert LabelAt(parent, rep, i);
    var parent' := parent[i := rep[i]];
    forall j | 0 <= j < |parent|
      ensures LabelAt(parent', rep, j)
    {
      assert LabelAt(parent, rep, j) && LabelAt(parent, rep, rep[i]);
    }
  }

  lemma LinkLabels(parent: seq<nat>, rank: seq<nat>, rep: seq<nat>, big: nat, small: nat)
    requires Labels(parent, rep) && Ranked(parent, rank) && big < |parent| && small < |parent| && big != small
    requires parent[big] == big && parent[small] == small && rank[big] >= rank[small]
    ensures Labels(parent[small := big], Relabel(rep, small, big))
    ensures Ranked(parent[small := big], if rank[big] == rank[small] then rank[big := rank[big] + 1] else rank)
  {
    var parent', rep' := parent[small := big], Relabel(rep, small, big);
    assert LabelAt(parent, rep, big) && LabelAt(parent, rep, small);
    forall j | 0 <= j < |parent|
      ensures LabelAt(parent', rep', j)
    {
      assert LabelAt(parent, rep, j);
    }
  }

  lemma MergedClasses(rep: seq<nat>, big: nat, small: nat)
    requires big < |rep| && small < |rep| && big != small && rep[big] == big && rep[small] == small
    ensures |Class(Relabel(rep, small, big), big)| == |Class(rep, big)| + |Class(rep, small)|
    ensures forall r :: 0 <= r < |rep| && r != big && r != small ==> Class(Relabel(rep, small, big), r) == Class(rep, r)
    ensures |Roots(Relabel(rep, small, big))| == |Roots(rep)| - 1
  {
    var rep' := Relabel(rep, small, big);
    assert Roots(rep') == Roots(rep) - {small} && small in Roots(rep);
    assert Class(rep', big) == Class(rep, big) + Class(rep, small);
    assert Class(rep, big) !! Class(rep, small);
  }

  lemma LinkSized(rank: seq<nat>, size: seq<nat>, rep: seq<nat>, big: nat, small: nat)
    requires |rank| == |rep| && Sized(rep, rank, size)
    requires big < |rep| && small < |rep| && big != small && rep[big] == big && rep[small] == small
             && rank[big] >= rank[small]
    ensures Sized(Relabel(rep, small, big), if rank[big] == rank[small] then rank[big := rank[big] + 1] else rank,
                  size[big := size[big] + size[small]])
  {
    MergedClasses(rep, big, small);
    hide Class;
  }

  /** Hanging one root below another of at least its rank merges the two classes. */
  lemma LinkValid(parent: seq<nat>, rank: seq<nat>, size: seq<nat>, rep: seq<nat>, big: nat, small: nat)
    requires Labels(parent, rep) && Ranked(parent, rank) && Sized(rep, rank, size)
    requires big < |parent| && small < |parent| && big != small
    requires parent[big] == big && parent[small] == small && rank[big] >= rank[small]
    ensures Labels(parent[small := big], Relabel(rep, small, big))
    ensures Ranked(parent[small := big], if rank[big] == rank[small] then rank[big := rank[big] + 1] else rank)
    ensures Sized(Relabel(rep, small, big), if rank[big] == rank[small] then rank[big := rank[big] + 1] else rank,
                  size[big := size[big] + size[small]])
    ensures |Roots(Relabel(rep, small, big))| == |Roots(rep)| - 1
  {
    hide Sized, Class, Roots;
    assert LabelAt(parent, rep, big) && LabelAt(parent, rep, small);
    LinkLabels(parent, rank, rep, big, small);
    LinkSized(rank, size, rep, big, small);
    MergedClasses(rep, big, small);
  }

  /** Union by rank keeps every rank within the logarithm of the number of elements,
      which bounds the length of every search for a root. */
  lemma RanksLogarithmic(parent: seq<nat>, rank: seq<nat>, size: seq<nat>, rep: seq<nat>, i: nat)
    requires Labels(parent, rep) && Ranked(parent, rank) && Sized(rep, rank, size) && i < |parent|
    ensures Pow2(rank[i]) <= size[rep[i]] <= |parent|
  {
    RootRank(parent, rank, rep, i);
    assert LabelAt(parent, rep, i) && LabelAt(parent, rep, rep[i]);
    Pow2Monotone(rank[i], rank[rep[i]]);
    ClassBound(rep, rep[i]);
  }

  lemma {:induction false} Pow2Monotone(a: nat, b: nat)
    requires a <= b
    ensures Pow2(a) <= Pow2(b)
  {
    if a < b {
      Pow2Monotone(a, b - 1);
    }
  }

  lemma {:induction false} ClassBound(rep: seq<nat>, r: nat)
    ensures |Class(rep, r)| <= |rep|
  {
    if rep != [] {
      var t := rep[..|rep| - 1];
      ClassBound(t, r);
      assert Class(rep, r) == Class(t, r) + if rep[|rep| - 1] == r then {|rep| - 1} else {};
    }
  }
}
