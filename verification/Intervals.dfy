/** The augmented interval tree (src/interval.rs): a flat vector of nodes over the sorted
    intervals. A pruned query finds exactly what a scan of the sorted list would. */
module Intervals {
  import opened Integers

  datatype Interval = Interval(lo: I64, hi: I64, id: nat)

  datatype TreeNode = TreeNode(interval: Interval, maxHi: I64, left: int, right: int)

  const NONE: int := -1
  const MAX_NODES: nat := 0x7FFF_FFFF

  /** Lines 36-38. */
  predicate Contains(v: Interval, x: int)
  {
    v.lo <= x <= v.hi
  }

  /** Lines 22-28. */
  function NewInterval(lo: I64, hi: I64, id: nat): (r: Interval)
    ensures r.lo <= r.hi && r.id == id
    ensures forall x: int :: Contains(r, x) <==> lo <= x <= hi || hi <= x <= lo
  {
    if lo <= hi then Interval(lo, hi, id) else Interval(hi, lo, id)
  }

  /** Lines 31-33. */
  predicate Overlaps(v: Interval, from: I64, to: I64)
  {
    v.lo <= to && from <= v.hi
  }

  /** For a proper interval and a proper query, overlapping is having a number in common. */
  lemma OverlapsIffMeets(v: Interval, from: I64, to: I64)
    requires v.lo <= v.hi && from <= to
    ensures Overlaps(v, from, to) <==> exists x: int :: Contains(v, x) && from <= x <= to
  {
    var x: int := if v.lo < from then from else v.lo;
    assert Overlaps(v, from, to) ==> Contains(v, x) && from <= x <= to;
  }

  // ----- sorting by (lo, hi) -----------------------------------------------------------------

  predicate Before(a: Interval, b: Interval)
  {
    a.lo < b.lo || (a.lo == b.lo && a.hi <= b.hi)
  }

  ghost predicate Sorted(s: seq<Interval>)
  {
    forall i, j :: 0 <= i < j < |s| ==> Before(s[i], s[j])
  }

  /** `sort_by_key`, by its contract: equal keys keep their order. */
  function Placed(v: Interval, s: seq<Interval>): (r: seq<Interval>)
    ensures |r| == |s| + 1
    ensures r[0] == v || (s != [] && r[0] == s[0])
  {
    if s == [] then [v] else if Before(v, s[0]) then [v] + s else [s[0]] + Placed(v, s[1..])
  }

  lemma {:induction false} PlacedSorted(v: Interval, s: seq<Interval>)
    requires Sorted(s)
    ensures Sorted(Placed(v, s)) && multiset(Placed(v, s)) == multiset(s) + multiset{v}
  {
    hide Sorted;
    PlacedFirst(v, s);
    if s != [] && !Before(v, s[0]) {
      assert s == [s[0]] + s[1..];
      PlacedSorted(v, s[1..]);
      PlacedMore(v, s);
    }
  }

  lemma PlacedFirst(v: Interval, s: seq<Interval>)
    requires Sorted(s)
    ensures s == [] || Before(v, s[0]) ==> Sorted(Placed(v, s)) && multiset(Placed(v, s)) == multiset(s) + multiset{v}
    ensures s != [] ==> Sorted(s[1..])
  {
  }

  lemma PlacedMore(v: Interval, s: seq<Interval>)
    requires Sorted(s) && s != [] && !Before(v, s[0]) && Sorted(Placed(v, s[1..]))
    requires multiset(Placed(v, s[1..])) == multiset(s[1..]) + multiset{v}
    ensures Sorted(Placed(v, s))
  {
    var rest := Placed(v, s[1..]);
    forall i | 0 <= i < |rest| ensures Before(s[0], rest[i]) {
      assert rest[i] in multiset(rest);
      assert rest[i] == v || rest[i] in multiset(s[1..]);
      if rest[i] != v {
        var j :| 0 <= j < |s[1..]| && s[1..][j] == rest[i];
        assert s[j + 1] == rest[i];
      }
    }
    hide Placed;
  }

  function SortIntervals(s: seq<Interval>): (r: seq<Interval>)
    ensures |r| == |s|
  {
    if s == [] then [] else Placed(s[0], SortIntervals(s[1..]))
  }

  lemma {:induction false} SortSorts(s: seq<Interval>)
    ensures Sorted(SortIntervals(s)) && multiset(SortIntervals(s)) == multiset(s)
  {
    if s != [] {
      assert s == [s[0]] + s[1..];
      SortSorts(s[1..]);
      PlacedSorted(s[0], SortIntervals(s[1..]));
    }
  }

  // ----- what the nodes hold -------------------------------------------------------------------

  function Middle(lo: nat, hi: nat): (mid: nat)
    requires lo < hi
    ensures lo <= mid < hi
  {
    lo + (hi - lo) / 2
  }

  function Larger(a: I64, b: I64): I64 { if a > b then a else b }

  /** The largest end among `sorted[lo..hi]`. */
  ghost function MaxHi(sorted: seq<Interval>, lo: nat, hi: nat): (m: I64)
    requires lo < hi <= |sorted|
    ensures forall i :: lo <= i < hi ==> sorted[i].hi <= m
    ensures exists i :: lo <= i < hi && sorted[i].hi == m
    decreases hi - lo
  {
    if hi - lo == 1 then sorted[lo].hi
    else
      var m := MaxHi(sorted, lo, hi - 1);
      if sorted[hi - 1].hi > m then sorted[hi - 1].hi else m
  }

  /** The nodes from `at` on are the tree of `sorted[lo..hi]`, parents first, left children
      before right ones. */
  ghost predicate Holds(nodes: seq<TreeNode>, at: nat, sorted: seq<Interval>, lo: nat, hi: nat)
    requires lo <= hi <= |sorted|
    decreases hi - lo
  {
    lo < hi ==>
      var mid := Middle(lo, hi);
      && at + (hi - lo) <= |nodes|
      && nodes[at].interval == sorted[mid] && nodes[at].maxHi == MaxHi(sorted, lo, hi)
      && nodes[at].left == IndexOf(at + 1, lo, mid)
      && nodes[at].right == IndexOf(at + 1 + (mid - lo), mid + 1, hi)
      && Holds(nodes, at + 1, sorted, lo, mid)
      && Holds(nodes, at + 1 + (mid - lo), sorted, mid + 1, hi)
  }

  lemma HoldsParts(nodes: seq<TreeNode>, at: nat, sorted: seq<Interval>, lo: nat, hi: nat)
    requires lo < hi <= |sorted|
    ensures var mid := Middle(lo, hi);
            Holds(nodes, at, sorted, lo, hi) <==>
              && at + (hi - lo) <= |nodes|
              && nodes[at].interval == sorted[mid] && nodes[at].maxHi == MaxHi(sorted, lo, hi)
              && nodes[at].left == IndexOf(at + 1, lo, mid)
              && nodes[at].right == IndexOf(at + 1 + (mid - lo), mid + 1, hi)
              && Holds(nodes, at + 1, sorted, lo, mid)
              && Holds(nodes, at + 1 + (mid - lo), sorted, mid + 1, hi)
  {
  }

  lemma HoldsNothing(nodes: seq<TreeNode>, at: nat, sorted: seq<Interval>, lo: nat)
    requires lo <= |sorted|
    ensures Holds(nodes, at, sorted, lo, lo)
  {
  }

  function IndexOf(at: nat, lo: nat, hi: nat): int
  {
    if lo < hi then at else NONE
  }

  /** Only the nodes of the tree itself matter. */
  lemma {:induction false} HoldsFrame(nodes: seq<TreeNode>, after: seq<TreeNode>, at: nat, sorted: seq<Interval>,
          lo: nat, hi: nat)
    requires lo <= hi <= |sorted| && Holds(nodes, at, sorted, lo, hi) && |nodes| <= |after|
    requires forall i :: at <= i < at + (hi - lo) && i < |nodes| ==> after[i] == nodes[i]
    ensures Holds(after, at, sorted, lo, hi)
    decreases hi - lo
  {
    if lo < hi {
      var mid := Middle(lo, hi);
      HoldsFrame(nodes, after, at + 1, sorted, lo, mid);
      HoldsFrame(nodes, after, at + 1 + (mid - lo), sorted, mid + 1, hi);
    }
  }

  /** The maximum of a node is its own end and those of its parts. */
  lemma MaxJoined(sorted: seq<Interval>, lo: nat, mid: nat, hi: nat, m: I64)
    requires lo <= mid < hi <= |sorted|
    requires m == (var a := if lo < mid then Larger(sorted[mid].hi, MaxHi(sorted, lo, mid)) else sorted[mid].hi;
                   if mid + 1 < hi then Larger(a, MaxHi(sorted, mid + 1, hi)) else a)
    ensures m == MaxHi(sorted, lo, hi)
  {
    forall i | lo <= i < hi ensures sorted[i].hi <= m {
    }
    var best := MaxHi(sorted, lo, hi);
  }

  lemma MaxAt(nodes: seq<TreeNode>, at: nat, sorted: seq<Interval>, lo: nat, hi: nat)
    requires lo <= hi <= |sorted| && Holds(nodes, at, sorted, lo, hi)
    ensures lo < hi ==> at < |nodes| && nodes[at].maxHi == MaxHi(sorted, lo, hi)
  {
  }

  /** What was there stays while more is appended. */
  lemma Kept(before: seq<TreeNode>, n1: seq<TreeNode>, n2: seq<TreeNode>, idx: nat, k: nat, v: Interval)
    requires idx == |before| && |n1| == idx + 1 + k <= |n2|
    requires n1[..idx + 1] == before + [TreeNode(v, v.hi, NONE, NONE)] && n2[..|n1|] == n1
    ensures n2[..idx] == before && n2[idx] == TreeNode(v, v.hi, NONE, NONE)
    ensures forall i :: 0 <= i < |n1| ==> n2[i] == n1[i]
  {
    assert n2[..|n1|][..idx + 1] == n2[..idx + 1];
    assert n2[..idx + 1][..idx] == n2[..idx];
    assert n2[idx] == n2[..idx + 1][idx];
    forall i | 0 <= i < |n1| ensures n2[i] == n1[i] {
      assert n2[..|n1|][i] == n2[i];
    }
  }

  // ----- how deep the tree is --------------------------------------------------------------------

  /** Nodes each of which is a child of the one before. */
  ghost predicate Descent(nodes: seq<TreeNode>, p: seq<int>)
  {
    && (forall i :: 0 <= i < |p| ==> 0 <= p[i] < |nodes|)
    && (forall i :: 0 < i < |p| ==> p[i] == nodes[p[i - 1]].left || p[i] == nodes[p[i - 1]].right)
  }

  /** Every step down at least halves the list. */
  lemma {:induction false} DescentShort(nodes: seq<TreeNode>, at: nat, sorted: seq<Interval>, lo: nat, hi: nat,
          p: seq<int>)
    requires lo < hi <= |sorted| && Holds(nodes, at, sorted, lo, hi) && Descent(nodes, p) && p != [] && p[0] == at
    ensures Pow2(|p| - 1) <= hi - lo
    decreases hi - lo
  {
    hide Holds, MaxHi, Pow2, Descent;
    HoldsParts(nodes, at, sorted, lo, hi);
    if |p| == 1 {
      HalfOf(0, 0, 0);
    } else {
      var mid := Middle(lo, hi);
      DescentRest(nodes, p);
      if p[1] == nodes[at].left {
        ChildPart(at + 1, lo, mid);
        DescentShort(nodes, at + 1, sorted, lo, mid, p[1..]);
        HalfOf(hi - lo, mid - lo, |p| - 2);
      } else {
        ChildPart(at + 1 + (mid - lo), mid + 1, hi);
        DescentShort(nodes, at + 1 + (mid - lo), sorted, mid + 1, hi, p[1..]);
        HalfOf(hi - lo, hi - (mid + 1), |p| - 2);
      }
    }
  }

  lemma ChildPart(at: nat, lo: nat, hi: nat)
    ensures IndexOf(at, lo, hi) >= 0 ==> lo < hi && IndexOf(at, lo, hi) == at
  {
  }

  lemma HalfOf(n: nat, half: nat, k: nat)
    ensures Pow2(0) == 1 && (2 * half <= n && Pow2(k) <= half ==> Pow2(k + 1) <= n)
  {
  }

  lemma DescentRest(nodes: seq<TreeNode>, p: seq<int>)
    requires Descent(nodes, p) && |p| > 1
    ensures Descent(nodes, p[1..]) && 0 <= p[0] < |nodes| && 0 <= p[1] < |nodes|
    ensures p[1] == nodes[p[0]].left || p[1] == nodes[p[0]].right
  {
  }

  // ----- what a query finds ----------------------------------------------------------------------

  /** The intervals of the list that overlap the query, in order. */
  function Overlapping(s: seq<Interval>, from: I64, to: I64): seq<Interval>
  {
    if s == [] then []
    else
      var front, last := Overlapping(s[..|s| - 1], from, to), s[|s| - 1];
      if Overlaps(last, from, to) then front + [last] else front
  }

  lemma {:induction false} OverlappingConcat(a: seq<Interval>, b: seq<Interval>, from: I64, to: I64)
    ensures Overlapping(a + b, from, to) == Overlapping(a, from, to) + Overlapping(b, from, to)
  {
    if b == [] {
      assert a + b == a;
    } else {
      var n := |b| - 1;
      OverlappingConcat(a, b[..n], from, to);
      assert (a + b)[..|a| + n] == a + b[..n];
    }
  }

  lemma {:induction false} OverlappingNone(s: seq<Interval>, from: I64, to: I64)
    requires forall i :: 0 <= i < |s| ==> !Overlaps(s[i], from, to)
    ensures Overlapping(s, from, to) == []
  {
    if s != [] {
      OverlappingNone(s[..|s| - 1], from, to);
    }
  }

  lemma {:induction false} OverlappingMembers(s: seq<Interval>, v: Interval, from: I64, to: I64)
    ensures multiset(Overlapping(s, from, to))[v] == if Overlaps(v, from, to) then multiset(s)[v] else 0
  {
    if s != [] {
      OverlappingMembers(s[..|s| - 1], v, from, to);
      assert s == s[..|s| - 1] + [s[|s| - 1]];
    }
  }

  /** The parts of a node's list: left of it, itself, right of it. */
  lemma QueryParts(sorted: seq<Interval>, lo: nat, hi: nat, from: I64, to: I64)
    requires lo < hi <= |sorted| && Sorted(sorted)
    ensures var mid := Middle(lo, hi);
            Overlapping(sorted[lo..hi], from, to) ==
              Overlapping(sorted[lo..mid], from, to) + (if Overlaps(sorted[mid], from, to) then [sorted[mid]] else [])
              + Overlapping(sorted[mid + 1..hi], from, to)
            && (sorted[mid].lo > to ==> Overlapping(sorted[mid + 1..hi], from, to) == [])
    ensures MaxHi(sorted, lo, hi) < from ==> Overlapping(sorted[lo..hi], from, to) == []
  {
    hide Overlapping, Sorted, MaxHi, Overlaps;
    var mid := Middle(lo, hi);
    var left, right := sorted[lo..mid], sorted[mid + 1..hi];
    assert sorted[lo..hi] == (left + [sorted[mid]]) + right;
    OverlappingOne(sorted[mid], from, to);
    if sorted[mid].lo > to {
      StartsTooLate(sorted, mid, hi, from, to);
    }
    if MaxHi(sorted, lo, hi) < from {
      EndsTooEarly(sorted, lo, hi, from, to);
    }
    OverlappingConcat(left + [sorted[mid]], right, from, to);
    OverlappingConcat(left, [sorted[mid]], from, to);
  }

  lemma OverlappingOne(v: Interval, from: I64, to: I64)
    ensures Overlapping([v], from, to) == if Overlaps(v, from, to) then [v] else []
  {
    assert [v][..0] == [];
  }

  lemma StartsTooLate(sorted: seq<Interval>, mid: nat, hi: nat, from: I64, to: I64)
    requires mid < hi <= |sorted| && Sorted(sorted) && sorted[mid].lo > to
    ensures Overlapping(sorted[mid + 1..hi], from, to) == []
  {
    var right := sorted[mid + 1..hi];
    forall i | 0 <= i < |right| ensures !Overlaps(right[i], from, to) {
      assert Before(sorted[mid], sorted[mid + 1 + i]);
    }
    OverlappingNone(right, from, to);
  }

  lemma EndsTooEarly(sorted: seq<Interval>, lo: nat, hi: nat, from: I64, to: I64)
    requires lo < hi <= |sorted| && MaxHi(sorted, lo, hi) < from
    ensures Overlapping(sorted[lo..hi], from, to) == []
  {
    var part := sorted[lo..hi];
    forall i | 0 <= i < |part| ensures !Overlaps(part[i], from, to) {
      assert sorted[lo + i].hi <= MaxHi(sorted, lo, hi);
    }
    OverlappingNone(part, from, to);
  }

  lemma OverlappingEmpty(sorted: seq<Interval>, lo: nat, from: I64, to: I64)
    requires lo <= |sorted|
    ensures Overlapping(sorted[lo..lo], from, to) == []
  {
  }

  // ----- the tree ----------------------------------------------------------------------------------

  class IntervalTree {
    var nodes: seq<TreeNode>
    var root: int

    ghost var sorted: seq<Interval>

    ghost predicate Valid()
      reads this
    {
      Sorted(sorted) && |nodes| == |sorted| && root == IndexOf(0, 0, |sorted|) && Holds(nodes, 0, sorted, 0, |sorted|)
    }

    /** Lines 60-68. */
    constructor Build(intervals: seq<Interval>)
      requires |intervals| <= MAX_NODES
      ensures Valid() && multiset(sorted) == multiset(intervals)
    {
      nodes, root := [], NONE;
      sorted := SortIntervals(intervals);
      new;
      SortSorts(intervals);
      var list := SortIntervals(intervals);
      var r := BuildRange(list, 0, |list|);
      root := r;
    }

    /** The tree is balanced: a way down from the root has at most one node more than the logarithm of
        their number. */
    lemma Balanced(p: seq<int>)
      requires Valid() && Descent(nodes, p) && p != [] && p[0] == root
      ensures Pow2(|p| - 1) <= |nodes|
    {
      DescentShort(nodes, 0, sorted, 0, |sorted|, p);
    }

    /** Lines 70-95: appends the tree of a part of the list and returns its root. */
    method BuildRange(list: seq<Interval>, lo: nat, hi: nat) returns (r: int)
      requires lo <= hi <= |list|
      modifies this`nodes
      ensures r == IndexOf(|old(nodes)|, lo, hi) && Holds(nodes, |old(nodes)|, list, lo, hi)
      ensures |nodes| == |old(nodes)| + (hi - lo) && nodes[..|old(nodes)|] == old(nodes)
      decreases hi - lo
    {
      hide Holds, MaxHi;
      if lo >= hi {
        HoldsNothing(nodes, |nodes|, list, lo);
        return NONE;
      }
      var mid := lo + (hi - lo) / 2;
      var idx := |nodes|;
      ghost var before := nodes;
      nodes := nodes + [TreeNode(list[mid], list[mid].hi, NONE, NONE)];
      var left := BuildRange(list, lo, mid);
      ghost var n1 := nodes;
      var right := BuildRange(list, mid + 1, hi);
      ghost var n2 := nodes;
      Kept(before, n1, n2, idx, mid - lo, list[mid]);
      nodes := nodes[idx := nodes[idx].(left := left, right := right)];
      var maxHi := list[mid].hi;
      MaxAt(n1, idx + 1, list, lo, mid);
      MaxAt(n2, idx + 1 + (mid - lo), list, mid + 1, hi);
      if left != NONE {
        maxHi := Larger(maxHi, nodes[left].maxHi);
      }
      if right != NONE {
        maxHi := Larger(maxHi, nodes[right].maxHi);
      }
      nodes := nodes[idx := nodes[idx].(maxHi := maxHi)];
      MaxJoined(list, lo, mid, hi, maxHi);
      HoldsFrame(n1, nodes, idx + 1, list, lo, mid);
      HoldsFrame(n2, nodes, idx + 1 + (mid - lo), list, mid + 1, hi);
      HoldsParts(nodes, idx, list, lo, hi);
      r := idx;
    }

    /** Lines 108-112. */
    method QueryOverlapping(from: I64, to: I64) returns (out: seq<Interval>)
      requires Valid()
      ensures out == Overlapping(sorted, from, to)
    {
      hide Holds, Sorted, Overlapping;
      out := QueryNode(root, from, to, [], 0, 0, |sorted|);
      assert sorted[0..|sorted|] == sorted;
    }

    /** Lines 114-134. */
    method QueryNode(node: int, from: I64, to: I64, out0: seq<Interval>, ghost at: nat, ghost lo: nat, ghost hi: nat)
      returns (out: seq<Interval>)
      requires Sorted(sorted) && lo <= hi <= |sorted| && node == IndexOf(at, lo, hi) && Holds(nodes, at, sorted, lo, hi)
      ensures out == out0 + Overlapping(sorted[lo..hi], from, to)
      decreases hi - lo
    {
      hide Holds, MaxHi, Sorted, Overlapping;
      OverlappingEmpty(sorted, lo, from, to);
      if node == NONE {
        return out0;
      }
      HoldsParts(nodes, at, sorted, lo, hi);
      ghost var mid := Middle(lo, hi);
      QueryParts(sorted, lo, hi, from, to);
      var n := nodes[node];
      if n.maxHi < from {
        return out0;
      }
      out := QueryNode(n.left, from, to, out0, at + 1, lo, mid);
      if Overlaps(n.interval, from, to) {
        out := out + [n.interval];
      }
      if n.interval.lo <= to {
        out := QueryNode(n.right, from, to, out, at + 1 + (mid - lo), mid + 1, hi);
      }
    }

    /** Lines 142-144. */
    method AnyOverlap(from: I64, to: I64) returns (any: bool)
      requires Valid()
      ensures any <==> Overlapping(sorted, from, to) != []
    {
      hide Holds, Sorted, Overlapping;
      any := Stab(root, from, to, 0, 0, |sorted|);
      assert sorted[0..|sorted|] == sorted;
    }

    /** Lines 146-164. */
    method Stab(node: int, from: I64, to: I64, ghost at: nat, ghost lo: nat, ghost hi: nat) returns (any: bool)
      requires Sorted(sorted) && lo <= hi <= |sorted| && node == IndexOf(at, lo, hi) && Holds(nodes, at, sorted, lo, hi)
      ensures any <==> Overlapping(sorted[lo..hi], from, to) != []
      decreases hi - lo
    {
      hide Holds, MaxHi, Sorted, Overlapping;
      OverlappingEmpty(sorted, lo, from, to);
      if node == NONE {
        return false;
      }
      HoldsParts(nodes, at, sorted, lo, hi);
      ghost var mid := Middle(lo, hi);
      QueryParts(sorted, lo, hi, from, to);
      var n := nodes[node];
      if n.maxHi < from {
        return false;
      }
      if Overlaps(n.interval, from, to) {
        return true;
      }
      var left := Stab(n.left, from, to, at + 1, lo, mid);
      if left {
        return true;
      }
      if n.interval.lo <= to {
        any := Stab(n.right, from, to, at + 1 + (mid - lo), mid + 1, hi);
        return;
      }
      return false;
    }
  }
}
