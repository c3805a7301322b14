/** What walking the leaf chain of a B+tree lists (src/btree.rs, lines 410-441 and 497-518). */
module LeafChains {
  import opened Integers
  import opened Options
  import opened SearchTrees

  // ----- the leaves in order -------------------------------------------------------------

  ghost function Leaves(t: Tree): seq<Tree>
    decreases t, 1
  {
    if t.Leaf? then [t] else LeavesOf(t.kids)
  }

  ghost function LeavesOf(ts: seq<Tree>): seq<Tree>
    decreases ts, 0
  {
    if ts == [] then [] else LeavesOf(ts[..|ts| - 1]) + Leaves(ts[|ts| - 1])
  }

  /** Leaves whose links lead from each to the next, and from the last to `after`. */
  ghost predicate Linked(ls: seq<Tree>, after: Option<PageId>)
  {
    && (forall i :: 0 <= i < |ls| ==> ls[i].Leaf?)
    && (forall i :: 0 <= i < |ls| - 1 ==> ls[i].next == Some(ls[i + 1].id))
    && (ls != [] ==> ls[|ls| - 1].next == after)
  }

  lemma LinkedConcat(a: seq<Tree>, b: seq<Tree>, after: Option<PageId>)
    requires b != [] && Linked(a, Some(b[0].id)) && Linked(b, after)
    ensures Linked(a + b, after)
  {
    var c := a + b;
    forall i | 0 <= i < |c| - 1 ensures c[i].next == Some(c[i + 1].id) {
      if i >= |a| {
        assert c[i] == b[i - |a|] && c[i + 1] == b[i + 1 - |a|];
      }
    }
  }

  lemma {:induction false} LeavesLinked(t: Tree, lo: int, hi: int, height: nat, after: Option<PageId>)
    requires WellFormed(t, lo, hi, height) && Chained(t, after)
    ensures Leaves(t) != [] && Leaves(t)[0].id == First(t) && Linked(Leaves(t), after)
    decreases t, 1
  {
    if t.Inner? {
      KidsLinked(t, |t.kids|, lo, hi, height, after);
      assert t.kids[..|t.kids|] == t.kids;
    }
  }

  lemma {:induction false} KidsLinked(t: Tree, n: nat, lo: int, hi: int, height: nat, after: Option<PageId>)
    requires t.Inner? && WellFormed(t, lo, hi, height) && Chained(t, after) && 0 < n <= |t.kids|
    ensures var ls := LeavesOf(t.kids[..n]);
            ls != [] && ls[0].id == First(t.kids[0])
              && Linked(ls, if n < |t.kids| then Some(First(t.kids[n])) else after)
    decreases t, 0, n
  {
    var kid := t.kids[n - 1];
    LeavesLinked(kid, Lo(t.keys, lo, n - 1), Hi(t.keys, hi, n - 1), height - 1, After(t.kids, after, n - 1));
    assert t.kids[..n][..n - 1] == t.kids[..n - 1] && t.kids[..n][n - 1] == kid;
    if n > 1 {
      KidsLinked(t, n - 1, lo, hi, height, after);
      LinkedConcat(LeavesOf(t.kids[..n - 1]), Leaves(kid), After(t.kids, after, n - 1));
    } else {
      assert LeavesOf(t.kids[..0]) == [];
    }
    hide WellFormed, Chained;
  }

  // ----- the entries in order ------------------------------------------------------------

  ghost function EntriesOf(ls: seq<Tree>): seq<LeafEntry>
  {
    if ls == [] then []
    else EntriesOf(ls[..|ls| - 1]) + if ls[|ls| - 1].Leaf? then ls[|ls| - 1].entries else []
  }

  /** All the entries, leaf by leaf. */
  ghost function Listing(t: Tree): seq<LeafEntry>
  {
    EntriesOf(Leaves(t))
  }

  lemma {:induction false} EntriesConcat(a: seq<Tree>, b: seq<Tree>)
    ensures EntriesOf(a + b) == EntriesOf(a) + EntriesOf(b)
  {
    if b == [] {
      assert a + b == a;
    } else {
      assert (a + b)[..|a + b| - 1] == a + b[..|b| - 1];
      EntriesConcat(a, b[..|b| - 1]);
    }
  }

  lemma GoodConcat(a: seq<LeafEntry>, b: seq<LeafEntry>, lo: int, mid: int, hi: int)
    requires GoodEntries(a, lo, mid) && GoodEntries(b, mid, hi) && lo <= mid <= hi
    ensures GoodEntries(a + b, lo, hi)
    ensures forall k :: Find(a + b, k) == if k < mid then Find(a, k) else Find(b, k)
  {
    forall k ensures Find(a + b, k) == if k < mid then Find(a, k) else Find(b, k) {
      FindConcat(a, b, lo, mid, hi, k);
    }
    hide Find;
  }

  lemma FindConcat(a: seq<LeafEntry>, b: seq<LeafEntry>, lo: int, mid: int, hi: int, k: int)
    requires GoodEntries(a, lo, mid) && GoodEntries(b, mid, hi) && GoodEntries(a + b, lo, hi)
    ensures Find(a + b, k) == if k < mid then Find(a, k) else Find(b, k)
  {
    hide Find, HasKey;
    if b == [] {
      assert a + b == a;
      if k >= mid {
        FindAbsent(a, k);
        FindAbsent(b, k);
      }
    } else {
      SplitLeafFind(a + b, |a|, k);
      assert (a + b)[..|a|] == a && (a + b)[|a|..] == b && (a + b)[|a|] == b[0];
      if k < mid {
      } else if k < b[0].key {
        FindAbsent(a, k);
        FindAbsent(b, k);
      }
    }
  }

  /** The listing is strictly ascending and holds exactly what descending finds. */
  lemma {:induction false} ListingGood(t: Tree, lo: int, hi: int, height: nat)
    requires WellFormed(t, lo, hi, height) && lo < hi
    ensures GoodEntries(Listing(t), lo, hi)
    ensures forall k :: lo <= k < hi ==> Find(Listing(t), k) == Lookup(t, k)
    decreases t, 1
  {
    if t.Inner? {
      KidsListing(t, |t.kids|, lo, hi, height);
      assert t.kids[..|t.kids|] == t.kids;
      forall k | lo <= k < hi ensures Find(Listing(t), k) == Lookup(t, k) {
        assert Rank(t.keys, k) < |t.kids|;
      }
    } else {
      assert EntriesOf([t]) == t.entries by {
        assert [t][..0] == [];
      }
    }
  }

  /** The keys below the n-th child. */
  function Reach(keys: seq<I64>, lo: int, hi: int, n: nat): int
    requires n <= |keys| + 1
  {
    if n == 0 then lo else Hi(keys, hi, n - 1)
  }

  lemma {:induction false} KidsListing(t: Tree, n: nat, lo: int, hi: int, height: nat)
    requires t.Inner? && WellFormed(t, lo, hi, height) && n <= |t.kids| && lo < hi
    ensures GoodEntries(EntriesOf(LeavesOf(t.kids[..n])), lo, Reach(t.keys, lo, hi, n))
    ensures forall k :: lo <= k < hi ==> Find(EntriesOf(LeavesOf(t.kids[..n])), k) == LookupAmong(t, n, k)
    decreases t, 0, n
  {
    if n > 0 {
      var kid := t.kids[n - 1];
      var a, b := LeavesOf(t.kids[..n - 1]), Leaves(kid);
      assert t.kids[..n][..n - 1] == t.kids[..n - 1] && t.kids[..n][n - 1] == kid;
      KidsListing(t, n - 1, lo, hi, height);
      KidInterval(t, n - 1, lo, hi, height);
      ListingGood(kid, Lo(t.keys, lo, n - 1), Hi(t.keys, hi, n - 1), height - 1);
      EntriesConcat(a, b);
      GoodConcat(EntriesOf(a), EntriesOf(b), lo, Lo(t.keys, lo, n - 1), Hi(t.keys, hi, n - 1));
      FindExtended(t, n, EntriesOf(a), EntriesOf(b), lo, hi);
      hide WellFormed, Lookup, Find, Leaves, LeavesOf;
    }
  }

  /** What the first `n` children hold under a key. */
  ghost function LookupAmong(t: Tree, n: nat, k: int): seq<RowId>
    requires t.Inner? && n <= |t.kids|
  {
    if Rank(t.keys, k) < n then Lookup(t.kids[Rank(t.keys, k)], k) else []
  }

  lemma FindExtended(t: Tree, n: nat, a: seq<LeafEntry>, b: seq<LeafEntry>, lo: int, hi: int)
    requires t.Inner? && 0 < n <= |t.kids| == |t.keys| + 1 && Separates(t.keys, lo, hi) && lo < hi
    requires GoodEntries(b, Lo(t.keys, lo, n - 1), Hi(t.keys, hi, n - 1))
    requires forall k :: Find(a + b, k) == if k < Lo(t.keys, lo, n - 1) then Find(a, k) else Find(b, k)
    requires forall k :: lo <= k < hi ==> Find(a, k) == LookupAmong(t, n - 1, k)
    requires forall k :: Lo(t.keys, lo, n - 1) <= k < Hi(t.keys, hi, n - 1) ==> Find(b, k) == Lookup(t.kids[n - 1], k)
    ensures forall k :: lo <= k < hi ==> Find(a + b, k) == LookupAmong(t, n, k)
  {
    hide Lookup, Find;
    FindBranch(t.keys, n - 1, lo, hi);
    forall k | lo <= k < hi ensures Find(a + b, k) == LookupAmong(t, n, k) {
      if Hi(t.keys, hi, n - 1) <= k {
        FindAbsent(b, k);
      }
    }
  }

  lemma KidInterval(t: Tree, i: nat, lo: int, hi: int, height: nat)
    requires t.Inner? && WellFormed(t, lo, hi, height) && i < |t.kids| && lo < hi
    ensures lo <= Lo(t.keys, lo, i) < Hi(t.keys, hi, i) <= hi
            && WellFormed(t.kids[i], Lo(t.keys, lo, i), Hi(t.keys, hi, i), height - 1)
  {
  }

  /** A key branches to child `i` exactly when it lies in that child's interval. */
  lemma FindBranch(keys: seq<I64>, i: nat, lo: int, hi: int)
    requires Separates(keys, lo, hi) && i <= |keys|
    ensures forall k :: lo <= k < hi ==>
            (k < Lo(keys, lo, i) <==> Rank(keys, k) < i) && (k < Hi(keys, hi, i) <==> Rank(keys, k) <= i)
  {
    forall k | lo <= k < hi
      ensures (k < Lo(keys, lo, i) <==> Rank(keys, k) < i) && (k < Hi(keys, hi, i) <==> Rank(keys, k) <= i)
    {
      RankSplits(keys, k);
    }
  }

  // ----- the chain from a key on -----------------------------------------------------------

  /** The leaves of a child sit together among its parent's. */
  lemma {:induction false} KidLeaves(kids: seq<Tree>, i: nat)
    requires i < |kids|
    ensures var off, ls := |LeavesOf(kids[..i])|, LeavesOf(kids);
            off + |Leaves(kids[i])| <= |ls| && ls[..off] == LeavesOf(kids[..i])
              && ls[off..off + |Leaves(kids[i])|] == Leaves(kids[i])
  {
    if i == |kids| - 1 {
    } else {
      var front := kids[..|kids| - 1];
      KidLeaves(front, i);
      assert front[..i] == kids[..i];
    }
  }

  ghost predicate AllBelow(ls: seq<Tree>, key: int)
  {
    forall i :: 0 <= i < |ls| && ls[i].Leaf? ==> forall j :: 0 <= j < |ls[i].entries| ==> ls[i].entries[j].key < key
  }

  /** Every entry of a leaf is in the listing. */
  lemma {:induction false} EntryListed(ls: seq<Tree>, i: nat, j: nat)
    requires i < |ls| && ls[i].Leaf? && j < |ls[i].entries|
    ensures ls[i].entries[j] in EntriesOf(ls)
  {
    if i < |ls| - 1 {
      EntryListed(ls[..|ls| - 1], i, j);
    }
  }

  /** The leaves before the child a key branches to hold only smaller keys. */
  lemma LeavesBefore(t: Tree, key: int, lo: int, hi: int, height: nat)
    requires t.Inner? && WellFormed(t, lo, hi, height) && lo < hi
    ensures Branch(t.keys, key) < |t.kids| && AllBelow(LeavesOf(t.kids[..Branch(t.keys, key)]), key)
  {
    var pos := Branch(t.keys, key);
    KidsListing(t, pos, lo, hi, height);
    RankSplits(t.keys, key);
    var ls := LeavesOf(t.kids[..pos]);
    forall i | 0 <= i < |ls| && ls[i].Leaf?
      ensures forall j :: 0 <= j < |ls[i].entries| ==> ls[i].entries[j].key < key
    {
      forall j | 0 <= j < |ls[i].entries| ensures ls[i].entries[j].key < key {
        EntryListed(ls, i, j);
      }
    }
  }

  // ----- pairs of key and row --------------------------------------------------------------

  function RowPairs(key: I64, rows: seq<RowId>): (r: seq<(I64, RowId)>)
    ensures |r| == |rows| && forall i :: 0 <= i < |r| ==> r[i] == (key, rows[i])
  {
    seq(|rows|, i requires 0 <= i < |rows| => (key, rows[i]))
  }

  /** The pairs of the entries with a key from `lo` to `hi`, in order. */
  function PairsIn(entries: seq<LeafEntry>, lo: int, hi: int): seq<(I64, RowId)>
  {
    if entries == [] then []
    else
      var e := entries[|entries| - 1];
      PairsIn(entries[..|entries| - 1], lo, hi) + if lo <= e.key <= hi then RowPairs(e.key, e.rows) else []
  }

  lemma {:induction false} PairsConcat(a: seq<LeafEntry>, b: seq<LeafEntry>, lo: int, hi: int)
    ensures PairsIn(a + b, lo, hi) == PairsIn(a, lo, hi) + PairsIn(b, lo, hi)
  {
    if b == [] {
      assert a + b == a;
    } else {
      var front, e := b[..|b| - 1], b[|b| - 1];
      assert (a + b)[..|a + b| - 1] == a + front;
      PairsConcat(a, front, lo, hi);
      var last := if lo <= e.key <= hi then RowPairs(e.key, e.rows) else [];
      assert (PairsIn(a, lo, hi) + PairsIn(front, lo, hi)) + last
        == PairsIn(a, lo, hi) + (PairsIn(front, lo, hi) + last);
    }
  }

  lemma {:induction false} PairsOutside(entries: seq<LeafEntry>, lo: int, hi: int)
    requires forall i :: 0 <= i < |entries| ==> entries[i].key < lo || hi < entries[i].key
    ensures PairsIn(entries, lo, hi) == []
  {
    if entries != [] {
      PairsOutside(entries[..|entries| - 1], lo, hi);
    }
  }

  lemma {:induction false} EntriesBelow(ls: seq<Tree>, key: int)
    requires AllBelow(ls, key)
    ensures forall i :: 0 <= i < |EntriesOf(ls)| ==> EntriesOf(ls)[i].key < key
  {
    if ls != [] {
      EntriesBelow(ls[..|ls| - 1], key);
    }
  }

  /** A range holds exactly the pairs of the listed entries within it. */
  lemma {:induction false} PairsMembers(entries: seq<LeafEntry>, lo: int, hi: int, key: I64, row: RowId)
    requires Sorted(entries)
    ensures (key, row) in PairsIn(entries, lo, hi) <==> lo <= key <= hi && row in Find(entries, key)
  {
    if entries == [] {
    } else {
      var front, e := entries[..|entries| - 1], entries[|entries| - 1];
      PairsMembers(front, lo, hi, key, row);
      assert (key, row) in RowPairs(e.key, e.rows) <==> key == e.key && row in e.rows by {
        if key == e.key && row in e.rows {
          var i :| 0 <= i < |e.rows| && e.rows[i] == row;
          assert RowPairs(e.key, e.rows)[i] == (key, row);
        }
      }
      SplitLeafFind(entries, |front|, key);
      assert entries[|front|..] == [e];
      if key == e.key {
        FindAt(entries, |front|);
        FindAbsent(front, key);
      } else {
        FindAbsent([e], key);
        if key > e.key {
          FindAbsent(front, key);
        }
      }
    }
  }

  /** Ranges come out in key order. */
  lemma {:induction false} PairsOrdered(entries: seq<LeafEntry>, lo: int, hi: int)
    requires Sorted(entries)
    ensures var ps := PairsIn(entries, lo, hi); forall i, j :: 0 <= i < j < |ps| ==> ps[i].0 <= ps[j].0
    ensures forall p :: p in PairsIn(entries, lo, hi) ==> entries != [] && p.0 <= entries[|entries| - 1].key
  {
    if entries != [] {
      var front, e := entries[..|entries| - 1], entries[|entries| - 1];
      PairsOrdered(front, lo, hi);
      assert forall p :: p in PairsIn(front, lo, hi) ==> p.0 < e.key;
    }
  }
}
