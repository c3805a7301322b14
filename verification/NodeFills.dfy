/** How full inserting leaves the nodes of the B+tree (src/btree.rs, lines 272-388): removing
    does not merge nodes, so this is about trees that only rows were put into. */
module NodeFills {
  import opened Integers
  import opened SearchTrees
  import opened LeafChains

  /** What a split leaves in either half. */
  const HALF: nat := FANOUT / 2

  /** Every node is at least half full. */
  ghost predicate Filled(t: Tree)
  {
    match t
    case Leaf(_, entries, _) => |entries| >= HALF
    case Inner(_, keys, kids) => |keys| >= HALF && AllFilled(kids)
  }

  ghost predicate AllFilled(ts: seq<Tree>)
  {
    forall i :: 0 <= i < |ts| ==> Filled(ts[i])
  }

  /** ... but for the root. */
  ghost predicate FilledBelow(t: Tree)
  {
    t.Inner? ==> AllFilled(t.kids)
  }

  function Size(t: Tree): nat
  {
    if t.Leaf? then |t.entries| else |t.keys|
  }

  /** Both halves of a split are filled; a node that is not split is no smaller than before. */
  ghost predicate GrownFilled(g: Grown, t: Tree)
  {
    match g
    case Whole(s) => FilledBelow(s) && Size(s) >= Size(t) && s.Leaf? == t.Leaf?
    case Split(left, _, right) => Filled(left) && Filled(right)
  }

  lemma SplicedFills(id: PageId, keys: seq<I64>, kids: seq<Tree>, pos: nat, left: Tree, sep: I64, right: Tree,
          unused: PageId)
    requires |kids| == |keys| + 1 && pos <= |keys| <= FANOUT && AllFilled(kids) && Filled(left) && Filled(right)
    ensures GrownFilled(Spliced(id, keys, kids, pos, left, sep, right, unused).0, Inner(id, keys, kids))
  {
    hide Filled;
    var more, moreKids := WithKey(keys, pos, sep), WithKids(kids, pos, left, right);
    forall i | 0 <= i < |moreKids| ensures Filled(moreKids[i]) {
      if i < pos {
        assert moreKids[i] == kids[i];
      } else if i > pos + 1 {
        assert moreKids[i] == kids[i - 1];
      }
    }
    if |more| > FANOUT {
      HalvesFilled(id, more, moreKids, unused);
    }
  }

  lemma HalvesFilled(id: PageId, keys: seq<I64>, kids: seq<Tree>, unused: PageId)
    requires |keys| == FANOUT + 1 && |kids| == |keys| + 1 && AllFilled(kids)
    ensures var g := SplitInner(id, keys, kids, unused); Filled(g.left) && Filled(g.right)
  {
    var g := SplitInner(id, keys, kids, unused);
    assert AllFilled(g.left.kids) && AllFilled(g.right.kids);
  }

  /** Inserting keeps all nodes but the root at least half full. */
  lemma {:induction false} InsertFills(t: Tree, key: I64, row: RowId, unused: PageId, lo: int, hi: int, height: nat)
    requires WellFormed(t, lo, hi, height) && lo <= key < hi && FilledBelow(t)
    ensures GrownFilled(Insert(t, key, row, unused).0, t)
  {
    match t
    case Leaf(_, entries, _) => AddRowGrows(entries, key, row, lo, hi);
    case Inner(id, keys, kids) =>
      var pos := Branch(keys, key);
      RankSplits(keys, key);
      var kid := kids[pos];
      assert Filled(kid) && WellFormed(kid, Lo(keys, lo, pos), Hi(keys, hi, pos), height - 1);
      InsertFills(kid, key, row, unused, Lo(keys, lo, pos), Hi(keys, hi, pos), height - 1);
      var (grown, unused') := Insert(kid, key, row, unused);
      if grown.Split? {
        SplicedFills(id, keys, kids, pos, grown.left, grown.sep, grown.right, unused');
      } else {
        assert Filled(grown.t);
        assert AllFilled(kids[pos := grown.t]);
      }
      hide Filled, Spliced;
  }

  lemma AddRowGrows(entries: seq<LeafEntry>, key: I64, row: RowId, lo: int, hi: int)
    requires GoodEntries(entries, lo, hi) && |entries| <= FANOUT && lo <= key < hi
    ensures |entries| <= |AddRow(entries, key, row)| <= |entries| + 1
  {
    hide Slot;
  }

  /** Half a leaf's entries, times five for every level above the leaves. */
  function LeastKeys(height: nat): nat
  {
    if height <= 1 then HALF else 5 * LeastKeys(height - 1)
  }

  /** A filled tree holds exponentially many keys for its height. */
  lemma {:induction false} FilledHolds(t: Tree, lo: int, hi: int, height: nat)
    requires WellFormed(t, lo, hi, height) && Filled(t)
    ensures height > 0 && |Listing(t)| >= LeastKeys(height)
    decreases t, 1
  {
    match t
    case Leaf(_, _, _) => LeafListing(t);
    case Inner(_, keys, kids) =>
      hide WellFormed, LeavesOf, EntriesOf;
      WellFormedKids(t, lo, hi, height);
      KidsHold(kids, keys, lo, hi, height - 1, |kids|);
      assert kids[..|kids|] == kids;
      KidsListed(t);
      AtLeastFive(|kids|, LeastKeys(height - 1));
  }

  lemma LeafListing(t: Tree)
    requires t.Leaf?
    ensures Listing(t) == t.entries
  {
    assert Leaves(t) == [t] && [t][..0] == [];
    assert Listing(t) == EntriesOf([]) + t.entries;
  }

  lemma WellFormedKids(t: Tree, lo: int, hi: int, height: nat)
    requires t.Inner? && WellFormed(t, lo, hi, height)
    ensures height > 1 && |t.kids| == |t.keys| + 1
    ensures forall i :: 0 <= i < |t.kids| ==> WellFormed(t.kids[i], Lo(t.keys, lo, i), Hi(t.keys, hi, i), height - 1)
  {
    assert WellFormed(t.kids[0], Lo(t.keys, lo, 0), Hi(t.keys, hi, 0), height - 1);
  }

  lemma KidsListed(t: Tree)
    requires t.Inner?
    ensures Listing(t) == EntriesOf(LeavesOf(t.kids))
  {
    hide EntriesOf, LeavesOf;
  }

  lemma AtLeastFive(n: nat, each: nat)
    requires n >= 5
    ensures n * each >= 5 * each
  {
    assert n * each == 5 * each + (n - 5) * each;
  }

  lemma OneMoreKid(kids: seq<Tree>, n: nat)
    requires 0 < n <= |kids|
    ensures |EntriesOf(LeavesOf(kids[..n]))| == |EntriesOf(LeavesOf(kids[..n - 1]))| + |Listing(kids[n - 1])|
  {
    assert kids[..n][..n - 1] == kids[..n - 1];
    EntriesConcat(LeavesOf(kids[..n - 1]), Leaves(kids[n - 1]));
    hide EntriesOf, Leaves;
  }

  lemma {:induction false} KidsHold(kids: seq<Tree>, keys: seq<I64>, lo: int, hi: int, height: nat, n: nat)
    requires |kids| == |keys| + 1 && n <= |kids| && AllFilled(kids)
    requires forall i :: 0 <= i < |kids| ==> WellFormed(kids[i], Lo(keys, lo, i), Hi(keys, hi, i), height)
    ensures height > 0 && |EntriesOf(LeavesOf(kids[..n]))| >= n * LeastKeys(height)
    decreases kids, 0, n
  {
    hide Filled, LeastKeys, WellFormed, LeavesOf, Leaves, EntriesOf;
    assert Filled(kids[0]);
    FilledHolds(kids[0], Lo(keys, lo, 0), Hi(keys, hi, 0), height);
    if n > 0 {
      KidsHold(kids, keys, lo, hi, height, n - 1);
      assert Filled(kids[n - 1]);
      FilledHolds(kids[n - 1], Lo(keys, lo, n - 1), Hi(keys, hi, n - 1), height);
      OneMoreKid(kids, n);
      var each := LeastKeys(height);
      assert n * each == (n - 1) * each + each;
    }
  }

  /** A tree that only grew has a root with two children at least: its height is at most
      logarithmic in the number of keys. */
  lemma GrownHolds(t: Tree, lo: int, hi: int, height: nat)
    requires WellFormed(t, lo, hi, height) && FilledBelow(t) && t.Inner?
    ensures height > 1 && |Listing(t)| >= 2 * LeastKeys(height - 1)
  {
    hide Filled, LeastKeys, LeavesOf, EntriesOf;
    assert WellFormed(t.kids[0], Lo(t.keys, lo, 0), Hi(t.keys, hi, 0), height - 1);
    KidsHold(t.kids, t.keys, lo, hi, height - 1, |t.kids|);
    assert t.kids[..|t.kids|] == t.kids;
    var each := LeastKeys(height - 1);
    assert |t.kids| * each == 2 * each + (|t.kids| - 2) * each;
  }
}
