/** The paged B+tree index (src/btree.rs). The pages hold a search tree whose rows are the
    map `index`; every operation is proved against that map. */
module BTrees {
  import opened Integers
  import opened Options
  import opened SearchTrees
  import opened LeafChains
  import opened NodeFills

  datatype Page =
    | LeafPage(entries: seq<LeafEntry>, next: Option<PageId>)
    | InnerPage(keys: seq<I64>, children: seq<PageId>)

  type Pages = map<PageId, Page>

  type Index = map<I64, seq<RowId>>

  function RowsOf(index: Index, key: I64): seq<RowId>
  {
    if key in index then index[key] else []
  }

  // ----- a tree on pages -------------------------------------------------------------------

  ghost function Ids(kids: seq<Tree>): (r: seq<PageId>)
    ensures |r| == |kids| && forall i :: 0 <= i < |kids| ==> r[i] == kids[i].id
  {
    seq(|kids|, i requires 0 <= i < |kids| => kids[i].id)
  }

  ghost function PageOf(t: Tree): Page
  {
    match t
    case Leaf(_, entries, next) => LeafPage(entries, next)
    case Inner(_, keys, kids) => InnerPage(keys, Ids(kids))
  }

  ghost predicate Stored(pages: Pages, t: Tree)
  {
    && t.id in pages && pages[t.id] == PageOf(t)
    && (t.Inner? ==> StoredAll(pages, t.kids))
  }

  ghost predicate StoredAll(pages: Pages, ts: seq<Tree>)
  {
    forall i :: 0 <= i < |ts| ==> Stored(pages, ts[i])
  }

  ghost predicate Agree(p: Pages, q: Pages, t: Tree)
  {
    forall x :: Has(t, x) && x in p ==> x in q && p[x] == q[x]
  }

  lemma {:induction false} StoredFrame(p: Pages, q: Pages, t: Tree)
    requires Stored(p, t) && Agree(p, q, t)
    ensures Stored(q, t)
  {
    assert Has(t, t.id);
    if t.Inner? {
      forall i | 0 <= i < |t.kids| ensures Stored(q, t.kids[i]) {
        forall x | Has(t.kids[i], x) && x in p ensures x in q && p[x] == q[x] {
          assert HasAny(t.kids, x) && Has(t, x);
        }
        StoredFrame(p, q, t.kids[i]);
      }
    }
  }

  /** Writing a page the tree does not use. */
  lemma StoredUpdate(p: Pages, x: PageId, page: Page, t: Tree)
    requires Stored(p, t) && !Has(t, x)
    ensures Stored(p[x := page], t)
  {
    StoredFrame(p, p[x := page], t);
  }

  lemma StoredAllUpdate(p: Pages, x: PageId, page: Page, ts: seq<Tree>)
    requires StoredAll(p, ts) && !HasAny(ts, x)
    ensures StoredAll(p[x := page], ts)
  {
    forall i | 0 <= i < |ts| ensures Stored(p[x := page], ts[i]) {
      StoredUpdate(p, x, page, ts[i]);
    }
  }

  /** Pages outside a child stay, so its siblings and its parent's page do. */
  lemma StoredInner(p: Pages, t: Tree)
    requires Stored(p, t) && t.Inner?
    ensures t.id in p && p[t.id] == PageOf(t) && (forall i :: 0 <= i < |t.kids| ==> Stored(p, t.kids[i]))
            && Has(t, t.id)
  {
  }

  lemma SiblingsStored(p: Pages, q: Pages, t: Tree, pos: nat)
    requires Stored(p, t) && Distinct(t) && t.Inner? && pos < |t.kids|
    requires forall x :: x in p && !Has(t.kids[pos], x) ==> x in q && p[x] == q[x]
    ensures t.id in q && q[t.id] == PageOf(t)
    ensures forall i :: 0 <= i < |t.kids| && i != pos ==> Stored(q, t.kids[i])
  {
    assert HasAny(t.kids, t.id) || !Has(t.kids[pos], t.id);
    forall i | 0 <= i < |t.kids| && i != pos ensures Stored(q, t.kids[i]) {
      assert Apart(t.kids[i], t.kids[pos]);
      StoredFrame(p, q, t.kids[i]);
    }
  }

  lemma SplicedStored(q: Pages, t: Tree, pos: nat, left: Tree, right: Tree)
    requires t.Inner? && pos < |t.kids| && Stored(q, left) && Stored(q, right)
    requires forall i :: 0 <= i < |t.kids| && i != pos ==> Stored(q, t.kids[i])
    ensures StoredAll(q, WithKids(t.kids, pos, left, right))
    ensures left.id == t.kids[pos].id ==>
            Ids(WithKids(t.kids, pos, left, right)) == Ids(t.kids)[..pos + 1] + [right.id] + Ids(t.kids)[pos + 1..]
  {
    hide Stored;
  }

  lemma WholeStored(q: Pages, id: PageId, keys: seq<I64>, kids: seq<Tree>)
    requires StoredAll(q, kids) && id in q && q[id] == InnerPage(keys, Ids(kids))
    ensures Stored(q, Inner(id, keys, kids))
  {
  }

  lemma HalvesStored(q: Pages, id: PageId, rightId: PageId, keys: seq<I64>, kids: seq<Tree>)
    requires StoredAll(q, kids) && |kids| == |keys| + 1 && |keys| > 0 && id in q && rightId in q
    requires var mid := |keys| / 2;
             q[id] == InnerPage(keys[..mid], Ids(kids)[..mid + 1])
               && q[rightId] == InnerPage(keys[mid + 1..], Ids(kids)[mid + 1..])
    ensures var g := SplitInner(id, keys, kids, rightId); Stored(q, g.left) && Stored(q, g.right)
  {
    var mid := |keys| / 2;
    assert Ids(kids[..mid + 1]) == Ids(kids)[..mid + 1] && Ids(kids[mid + 1..]) == Ids(kids)[mid + 1..];
    assert StoredAll(q, kids[..mid + 1]) && StoredAll(q, kids[mid + 1..]);
  }

  // ----- the tree ----------------------------------------------------------------------------

  class BTree {
    var pages: Pages
    var root: PageId
    var nextId: PageId
    var height: nat

    ghost var tree: Tree
    ghost var index: Index
    /** No row was ever removed. */
    ghost var grownOnly: bool

    ghost predicate Allocated()
      reads this
    {
      forall x :: x in pages ==> x < nextId
    }

    /** The pages store a balanced, sorted, chained search tree for the index. */
    ghost predicate Valid()
      reads this
    {
      && Shape(tree, height)
      && root == tree.id && Stored(pages, tree) && Below(tree, nextId) && Allocated()
      && IndexIs(tree, index)
      && (grownOnly ==> FilledBelow(tree))
    }

    /** Lines 210-227. */
    constructor ()
      ensures Valid() && index == map[] && height == 1 && grownOnly
    {
      grownOnly := true;
      pages := map[0 := LeafPage([], None)];
      root := 0;
      nextId := 1;
      height := 1;
      tree := Leaf(0, [], None);
      index := map[];
    }

    /** Lines 241-246. */
    method Alloc(page: Page) returns (id: PageId)
      requires Allocated()
      modifies this`pages, this`nextId
      ensures id == old(nextId) && nextId == old(nextId) + 1 && pages == old(pages)[id := page] && Allocated()
    {
      id := nextId;
      nextId := nextId + 1;
      pages := pages[id := page];
    }

    /** Lines 257-268: a split root gets a new root above it. */
    method Insert(key: I64, row: RowId)
      requires Valid()
      modifies this
      ensures Valid() && index == old(index)[key := Added(RowsOf(old(index), key), row)]
      ensures old(height) <= height <= old(height) + 1 && grownOnly == old(grownOnly)
    {
      hide Filled, WellFormed, Chained, Distinct, Has, SearchTrees.Insert, Added, SearchTrees.Lookup;
      var split := InsertRec(root, key, row, tree, I64_MIN, I64_MAX + 1, height);
      ghost var (grown, f) := SearchTrees.Insert(tree, key, row, old(nextId));
      GrownRoot(tree, key, row, old(nextId), height, index);
      if grownOnly {
        InsertFills(tree, key, row, old(nextId), I64_MIN, I64_MAX + 1, height);
      }
      if split.Some? {
        var (sep, right) := split.value;
        RootStored(pages, f, grown.left, sep, grown.right);
        root := Alloc(InnerPage([sep], [root, right]));
        height := height + 1;
        tree := Inner(f, [sep], [grown.left, grown.right]);
      } else {
        tree := grown.t;
      }
      index := index[key := Added(RowsOf(index, key), row)];
    }

    /** Lines 272-339: the pages hold what inserting into the stored subtree gives. */
    method InsertRec(id: PageId, key: I64, row: RowId, ghost t: Tree, ghost lo: int, ghost hi: int, ghost h: nat)
      returns (split: Option<(I64, PageId)>)
      requires WellFormed(t, lo, hi, h) && lo <= key < hi && t.id == id
      requires Stored(pages, t) && Distinct(t) && Below(t, nextId) && Allocated()
      modifies this`pages, this`nextId
      ensures Allocated() && nextId == SearchTrees.Insert(t, key, row, old(nextId)).1
      ensures StoredGrown(pages, SearchTrees.Insert(t, key, row, old(nextId)).0, split)
      ensures forall x :: x in old(pages) && !Has(t, x) ==> x in pages && pages[x] == old(pages)[x]
      decreases t
    {
      match pages[id] {
        case LeafPage(entries, next) =>
          split := InsertLeaf(id, key, row, t);
        case InnerPage(keys, children) =>
          split := InsertInner(id, key, row, t, lo, hi, h);
      }
    }

    method InsertLeaf(id: PageId, key: I64, row: RowId, ghost t: Tree) returns (split: Option<(I64, PageId)>)
      requires t.Leaf? && t.id == id && Stored(pages, t) && Below(t, nextId) && Allocated()
      modifies this`pages, this`nextId
      ensures Allocated() && nextId == SearchTrees.Insert(t, key, row, old(nextId)).1
      ensures StoredGrown(pages, SearchTrees.Insert(t, key, row, old(nextId)).0, split)
      ensures forall x :: x in old(pages) && !Has(t, x) ==> x in pages && pages[x] == old(pages)[x]
    {
      assert Has(t, id);
      var page := pages[id];
      var entries := page.entries;
      var pos := Slot(entries, key);
      if HasKey(entries, key) {
        if row !in entries[pos].rows {
          entries := entries[pos := LeafEntry(key, entries[pos].rows + [row])];
        } else {
          assert entries[pos] == LeafEntry(key, entries[pos].rows);
          assert entries == entries[pos := LeafEntry(key, entries[pos].rows)];
        }
      } else {
        entries := entries[..pos] + [LeafEntry(key, [row])] + entries[pos..];
      }
      assert entries == AddRow(t.entries, key, row);
      pages := pages[id := page.(entries := entries)];
      if |entries| > FANOUT {
        var mid := |entries| / 2;
        var right := LeafPage(entries[mid..], page.next);
        pages := pages[id := LeafPage(entries[..mid], Some(nextId))];
        var newId := Alloc(right);
        split := Some((entries[mid].key, newId));
      } else {
        split := None;
      }
    }

    method InsertInner(id: PageId, key: I64, row: RowId, ghost t: Tree, ghost lo: int, ghost hi: int, ghost h: nat)
      returns (split: Option<(I64, PageId)>)
      requires t.Inner? && WellFormed(t, lo, hi, h) && lo <= key < hi && t.id == id
      requires Stored(pages, t) && Distinct(t) && Below(t, nextId) && Allocated()
      modifies this`pages, this`nextId
      ensures Allocated() && nextId == SearchTrees.Insert(t, key, row, old(nextId)).1
      ensures StoredGrown(pages, SearchTrees.Insert(t, key, row, old(nextId)).0, split)
      ensures forall x :: x in old(pages) && !Has(t, x) ==> x in pages && pages[x] == old(pages)[x]
      decreases t, 0
    {
      hide Distinct, Below, Stored, Has, Rank, Added, Separates;
      StoredInner(pages, t);
      var keys, children := pages[id].keys, pages[id].children;
      var pos := Branch(keys, key);
      ghost var kid := t.kids[pos];
      ghost var klo, khi := Lo(keys, lo, pos), Hi(keys, hi, pos);
      InnerFacts(t, pos, key, lo, hi, h, nextId);
      var below := InsertRec(children[pos], key, row, kid, klo, khi, h - 1);
      ghost var (grown, f) := SearchTrees.Insert(kid, key, row, old(nextId));
      InsertDistinct(kid, key, row, old(nextId), klo, khi, h - 1);
      InsertWellFormed(kid, key, row, old(nextId), klo, khi, h - 1);
      SiblingsStored(old(pages), pages, t, pos);
      if below.Some? {
        var (sep, newId) := below.value;
        SeparatorPosition(keys, pos, sep, lo, hi);
        split := Splice(id, Rank(keys, sep), sep, newId, t, grown.left, grown.right, old(nextId));
      } else {
        ReplacedStored(pages, t, pos, grown.t);
        split := None;
      }
    }

    /** Lines 314-336: the parent takes the new separator and child, and may split. */
    method Splice(id: PageId, pos: nat, sep: I64, newId: PageId, ghost t: Tree, ghost left: Tree, ghost right: Tree,
            ghost unused: PageId) returns (split: Option<(I64, PageId)>)
      requires t.Inner? && t.id == id && pos < |t.kids| == |t.keys| + 1 && |t.keys| > 0 && id in pages
               && pages[id] == PageOf(t)
      requires Distinct(t) && Below(t, unused) && unused <= nextId && Allocated()
      requires forall i :: 0 <= i < |t.kids| && i != pos ==> Stored(pages, t.kids[i])
      requires Stored(pages, left) && Stored(pages, right) && right.id == newId
      requires GrownDistinct(Split(left, sep, right), t.kids[pos], unused, nextId)
      modifies this`pages, this`nextId
      ensures Allocated()
      ensures nextId == Spliced(id, t.keys, t.kids, pos, left, sep, right, old(nextId)).1
      ensures StoredGrown(pages, Spliced(id, t.keys, t.kids, pos, left, sep, right, old(nextId)).0, split)
      ensures forall x :: x in old(pages) && x != id ==> x in pages && pages[x] == old(pages)[x]
    {
      hide Within, Apart, Distinct, Stored, StoredAll, Has;
      ghost var more, moreKids := WithKey(t.keys, pos, sep), WithKids(t.kids, pos, left, right);
      SpliceDistinct(t, pos, left, right, unused, nextId);
      SplicedStored(pages, t, pos, left, right);
      SplicePages(t, pos, left, right, unused, nextId);
      var page := pages[id];
      var keys := page.keys[..pos] + [sep] + page.keys[pos..];
      var children := page.children[..pos + 1] + [newId] + page.children[pos + 1..];
      assert keys == more && children == Ids(moreKids);
      StoredAllUpdate(pages, id, InnerPage(keys, children), moreKids);
      pages := pages[id := InnerPage(keys, children)];
      if |keys| > FANOUT {
        var mid := |keys| / 2;
        var leftPage := InnerPage(keys[..mid], children[..mid + 1]);
        var rightPage := InnerPage(keys[mid + 1..], children[mid + 1..]);
        StoredAllUpdate(pages, id, leftPage, moreKids);
        pages := pages[id := leftPage];
        StoredAllUpdate(pages, nextId, rightPage, moreKids);
        var rightId := Alloc(rightPage);
        HalvesStored(pages, id, rightId, more, moreKids);
        split := Some((keys[mid], rightId));
      } else {
        WholeStored(pages, id, more, moreKids);
        split := None;
      }
    }

    /** Lines 391-407. */
    method Lookup(key: I64) returns (rows: seq<RowId>)
      requires Valid()
      ensures rows == RowsOf(index, key)
    {
      var id := root;
      ghost var cur, lo, hi, h := tree, I64_MIN, I64_MAX + 1, height;
      while pages[id].InnerPage?
        invariant WellFormed(cur, lo, hi, h) && Stored(pages, cur) && cur.id == id
        invariant SearchTrees.Lookup(cur, key) == SearchTrees.Lookup(tree, key)
        decreases cur
      {
        var pos := Branch(pages[id].keys, key);
        id := pages[id].children[pos];
        lo, hi, h := Lo(cur.keys, lo, pos), Hi(cur.keys, hi, pos), h - 1;
        cur := cur.kids[pos];
      }
      var entries := pages[id].entries;
      if HasKey(entries, key) {
        return entries[Slot(entries, key)].rows;
      }
      return [];
    }

    /** Lines 444-479. */
    method Remove(key: I64, row: RowId) returns (found: bool)
      requires Valid()
      modifies this
      ensures Valid() && found == (row in RowsOf(old(index), key)) && height == old(height)
      ensures index == Dropped(old(index), key, row)
    {
      found := RemoveRec(root, key, row, tree, I64_MIN, I64_MAX + 1, height);
      RemovedRoot(tree, key, row, height, index);
      tree := SearchTrees.Remove(tree, key, row);
      index := Dropped(index, key, row);
      grownOnly := false;
    }

    method RemoveRec(id: PageId, key: I64, row: RowId, ghost t: Tree, ghost lo: int, ghost hi: int, ghost h: nat)
      returns (found: bool)
      requires WellFormed(t, lo, hi, h) && Stored(pages, t) && Distinct(t) && t.id == id && Allocated()
      modifies this`pages
      ensures Stored(pages, SearchTrees.Remove(t, key, row)) && Allocated()
      ensures found == (row in SearchTrees.Lookup(t, key))
      ensures forall x :: x in old(pages) && !Has(t, x) ==> x in pages && pages[x] == old(pages)[x]
      decreases t
    {
      match pages[id] {
        case LeafPage(entries, next) =>
          assert Has(t, id);
          found := false;
          if HasKey(entries, key) {
            var pos := Slot(entries, key);
            var left := Without(entries[pos].rows, row);
            found := |left| < |entries[pos].rows|;
            if left == [] {
              pages := pages[id := LeafPage(entries[..pos] + entries[pos + 1..], next)];
            } else {
              pages := pages[id := LeafPage(entries[pos := LeafEntry(key, left)], next)];
            }
          }
        case InnerPage(keys, children) =>
          var pos := Branch(keys, key);
          ghost var kid := t.kids[pos];
          found := RemoveRec(children[pos], key, row, kid, Lo(keys, lo, pos), Hi(keys, hi, pos), h - 1);
          RemoveDistinct(kid, key, row);
          SiblingsStored(old(pages), pages, t, pos);
          ReplacedStored(pages, t, pos, SearchTrees.Remove(kid, key, row));
          assert forall x :: Has(kid, x) ==> HasAny(t.kids, x);
      }
    }

    // ----- walking the leaves --------------------------------------------------------------

    /** Everything in the index, in key order. */
    ghost function Entries(): seq<LeafEntry>
      reads this
    {
      Listing(tree)
    }

    /** Lines 497-518. */
    method Iter() returns (out: seq<(I64, RowId)>)
      requires Valid()
      ensures IsListing(Entries(), index) && out == PairsIn(Entries(), I64_MIN, I64_MAX)
    {
      TreeListing(tree, height, index);
      var id := root;
      ghost var cur, lo, hi, h := tree, I64_MIN, I64_MAX + 1, height;
      while pages[id].InnerPage?
        invariant WellFormed(cur, lo, hi, h) && Stored(pages, cur) && cur.id == id && First(cur) == First(tree)
        decreases cur
      {
        id := pages[id].children[0];
        hi, h := Hi(cur.keys, hi, 0), h - 1;
        cur := cur.kids[0];
      }
      LeavesLinked(tree, I64_MIN, I64_MAX + 1, height, None);
      out := Walk(id, 0, [], I64_MIN, I64_MAX);
    }

    /** Lines 410-441. */
    method Range(from: I64, to: I64) returns (out: seq<(I64, RowId)>)
      requires Valid()
      ensures IsListing(Entries(), index) && out == PairsIn(Entries(), from, to)
    {
      TreeListing(tree, height, index);
      LeavesLinked(tree, I64_MIN, I64_MAX + 1, height, None);
      var id, skipped := Descend(from);
      EntriesBelow(Leaves(tree)[..skipped], from);
      PairsOutside(EntriesOf(Leaves(tree)[..skipped]), from, to);
      out := Walk(id, skipped, [], from, to);
    }

    /** Lines 414-422: down to the leaf that would hold `from`, number `skipped` of the
        chain; the leaves before it hold only smaller keys. */
    method Descend(from: I64) returns (id: PageId, ghost skipped: nat)
      requires Valid()
      ensures skipped < |Leaves(tree)| && Leaves(tree)[skipped].id == id && AllBelow(Leaves(tree)[..skipped], from)
    {
      hide Leaves, LeavesOf, AllBelow, Separates;
      id := root;
      ghost var cur, lo, hi, h := tree, I64_MIN, I64_MAX + 1, height;
      ghost var all := Leaves(tree);
      skipped := 0;
      NoneBelow(all, from);
      while pages[id].InnerPage?
        invariant WellFormed(cur, lo, hi, h) && lo < hi && Stored(pages, cur) && cur.id == id
        invariant skipped + |Leaves(cur)| <= |all| && all[skipped..skipped + |Leaves(cur)|] == Leaves(cur)
        invariant AllBelow(all[..skipped], from)
        decreases cur
      {
        var pos := Branch(pages[id].keys, from);
        id := pages[id].children[pos];
        SkipLeaves(all, skipped, cur, from, lo, hi, h);
        KidInterval(cur, pos, lo, hi, h);
        skipped := skipped + |LeavesOf(cur.kids[..pos])|;
        lo, hi, h := Lo(cur.keys, lo, pos), Hi(cur.keys, hi, pos), h - 1;
        cur := cur.kids[pos];
      }
      LeafAlone(cur);
      assert all[skipped..skipped + 1][0] == cur;
    }

    /** Lines 424-440 and 506-517: follow the chain from leaf number `at` on. */
    method Walk(start: PageId, ghost at: nat, out0: seq<(I64, RowId)>, from: int, to: int)
      returns (out: seq<(I64, RowId)>)
      requires Valid() && at < |Leaves(tree)| && Leaves(tree)[at].id == start
      requires Linked(Leaves(tree), None) && Sorted(Listing(tree))
      requires out0 == PairsIn(EntriesOf(Leaves(tree)[..at]), from, to)
      ensures out == PairsIn(Listing(tree), from, to)
    {
      hide WellFormed, Chained, Distinct, Below, IndexIs, PairsIn, EntriesOf, Leaves, Sorted;
      out := out0;
      var id := start;
      ghost var all, i := Leaves(tree), at;
      while true
        invariant i < |all| && all[i].id == id && all == Leaves(tree)
        invariant out == PairsIn(EntriesOf(all[..i]), from, to)
        decreases |all| - i
      {
        LeafStored(pages, tree, i);
        NextLeaf(all, i, from, to);
        var leaf := pages[id];
        var past;
        out, past := EmitLeaf(out, leaf.entries, from, to);
        if past {
          RestBeyond(all, i, from, to);
          return;
        }
        if leaf.next.None? {
          LastLeaf(all, i);
          assert all[..i + 1] == all;
          return;
        }
        id := leaf.next.value;
        i := i + 1;
      }
    }

    method EmitLeaf(out0: seq<(I64, RowId)>, entries: seq<LeafEntry>, from: int, to: int)
      returns (out: seq<(I64, RowId)>, past: bool)
      requires Sorted(entries)
      ensures out == out0 + PairsIn(entries, from, to)
      ensures past <==> entries != [] && to < entries[|entries| - 1].key
    {
      hide PairsIn, RowPairs, Sorted;
      out := out0;
      past := false;
      PairsNone(from, to);
      assert entries[..0] == [];
      for n := 0 to |entries|
        invariant out == out0 + PairsIn(entries[..n], from, to)
        invariant n > 0 ==> entries[n - 1].key <= to
      {
        var e := entries[n];
        PairsStep(entries, n, from, to);
        if from <= e.key <= to {
          out := EmitRows(out, e);
        }
        if e.key > to {
          PairsBeyond(entries, n, from, to);
          past := true;
          return;
        }
      }
      assert entries[..|entries|] == entries;
    }

    method EmitRows(out0: seq<(I64, RowId)>, e: LeafEntry) returns (out: seq<(I64, RowId)>)
      ensures out == out0 + RowPairs(e.key, e.rows)
    {
      out := out0;
      for m := 0 to |e.rows|
        invariant out == out0 + RowPairs(e.key, e.rows)[..m]
      {
        out := out + [(e.key, e.rows[m])];
      }
    }
  }

  // ----- the root's invariant --------------------------------------------------------------

  ghost predicate Shape(t: Tree, height: nat)
  {
    WellFormed(t, I64_MIN, I64_MAX + 1, height) && Chained(t, None) && Distinct(t)
  }

  /** Descending finds the rows the index lists, and every listed key has some. */
  ghost predicate IndexIs(t: Tree, index: Index)
  {
    && (forall k: I64 :: SearchTrees.Lookup(t, k) == RowsOf(index, k))
    && (forall k :: k in index ==> index[k] != [])
  }

  ghost predicate StoredGrown(pages: Pages, g: Grown, split: Option<(I64, PageId)>)
  {
    match g
    case Whole(t) => split.None? && Stored(pages, t)
    case Split(left, sep, right) => split == Some((sep, right.id)) && Stored(pages, left) && Stored(pages, right)
  }

  function Dropped(index: Index, key: I64, row: RowId): Index
  {
    var left := Without(RowsOf(index, key), row);
    if left == [] then index - {key} else index[key := left]
  }

  /** Entries in strictly ascending key order, one for each key of the index. */
  ghost predicate IsListing(entries: seq<LeafEntry>, index: Index)
  {
    && Sorted(entries)
    && (forall i :: 0 <= i < |entries| ==> entries[i].key in index && index[entries[i].key] == entries[i].rows)
    && (forall k :: k in index ==> exists i :: 0 <= i < |entries| && entries[i].key == k)
  }

  // --- inserting

  lemma ReplacedStored(pages: Pages, t: Tree, pos: nat, kid: Tree)
    requires t.Inner? && pos < |t.kids| && t.id in pages && pages[t.id] == PageOf(t)
    requires forall i :: 0 <= i < |t.kids| && i != pos ==> Stored(pages, t.kids[i])
    requires Stored(pages, kid) && kid.id == t.kids[pos].id
    ensures Stored(pages, Inner(t.id, t.keys, t.kids[pos := kid]))
  {
    assert Ids(t.kids[pos := kid]) == Ids(t.kids);
    var s := Inner(t.id, t.keys, t.kids[pos := kid]);
    forall i | 0 <= i < |s.kids| ensures Stored(pages, s.kids[i]) {
      assert i != pos ==> s.kids[i] == t.kids[i];
    }
  }

  lemma InnerFacts(t: Tree, pos: nat, key: I64, lo: int, hi: int, h: nat, unused: PageId)
    requires t.Inner? && WellFormed(t, lo, hi, h) && lo <= key < hi && pos == Branch(t.keys, key)
    requires Distinct(t) && Below(t, unused)
    ensures pos < |t.kids| && WellFormed(t.kids[pos], Lo(t.keys, lo, pos), Hi(t.keys, hi, pos), h - 1)
    ensures Lo(t.keys, lo, pos) <= key < Hi(t.keys, hi, pos)
    ensures Distinct(t.kids[pos]) && Below(t.kids[pos], unused)
    ensures forall x :: Has(t.kids[pos], x) ==> Has(t, x)
  {
    RankSplits(t.keys, key);
    KidPages(t, unused);
  }

  /** Which pages the spliced children use. */
  lemma SplicePages(t: Tree, pos: nat, left: Tree, right: Tree, unused: PageId, unused': PageId)
    requires t.Inner? && pos < |t.kids| && Distinct(t) && Below(t, unused) && unused <= unused'
    requires var s := Inner(t.id, t.keys, WithKids(t.kids, pos, left, right));
             Distinct(s) && Within(s, t, unused, unused')
    ensures !HasAny(WithKids(t.kids, pos, left, right), t.id)
    ensures !HasAny(WithKids(t.kids, pos, left, right), unused')
    ensures t.id < unused
  {
    var s := Inner(t.id, t.keys, WithKids(t.kids, pos, left, right));
    assert Has(t, t.id);
    if HasAny(s.kids, unused') {
      assert Has(s, unused');
    }
  }

  /** What the root becomes, split or not. */
  lemma GrownRoot(t: Tree, key: I64, row: RowId, unused: PageId, height: nat, index: Index)
    requires Shape(t, height) && Below(t, unused) && IndexIs(t, index)
    ensures var (g, f) := SearchTrees.Insert(t, key, row, unused);
            var next := index[key := Added(RowsOf(index, key), row)];
            match g
            case Whole(s) => s.id == t.id && Shape(s, height) && Below(s, f) && IndexIs(s, next)
            case Split(left, sep, right) =>
              var s := Inner(f, [sep], [left, right]);
              left.id == t.id && !Has(left, f) && !Has(right, f) && Shape(s, height + 1) && Below(s, f + 1)
                && IndexIs(s, next)
  {
    hide SearchTrees.Insert, WellFormed, Chained, Distinct, Lookup;
    var (g, f) := SearchTrees.Insert(t, key, row, unused);
    var next := index[key := Added(RowsOf(index, key), row)];
    InsertWellFormed(t, key, row, unused, I64_MIN, I64_MAX + 1, height);
    InsertChained(t, key, row, unused, I64_MIN, I64_MAX + 1, height, None);
    InsertDistinct(t, key, row, unused, I64_MIN, I64_MAX + 1, height);
    GrownIndex(t, key, row, unused, height, index);
    match g
    case Whole(s) =>
      BelowGrows(s, t, unused, f);
    case Split(left, sep, right) =>
      BelowGrows(left, t, unused, f);
      BelowGrows(right, t, unused, f);
      NewRoot(left, sep, right, f, height, next);
  }

  lemma GrownIndex(t: Tree, key: I64, row: RowId, unused: PageId, height: nat, index: Index)
    requires Shape(t, height) && IndexIs(t, index)
    ensures var g, next := SearchTrees.Insert(t, key, row, unused).0, index[key := Added(RowsOf(index, key), row)];
            (forall k: I64 :: LookupGrown(g, k) == RowsOf(next, k)) && (forall k :: k in next ==> next[k] != [])
  {
    hide SearchTrees.Insert, WellFormed, Lookup;
    var g, next := SearchTrees.Insert(t, key, row, unused).0, index[key := Added(RowsOf(index, key), row)];
    forall k: I64 ensures LookupGrown(g, k) == RowsOf(next, k) {
      InsertLookup(t, key, row, unused, I64_MIN, I64_MAX + 1, height, k);
    }
  }

  lemma NewRoot(left: Tree, sep: I64, right: Tree, f: PageId, height: nat, index: Index)
    requires GrownWellFormed(Split(left, sep, right), I64_MIN, I64_MAX + 1, height)
             && GrownChained(Split(left, sep, right), None)
    requires Distinct(left) && Distinct(right) && Apart(left, right) && Below(left, f) && Below(right, f)
    requires forall k: I64 :: LookupGrown(Split(left, sep, right), k) == RowsOf(index, k)
    requires forall k :: k in index ==> index[k] != []
    ensures var s := Inner(f, [sep], [left, right]); Shape(s, height + 1) && Below(s, f + 1) && IndexIs(s, index)
    ensures !Has(left, f) && !Has(right, f)
  {
    var s := Inner(f, [sep], [left, right]);
    assert height > 0;
    RootPages(left, right, sep, f);
    RootShape(left, sep, right, f, height);
    forall k: I64 ensures SearchTrees.Lookup(s, k) == LookupGrown(Split(left, sep, right), k) {
      RankUnique([sep], k, if k < sep then 0 else 1);
    }
  }

  lemma RootStored(pages: Pages, f: PageId, left: Tree, sep: I64, right: Tree)
    requires Stored(pages, left) && Stored(pages, right) && !Has(left, f) && !Has(right, f)
    ensures Stored(pages[f := InnerPage([sep], [left.id, right.id])], Inner(f, [sep], [left, right]))
  {
    var t := Inner(f, [sep], [left, right]);
    assert Ids(t.kids) == [left.id, right.id];
    StoredUpdate(pages, f, PageOf(t), left);
    StoredUpdate(pages, f, PageOf(t), right);
  }

  lemma RootShape(left: Tree, sep: I64, right: Tree, f: PageId, height: nat)
    requires GrownWellFormed(Split(left, sep, right), I64_MIN, I64_MAX + 1, height)
             && GrownChained(Split(left, sep, right), None)
    requires height > 0
    ensures var s := Inner(f, [sep], [left, right]); WellFormed(s, I64_MIN, I64_MAX + 1, height + 1) && Chained(s, None)
  {
  }

  lemma RootPages(left: Tree, right: Tree, sep: I64, f: PageId)
    requires Distinct(left) && Distinct(right) && Apart(left, right) && Below(left, f) && Below(right, f)
    ensures var s := Inner(f, [sep], [left, right]); Distinct(s) && Below(s, f + 1)
  {
    var kids := [left, right];
    forall x | HasAny(kids, x) ensures x < f {
      assert Has(left, x) || Has(right, x);
    }
    assert Apart(right, left);
    assert PairwiseApart(kids);
  }

  // --- removing

  lemma RemovedRoot(t: Tree, key: I64, row: RowId, height: nat, index: Index)
    requires Shape(t, height) && IndexIs(t, index)
    ensures var s := SearchTrees.Remove(t, key, row);
            s.id == t.id && Shape(s, height) && IndexIs(s, Dropped(index, key, row)) && forall x :: Has(s, x) <==>
              Has(t, x)
  {
    RemoveWellFormed(t, key, row, I64_MIN, I64_MAX + 1, height, None);
    RemoveDistinct(t, key, row);
    forall k: I64
      ensures SearchTrees.Lookup(SearchTrees.Remove(t, key, row), k) == RowsOf(Dropped(index, key, row), k)
    {
      RemoveLookup(t, key, row, I64_MIN, I64_MAX + 1, height, k);
    }
    hide SearchTrees.Remove;
  }

  // --- walking

  /** The leaves list the index. */
  lemma TreeListing(t: Tree, height: nat, index: Index)
    requires Shape(t, height) && IndexIs(t, index)
    ensures IsListing(Listing(t), index)
  {
    ListingGood(t, I64_MIN, I64_MAX + 1, height);
    var entries := Listing(t);
    forall i | 0 <= i < |entries| ensures entries[i].key in index && index[entries[i].key] == entries[i].rows {
      FindAt(entries, i);
    }
    forall k | k in index ensures exists i :: 0 <= i < |entries| && entries[i].key == k {
      assert Find(entries, k) != [];
      assert entries[Slot(entries, k)].key == k;
    }
  }

  /** Two listings of one index are the same. */
  lemma {:induction false} ListingUnique(a: seq<LeafEntry>, b: seq<LeafEntry>, index: Index)
    requires IsListing(a, index) && IsListing(b, index)
    ensures a == b
  {
    SameUpTo(a, b, index, |a|);
    SameUpTo(b, a, index, |b|);
  }

  lemma ListingSorted(a: seq<LeafEntry>, b: seq<LeafEntry>, index: Index)
    requires IsListing(a, index) && IsListing(b, index)
    ensures Sorted(a) && Sorted(b)
  {
  }

  lemma {:induction false} SameUpTo(a: seq<LeafEntry>, b: seq<LeafEntry>, index: Index, n: nat)
    requires IsListing(a, index) && IsListing(b, index) && n <= |a|
    ensures n <= |b| && a[..n] == b[..n]
  {
    hide IsListing, Sorted;
    if n > 0 {
      SameUpTo(a, b, index, n - 1);
      ListingSorted(a, b, index);
      var i := ListedUnder(b, index, a, n - 1);
      if i < n - 1 {
        PrefixSmaller(a, b, n, i);
      }
      var j := ListedUnder(a, index, b, n - 1);
      if j < n - 1 {
        PrefixSmaller(b, a, n, j);
      }
      assert a[n - 1] == b[n - 1];
      assert a[..n] == a[..n - 1] + [a[n - 1]] && b[..n] == b[..n - 1] + [b[n - 1]];
    }
  }

  /** Where one listing has the n-th entry of another. */
  lemma ListedUnder(a: seq<LeafEntry>, index: Index, b: seq<LeafEntry>, n: nat) returns (i: nat)
    requires IsListing(a, index) && IsListing(b, index) && n < |b|
    ensures i < |a| && a[i] == b[n] && (i <= n < |a| ==> a[i].key <= a[n].key) && (n < i ==> a[n].key < a[i].key)
  {
    assert b[n].key in index;
    i :| 0 <= i < |a| && a[i].key == b[n].key;
  }

  /** After equal prefixes, the keys of the prefix are below the next key. */
  lemma PrefixSmaller(a: seq<LeafEntry>, b: seq<LeafEntry>, n: nat, i: nat)
    requires Sorted(a) && 0 < n <= |a| && n - 1 <= |b| && a[..n - 1] == b[..n - 1] && i < n - 1
    ensures b[i].key < a[n - 1].key
  {
    assert b[..n - 1][i] == a[..n - 1][i];
  }

  lemma SkipLeaves(all: seq<Tree>, skipped: nat, cur: Tree, from: int, lo: int, hi: int, h: nat)
    requires cur.Inner? && WellFormed(cur, lo, hi, h) && lo < hi
    requires skipped + |Leaves(cur)| <= |all| && all[skipped..skipped + |Leaves(cur)|] == Leaves(cur)
    requires AllBelow(all[..skipped], from)
    ensures Branch(cur.keys, from) < |cur.kids|
    ensures var pos := Branch(cur.keys, from);
            var off, n := |LeavesOf(cur.kids[..pos])|, |Leaves(cur.kids[pos])|;
            skipped + off + n <= |all| && all[skipped + off..skipped + off + n] == Leaves(cur.kids[pos])
              && AllBelow(all[..skipped + off], from)
  {
    var pos := Branch(cur.keys, from);
    LeavesBefore(cur, from, lo, hi, h);
    KidLeaves(cur.kids, pos);
    var off, n := |LeavesOf(cur.kids[..pos])|, |Leaves(cur.kids[pos])|;
    WithinSlice(all, skipped, Leaves(cur), off, n);
    BelowConcat(all[..skipped], Leaves(cur)[..off], from);
    hide AllBelow, Leaves, LeavesOf, WellFormed;
  }

  lemma WithinSlice(all: seq<Tree>, from: nat, ls: seq<Tree>, off: nat, n: nat)
    requires from + |ls| <= |all| && all[from..from + |ls|] == ls && off + n <= |ls|
    ensures all[from + off..from + off + n] == ls[off..off + n] && all[..from + off] == all[..from] + ls[..off]
  {
    forall j | 0 <= j < |ls| ensures all[from + j] == ls[j] {
      assert all[from..from + |ls|][j] == all[from + j];
    }
  }

  lemma BelowConcat(a: seq<Tree>, b: seq<Tree>, key: int)
    requires AllBelow(a, key) && AllBelow(b, key)
    ensures AllBelow(a + b, key)
  {
  }

  lemma NoneBelow(all: seq<Tree>, key: int)
    ensures AllBelow(all[..0], key)
  {
  }

  lemma LeafAlone(t: Tree)
    requires t.Leaf?
    ensures Leaves(t) == [t]
  {
  }

  /** One more leaf, one more leaf's entries. */
  lemma NextLeaf(all: seq<Tree>, i: nat, from: int, to: int)
    requires i < |all| && all[i].Leaf? && Sorted(EntriesOf(all))
    ensures Sorted(all[i].entries)
    ensures PairsIn(EntriesOf(all[..i + 1]), from, to)
            == PairsIn(EntriesOf(all[..i]), from, to) + PairsIn(all[i].entries, from, to)
  {
    hide EntriesOf, PairsIn, Sorted;
    EntriesStep(all, i);
    PairsConcat(EntriesOf(all[..i]), all[i].entries, from, to);
    SortedMiddle(EntriesOf(all[..i]), all[i].entries, EntriesOf(all[i + 1..]));
  }

  lemma EntriesStep(all: seq<Tree>, i: nat)
    requires i < |all| && all[i].Leaf?
    ensures EntriesOf(all[..i + 1]) == EntriesOf(all[..i]) + all[i].entries
    ensures EntriesOf(all) == (EntriesOf(all[..i]) + all[i].entries) + EntriesOf(all[i + 1..])
  {
    assert all[..i + 1][..i] == all[..i];
    EntriesConcat(all[..i + 1], all[i + 1..]);
    assert all == all[..i + 1] + all[i + 1..];
  }

  lemma LastLeaf(all: seq<Tree>, i: nat)
    requires Linked(all, None) && i < |all| && all[i].Leaf? && all[i].next.None?
    ensures i == |all| - 1
  {
    if i + 1 < |all| {
      NextOf(all, i);
    }
  }

  lemma NextOf(all: seq<Tree>, i: nat)
    requires Linked(all, None) && i + 1 < |all|
    ensures all[i].Leaf? && all[i].next == Some(all[i + 1].id)
  {
  }

  lemma SortedMiddle(a: seq<LeafEntry>, e: seq<LeafEntry>, b: seq<LeafEntry>)
    requires Sorted((a + e) + b)
    ensures Sorted(e)
  {
    forall j, k | 0 <= j < k < |e| ensures e[j].key < e[k].key {
      assert ((a + e) + b)[|a| + j] == e[j] && ((a + e) + b)[|a| + k] == e[k];
    }
  }

  /** A leaf of a stored tree is on its page. */
  lemma {:induction false} LeafStored(pages: Pages, t: Tree, i: nat)
    requires Stored(pages, t) && i < |Leaves(t)|
    ensures Leaves(t)[i].Leaf? && Stored(pages, Leaves(t)[i])
    decreases t, 1
  {
    if t.Inner? {
      LeavesStored(pages, t.kids, i);
    }
  }

  lemma {:induction false} LeavesStored(pages: Pages, ts: seq<Tree>, i: nat)
    requires StoredAll(pages, ts) && i < |LeavesOf(ts)|
    ensures LeavesOf(ts)[i].Leaf? && Stored(pages, LeavesOf(ts)[i])
    decreases ts, 0
  {
    var front := LeavesOf(ts[..|ts| - 1]);
    if i < |front| {
      LeavesStored(pages, ts[..|ts| - 1], i);
    } else {
      LeafStored(pages, ts[|ts| - 1], i - |front|);
    }
  }

  lemma PairsNone(from: int, to: int)
    ensures PairsIn([], from, to) == []
  {
  }

  lemma PairsStep(entries: seq<LeafEntry>, n: nat, from: int, to: int)
    requires n < |entries|
    ensures PairsIn(entries[..n + 1], from, to) == PairsIn(entries[..n], from, to) +
            if from <= entries[n].key <= to then RowPairs(entries[n].key, entries[n].rows) else []
  {
    assert entries[..n + 1][..n] == entries[..n];
  }

  lemma PairsBeyond(entries: seq<LeafEntry>, n: nat, from: int, to: int)
    requires Sorted(entries) && n < |entries| && to < entries[n].key
    ensures PairsIn(entries, from, to) == PairsIn(entries[..n], from, to) && to < entries[|entries| - 1].key
  {
    PairsConcat(entries[..n], entries[n..], from, to);
    PairsOutside(entries[n..], from, to);
    assert entries[..n] + entries[n..] == entries;
  }

  /** Past a leaf whose last key exceeds the range, nothing is left to list. */
  lemma RestBeyond(all: seq<Tree>, i: nat, from: int, to: int)
    requires i < |all| && all[i].Leaf? && Sorted(EntriesOf(all))
    requires all[i].entries != [] && to < all[i].entries[|all[i].entries| - 1].key
    ensures PairsIn(EntriesOf(all), from, to) == PairsIn(EntriesOf(all[..i + 1]), from, to)
  {
    var a, b := EntriesOf(all[..i + 1]), EntriesOf(all[i + 1..]);
    assert all == all[..i + 1] + all[i + 1..];
    EntriesConcat(all[..i + 1], all[i + 1..]);
    assert all[..i + 1][..i] == all[..i];
    assert a[|a| - 1] == all[i].entries[|all[i].entries| - 1];
    forall j | 0 <= j < |b| ensures to < b[j].key {
      assert (a + b)[|a| + j] == b[j] && (a + b)[|a| - 1] == a[|a| - 1];
    }
    PairsOutside(b, from, to);
    PairsConcat(a, b, from, to);
  }
}
