/** The B+tree of src/btree.rs as a value: what inserting and removing do to the tree that
    the pages hold, and what they keep (lines 257-401 and 451-488). */
module SearchTrees {
  import opened Integers
  import opened Options

  const FANOUT: nat := 8

  type PageId = nat
  type RowId = U64

  datatype LeafEntry = LeafEntry(key: I64, rows: seq<RowId>)

  datatype Tree =
    | Leaf(id: PageId, entries: seq<LeafEntry>, next: Option<PageId>)
    | Inner(id: PageId, keys: seq<I64>, kids: seq<Tree>)

  // ----- searching a node ------------------------------------------------------------

  /** How many leading keys are at most `key`. */
  function Rank(keys: seq<I64>, key: int): (r: nat)
    ensures r <= |keys|
  {
    if keys == [] || keys[0] > key then 0 else 1 + Rank(keys[1..], key)
  }

  ghost predicate Ascending(keys: seq<I64>)
  {
    forall i, j :: 0 <= i < j < |keys| ==> keys[i] < keys[j]
  }

  lemma {:induction false} RankSplits(keys: seq<I64>, key: int)
    requires Ascending(keys)
    ensures forall i :: 0 <= i < Rank(keys, key) ==> keys[i] <= key
    ensures forall i :: Rank(keys, key) <= i < |keys| ==> key < keys[i]
  {
    if keys != [] && keys[0] <= key {
      RankSplits(keys[1..], key);
    }
  }

  lemma RankUnique(keys: seq<I64>, key: int, r: nat)
    requires Ascending(keys) && r <= |keys|
    requires (r == 0 || keys[r - 1] <= key) && (r == |keys| || key < keys[r])
    ensures Rank(keys, key) == r
  {
    RankSplits(keys, key);
  }

  /** The child to descend into; the source caps it at the last one. */
  function Branch(keys: seq<I64>, key: int): (r: nat)
    ensures r <= |keys|
  {
    Rank(keys, key)
  }

  /** How many leading entries have a key less than `key`. */
  function Slot(entries: seq<LeafEntry>, key: int): (r: nat)
    ensures r <= |entries|
  {
    if entries == [] || entries[0].key >= key then 0 else 1 + Slot(entries[1..], key)
  }

  ghost predicate Sorted(entries: seq<LeafEntry>)
  {
    forall i, j :: 0 <= i < j < |entries| ==> entries[i].key < entries[j].key
  }

  lemma {:induction false} SlotSplits(entries: seq<LeafEntry>, key: int)
    requires Sorted(entries)
    ensures forall i :: 0 <= i < Slot(entries, key) ==> entries[i].key < key
    ensures forall i :: Slot(entries, key) <= i < |entries| ==> key <= entries[i].key
  {
    if entries != [] && entries[0].key < key {
      SlotSplits(entries[1..], key);
    }
  }

  predicate HasKey(entries: seq<LeafEntry>, key: int)
  {
    var pos := Slot(entries, key);
    pos < |entries| && entries[pos].key == key
  }

  /** The rows listed under a key. */
  function Find(entries: seq<LeafEntry>, key: int): seq<RowId>
  {
    if HasKey(entries, key) then entries[Slot(entries, key)].rows else []
  }

  lemma FindAt(entries: seq<LeafEntry>, i: nat)
    requires Sorted(entries) && i < |entries|
    ensures HasKey(entries, entries[i].key) && Find(entries, entries[i].key) == entries[i].rows
  {
    SlotSplits(entries, entries[i].key);
  }

  lemma FindAbsent(entries: seq<LeafEntry>, key: int)
    requires forall i :: 0 <= i < |entries| ==> entries[i].key != key
    ensures !HasKey(entries, key) && Find(entries, key) == []
  {
  }

  // ----- rows and entries ----------------------------------------------------------------

  function Added(rows: seq<RowId>, row: RowId): seq<RowId>
  {
    if row in rows then rows else rows + [row]
  }

  function Without(rows: seq<RowId>, row: RowId): (r: seq<RowId>)
    ensures forall x :: x in r <==> x in rows && x != row
    ensures |r| <= |rows| && (|r| < |rows| <==> row in rows)
  {
    if rows == [] then []
    else
      var rest := Without(rows[..|rows| - 1], row);
      if rows[|rows| - 1] == row then rest else rest + [rows[|rows| - 1]]
  }

  /** Lines 279-288. */
  function AddRow(entries: seq<LeafEntry>, key: I64, row: RowId): seq<LeafEntry>
  {
    var pos := Slot(entries, key);
    if HasKey(entries, key) then entries[pos := LeafEntry(key, Added(entries[pos].rows, row))]
    else entries[..pos] + [LeafEntry(key, [row])] + entries[pos..]
  }

  /** Lines 454-460. */
  function DropRow(entries: seq<LeafEntry>, key: I64, row: RowId): seq<LeafEntry>
  {
    var pos := Slot(entries, key);
    if !HasKey(entries, key) then entries
    else
      var left := Without(entries[pos].rows, row);
      if left == [] then entries[..pos] + entries[pos + 1..] else entries[pos := LeafEntry(key, left)]
  }

  /** Entries fit for a leaf covering the keys from `lo` up to but not including `hi`. */
  ghost predicate GoodEntries(entries: seq<LeafEntry>, lo: int, hi: int)
  {
    && Sorted(entries)
    && forall i :: 0 <= i < |entries| ==> lo <= entries[i].key < hi && entries[i].rows != []
  }

  lemma InsertedGood(entries: seq<LeafEntry>, pos: nat, e: LeafEntry, lo: int, hi: int)
    requires GoodEntries(entries, lo, hi) && pos <= |entries| && lo <= e.key < hi && e.rows != []
    requires forall i :: 0 <= i < pos ==> entries[i].key < e.key
    requires forall i :: pos <= i < |entries| ==> e.key < entries[i].key
    ensures GoodEntries(entries[..pos] + [e] + entries[pos..], lo, hi)
  {
    var after := entries[..pos] + [e] + entries[pos..];
    forall i, j | 0 <= i < j < |after| ensures after[i].key < after[j].key {
      if i != pos && j != pos {
        assert after[i] == entries[if i < pos then i else i - 1];
        assert after[j] == entries[if j < pos then j else j - 1];
      }
    }
  }

  lemma AddRowGood(entries: seq<LeafEntry>, key: I64, row: RowId, lo: int, hi: int)
    requires GoodEntries(entries, lo, hi) && lo <= key < hi
    ensures GoodEntries(AddRow(entries, key, row), lo, hi)
    ensures |AddRow(entries, key, row)| <= |entries| + 1
  {
    SlotSplits(entries, key);
    var pos := Slot(entries, key);
    if !HasKey(entries, key) {
      forall i | pos <= i < |entries| ensures key < entries[i].key {
        if i == pos {
          assert entries[pos].key != key;
        } else {
          assert entries[pos].key < entries[i].key;
        }
      }
      InsertedGood(entries, pos, LeafEntry(key, [row]), lo, hi);
    }
  }

  lemma AddRowFind(entries: seq<LeafEntry>, key: I64, row: RowId, k: int)
    requires Sorted(entries) && Sorted(AddRow(entries, key, row))
    ensures Find(AddRow(entries, key, row), k) == if k == key then Added(Find(entries, key), row) else Find(entries, k)
  {
    var pos, after := Slot(entries, key), AddRow(entries, key, row);
    SlotSplits(entries, key);
    SlotSplits(entries, k);
    if k == key {
      FindAt(after, pos);
    } else if HasKey(entries, k) {
      var i := Slot(entries, k);
      FindAt(after, if HasKey(entries, key) || i < pos then i else i + 1);
    } else {
      FindAbsent(after, k);
    }
  }

  lemma DropRowGood(entries: seq<LeafEntry>, key: I64, row: RowId, lo: int, hi: int)
    requires GoodEntries(entries, lo, hi)
    ensures GoodEntries(DropRow(entries, key, row), lo, hi)
    ensures |DropRow(entries, key, row)| <= |entries|
  {
    hide Slot;
    if HasKey(entries, key) && Without(entries[Slot(entries, key)].rows, row) == [] {
      DeletedGood(entries, Slot(entries, key), lo, hi);
    }
  }

  lemma DeletedGood(entries: seq<LeafEntry>, pos: nat, lo: int, hi: int)
    requires GoodEntries(entries, lo, hi) && pos < |entries|
    ensures GoodEntries(entries[..pos] + entries[pos + 1..], lo, hi)
  {
    var after := entries[..pos] + entries[pos + 1..];
    assert forall i :: 0 <= i < |after| ==> after[i] == entries[if i < pos then i else i + 1];
  }

  lemma DropRowFind(entries: seq<LeafEntry>, key: I64, row: RowId, k: int)
    requires Sorted(entries) && Sorted(DropRow(entries, key, row))
    ensures Find(DropRow(entries, key, row), k) ==
            if k == key then Without(Find(entries, key), row) else Find(entries, k)
  {
    var pos, after := Slot(entries, key), DropRow(entries, key, row);
    SlotSplits(entries, key);
    SlotSplits(entries, k);
    if HasKey(entries, key) {
      var left := Without(entries[pos].rows, row);
      if k == key {
        if left == [] {
          FindAbsent(after, k);
        } else {
          FindAt(after, pos);
        }
      } else if HasKey(entries, k) {
        var i := Slot(entries, k);
        FindAt(after, if left != [] || i < pos then i else i - 1);
      } else {
        FindAbsent(after, k);
      }
    }
  }

  // ----- the tree's invariant ---------------------------------------------------------

  function Lo(keys: seq<I64>, lo: int, i: nat): int
    requires i <= |keys|
  {
    if i == 0 then lo else keys[i - 1]
  }

  function Hi(keys: seq<I64>, hi: int, i: nat): int
    requires i <= |keys|
  {
    if i == |keys| then hi else keys[i]
  }

  /** Separators lie strictly inside the interval, in order. */
  ghost predicate Separates(keys: seq<I64>, lo: int, hi: int)
  {
    Ascending(keys) && forall i :: 0 <= i < |keys| ==> lo < keys[i] < hi
  }

  /** A search tree for the keys in [lo, hi) whose leaves are all `height` levels down and
      whose nodes hold at most FANOUT keys. */
  ghost predicate WellFormed(t: Tree, lo: int, hi: int, height: nat)
  {
    match t
    case Leaf(_, entries, _) => height == 1 && |entries| <= FANOUT && GoodEntries(entries, lo, hi)
    case Inner(_, keys, kids) =>
      && height > 1 && 1 <= |keys| <= FANOUT && |kids| == |keys| + 1 && Separates(keys, lo, hi)
      && forall i :: 0 <= i < |kids| ==> WellFormed(kids[i], Lo(keys, lo, i), Hi(keys, hi, i), height - 1)
  }

  /** The rows found by descending from the root (lines 404-420). */
  function Lookup(t: Tree, key: int): seq<RowId>
  {
    match t
    case Leaf(_, entries, _) => Find(entries, key)
    case Inner(_, keys, kids) => if Branch(keys, key) < |kids| then Lookup(kids[Branch(keys, key)], key) else []
  }

  /** The leftmost leaf. */
  function First(t: Tree): PageId
  {
    match t
    case Leaf(id, _, _) => id
    case Inner(id, _, kids) => if kids == [] then id else First(kids[0])
  }

  /** Where the chain goes after child `i`. */
  function After(kids: seq<Tree>, after: Option<PageId>, i: nat): Option<PageId>
    requires i < |kids|
  {
    if i + 1 < |kids| then Some(First(kids[i + 1])) else after
  }

  /** Each leaf's link names the next leaf in key order; the last one's is `after`. */
  ghost predicate Chained(t: Tree, after: Option<PageId>)
  {
    match t
    case Leaf(_, _, next) => next == after
    case Inner(_, _, kids) => ChainedAll(kids, after)
  }

  ghost predicate ChainedAll(kids: seq<Tree>, after: Option<PageId>)
  {
    forall i :: 0 <= i < |kids| ==> Chained(kids[i], After(kids, after, i))
  }

  ghost predicate Has(t: Tree, x: int)
  {
    t.id == x || (t.Inner? && HasAny(t.kids, x))
  }

  ghost predicate HasAny(ts: seq<Tree>, x: int)
  {
    exists i :: 0 <= i < |ts| && Has(ts[i], x)
  }

  ghost predicate Apart(s: Tree, t: Tree)
  {
    forall x :: Has(s, x) ==> !Has(t, x)
  }

  ghost predicate PairwiseApart(ts: seq<Tree>)
  {
    forall i, j :: 0 <= i < |ts| && 0 <= j < |ts| && i != j ==> Apart(ts[i], ts[j])
  }

  /** No page occurs twice. */
  ghost predicate Distinct(t: Tree)
  {
    t.Inner? ==>
      && !HasAny(t.kids, t.id)
      && PairwiseApart(t.kids)
      && forall i :: 0 <= i < |t.kids| ==> Distinct(t.kids[i])
  }

  ghost predicate Below(t: Tree, unused: PageId)
  {
    forall x :: Has(t, x) ==> x < unused
  }

  // ----- inserting ---------------------------------------------------------------------

  datatype Grown = Whole(t: Tree) | Split(left: Tree, sep: I64, right: Tree)

  /** Lines 341-363: an overfull leaf gives its upper half to a new page. */
  function SplitLeaf(id: PageId, entries: seq<LeafEntry>, next: Option<PageId>, unused: PageId): Grown
    requires |entries| > 0
  {
    var mid := |entries| / 2;
    Split(Leaf(id, entries[..mid], Some(unused)), entries[mid].key, Leaf(unused, entries[mid..], next))
  }

  /** Lines 365-388: an overfull inner node gives its upper half away and its middle
      separator up. */
  function SplitInner(id: PageId, keys: seq<I64>, kids: seq<Tree>, unused: PageId): Grown
    requires |keys| > 0 && |kids| == |keys| + 1
  {
    var mid := |keys| / 2;
    Split(Inner(id, keys[..mid], kids[..mid + 1]), keys[mid], Inner(unused, keys[mid + 1..], kids[mid + 1..]))
  }

  /** Lines 318-320: the new separator and the new child to its right. */
  function WithKey(keys: seq<I64>, pos: nat, sep: I64): seq<I64>
    requires pos <= |keys|
  {
    keys[..pos] + [sep] + keys[pos..]
  }

  function WithKids(kids: seq<Tree>, pos: nat, left: Tree, right: Tree): seq<Tree>
    requires pos < |kids|
  {
    kids[..pos] + [left, right] + kids[pos + 1..]
  }

  /** Lines 272-339: the tree after an insertion, or its two halves, and the next unused
      page number. */
  function Insert(t: Tree, key: I64, row: RowId, unused: PageId): (Grown, PageId)
  {
    match t
    case Leaf(id, entries, next) =>
      var more := AddRow(entries, key, row);
      if |more| > FANOUT then (SplitLeaf(id, more, next, unused), unused + 1)
      else (Whole(Leaf(id, more, next)), unused)
    case Inner(id, keys, kids) =>
      var pos := Branch(keys, key);
      if pos >= |kids| then (Whole(t), unused)
      else
        var (grown, unused') := Insert(kids[pos], key, row, unused);
        match grown
        case Whole(kid) => (Whole(Inner(id, keys, kids[pos := kid])), unused')
        case Split(left, sep, right) => Spliced(id, keys, kids, pos, left, sep, right, unused')
  }

  function Spliced(id: PageId, keys: seq<I64>, kids: seq<Tree>, pos: nat, left: Tree, sep: I64, right: Tree,
          unused: PageId): (Grown, PageId)
    requires pos < |kids|
  {
    if pos > |keys| || |kids| != |keys| + 1 then (Whole(Inner(id, keys, kids)), unused)
    else
      var more, moreKids := WithKey(keys, pos, sep), WithKids(kids, pos, left, right);
      if |more| > FANOUT then (SplitInner(id, more, moreKids, unused), unused + 1)
      else (Whole(Inner(id, more, moreKids)), unused)
  }

  // --- the order invariant

  ghost predicate GrownWellFormed(g: Grown, lo: int, hi: int, height: nat)
  {
    match g
    case Whole(t) => WellFormed(t, lo, hi, height)
    case Split(left, sep, right) =>
      lo < sep < hi && WellFormed(left, lo, sep, height) && WellFormed(right, sep, hi, height)
  }

  ghost predicate GoodKids(keys: seq<I64>, kids: seq<Tree>, lo: int, hi: int, height: nat)
  {
    && |kids| == |keys| + 1 && Separates(keys, lo, hi)
    && forall i :: 0 <= i < |kids| ==> WellFormed(kids[i], Lo(keys, lo, i), Hi(keys, hi, i), height)
  }

  lemma SpliceGood(keys: seq<I64>, kids: seq<Tree>, pos: nat, left: Tree, sep: I64, right: Tree, lo: int, hi: int,
          height: nat)
    requires GoodKids(keys, kids, lo, hi, height) && pos <= |keys|
    requires GrownWellFormed(Split(left, sep, right), Lo(keys, lo, pos), Hi(keys, hi, pos), height)
    ensures GoodKids(WithKey(keys, pos, sep), WithKids(kids, pos, left, right), lo, hi, height)
  {
    hide WellFormed;
    var more, moreKids := WithKey(keys, pos, sep), WithKids(kids, pos, left, right);
    forall i | 0 <= i < |moreKids| ensures WellFormed(moreKids[i], Lo(more, lo, i), Hi(more, hi, i), height) {
      if i < pos {
        assert WellFormed(kids[i], Lo(keys, lo, i), Hi(keys, hi, i), height);
      } else if i > pos + 1 {
        assert WellFormed(kids[i - 1], Lo(keys, lo, i - 1), Hi(keys, hi, i - 1), height);
      }
    }
  }

  lemma SplitInnerGood(keys: seq<I64>, kids: seq<Tree>, mid: nat, lo: int, hi: int, height: nat)
    requires GoodKids(keys, kids, lo, hi, height) && mid < |keys|
    ensures GoodKids(keys[..mid], kids[..mid + 1], lo, keys[mid], height)
    ensures GoodKids(keys[mid + 1..], kids[mid + 1..], keys[mid], hi, height)
  {
    hide WellFormed;
    var rightKeys, right := keys[mid + 1..], kids[mid + 1..];
    forall i | 0 <= i < |right|
      ensures WellFormed(right[i], Lo(rightKeys, keys[mid], i), Hi(rightKeys, hi, i), height)
    {
      assert WellFormed(kids[mid + 1 + i], Lo(keys, lo, mid + 1 + i), Hi(keys, hi, mid + 1 + i), height);
    }
  }

  lemma ReplaceGood(keys: seq<I64>, kids: seq<Tree>, pos: nat, kid: Tree, lo: int, hi: int, height: nat)
    requires GoodKids(keys, kids, lo, hi, height) && pos <= |keys|
             && WellFormed(kid, Lo(keys, lo, pos), Hi(keys, hi, pos), height)
    ensures GoodKids(keys, kids[pos := kid], lo, hi, height)
  {
    hide WellFormed;
    forall i | 0 <= i < |kids| ensures WellFormed(kids[pos := kid][i], Lo(keys, lo, i), Hi(keys, hi, i), height) {
      assert WellFormed(kids[i], Lo(keys, lo, i), Hi(keys, hi, i), height);
    }
  }

  lemma SplicedGood(id: PageId, keys: seq<I64>, kids: seq<Tree>, pos: nat, left: Tree, sep: I64, right: Tree,
          unused: PageId, lo: int, hi: int, height: nat)
    requires GoodKids(keys, kids, lo, hi, height) && pos <= |keys| && 1 <= |keys| <= FANOUT && height > 0
    requires GrownWellFormed(Split(left, sep, right), Lo(keys, lo, pos), Hi(keys, hi, pos), height)
    ensures GrownWellFormed(Spliced(id, keys, kids, pos, left, sep, right, unused).0, lo, hi, height + 1)
  {
    var more, moreKids := WithKey(keys, pos, sep), WithKids(kids, pos, left, right);
    SpliceGood(keys, kids, pos, left, sep, right, lo, hi, height);
    if |more| > FANOUT {
      SplitInnerGood(more, moreKids, |more| / 2, lo, hi, height);
    }
  }

  lemma InsertLeafWellFormed(id: PageId, entries: seq<LeafEntry>, next: Option<PageId>, key: I64, row: RowId,
          unused: PageId, lo: int, hi: int)
    requires GoodEntries(entries, lo, hi) && |entries| <= FANOUT && lo <= key < hi
    ensures GrownWellFormed(Insert(Leaf(id, entries, next), key, row, unused).0, lo, hi, 1)
  {
    AddRowGood(entries, key, row, lo, hi);
    var more := AddRow(entries, key, row);
    if |more| > FANOUT {
      var mid := |more| / 2;
      assert more[0].key < more[mid].key;
      SliceGood(more, mid, lo, hi);
    }
  }

  lemma SliceGood(entries: seq<LeafEntry>, mid: nat, lo: int, hi: int)
    requires GoodEntries(entries, lo, hi) && mid < |entries|
    ensures GoodEntries(entries[..mid], lo, entries[mid].key) && GoodEntries(entries[mid..], entries[mid].key, hi)
  {
  }

  /** Inserting keeps the tree sorted, balanced and bounded; a split's halves meet at the
      separator. */
  lemma {:induction false} InsertWellFormed(t: Tree, key: I64, row: RowId, unused: PageId, lo: int, hi: int,
          height: nat)
    requires WellFormed(t, lo, hi, height) && lo <= key < hi
    ensures GrownWellFormed(Insert(t, key, row, unused).0, lo, hi, height)
  {
    match t
    case Leaf(id, entries, next) =>
      InsertLeafWellFormed(id, entries, next, key, row, unused, lo, hi);
    case Inner(id, keys, kids) =>
      var pos := Branch(keys, key);
      RankSplits(keys, key);
      InsertWellFormed(kids[pos], key, row, unused, Lo(keys, lo, pos), Hi(keys, hi, pos), height - 1);
      var (grown, unused') := Insert(kids[pos], key, row, unused);
      if grown.Split? {
        SplicedGood(id, keys, kids, pos, grown.left, grown.sep, grown.right, unused', lo, hi, height - 1);
      } else {
        ReplaceGood(keys, kids, pos, grown.t, lo, hi, height - 1);
      }
      hide Spliced;
  }

  /** The position the source finds for the separator is the position of the child. */
  lemma SeparatorPosition(keys: seq<I64>, pos: nat, sep: I64, lo: int, hi: int)
    requires Separates(keys, lo, hi) && pos <= |keys| && Lo(keys, lo, pos) < sep < Hi(keys, hi, pos)
    ensures Rank(keys, sep) == pos
  {
    RankUnique(keys, sep, pos);
  }

  // --- the rows

  function LookupGrown(g: Grown, key: int): seq<RowId>
  {
    match g
    case Whole(t) => Lookup(t, key)
    case Split(left, sep, right) => if key < sep then Lookup(left, key) else Lookup(right, key)
  }

  function LookupIn(keys: seq<I64>, kids: seq<Tree>, key: int): seq<RowId>
    requires |kids| == |keys| + 1
  {
    Lookup(kids[Rank(keys, key)], key)
  }

  lemma SpliceLookup(keys: seq<I64>, kids: seq<Tree>, pos: nat, left: Tree, sep: I64, right: Tree, lo: int, hi: int,
          k: int)
    requires |kids| == |keys| + 1 && Separates(keys, lo, hi) && pos <= |keys|
    requires Lo(keys, lo, pos) < sep < Hi(keys, hi, pos)
    ensures LookupIn(WithKey(keys, pos, sep), WithKids(kids, pos, left, right), k) ==
            if Rank(keys, k) == pos then LookupGrown(Split(left, sep, right), k) else LookupIn(keys, kids, k)
  {
    hide Lookup, Rank;
    RankWithKey(keys, pos, sep, lo, hi, k);
  }

  lemma RankWithKey(keys: seq<I64>, pos: nat, sep: I64, lo: int, hi: int, k: int)
    requires Separates(keys, lo, hi) && pos <= |keys|
    requires Lo(keys, lo, pos) < sep < Hi(keys, hi, pos)
    ensures var r := Rank(keys, k); Rank(WithKey(keys, pos, sep), k) == if r < pos
            || (r == pos && k < sep) then r else r + 1
  {
    hide Rank;
    var more := WithKey(keys, pos, sep);
    var r := Rank(keys, k);
    RankSplits(keys, k);
    forall i, j | 0 <= i < j < |more| ensures more[i] < more[j] {
      if i != pos && j != pos {
        assert more[i] == keys[if i < pos then i else i - 1] && more[j] == keys[if j < pos then j else j - 1];
      } else if i == pos {
        assert more[j] == keys[j - 1] && keys[pos] <= keys[j - 1];
      } else {
        assert more[i] == keys[i] && keys[i] <= keys[pos - 1];
      }
    }
    RankUnique(more, k, if r < pos || (r == pos && k < sep) then r else r + 1);
  }

  lemma SplitInnerLookup(keys: seq<I64>, kids: seq<Tree>, mid: nat, k: int)
    requires |kids| == |keys| + 1 && Ascending(keys) && mid < |keys|
    ensures LookupIn(keys, kids, k) ==
            if k < keys[mid] then LookupIn(keys[..mid], kids[..mid + 1], k) else LookupIn(keys[mid + 1..],
              kids[mid + 1..], k)
  {
    hide Lookup;
    var r := Rank(keys, k);
    RankSplits(keys, k);
    if k < keys[mid] {
      RankUnique(keys[..mid], k, r);
    } else {
      RankUnique(keys[mid + 1..], k, r - mid - 1);
    }
  }

  lemma SplicedLookup(id: PageId, keys: seq<I64>, kids: seq<Tree>, pos: nat, left: Tree, sep: I64, right: Tree,
          unused: PageId, lo: int, hi: int, k: int)
    requires |kids| == |keys| + 1 && Separates(keys, lo, hi) && pos <= |keys|
    requires Lo(keys, lo, pos) < sep < Hi(keys, hi, pos)
    ensures LookupGrown(Spliced(id, keys, kids, pos, left, sep, right, unused).0, k) ==
            if Rank(keys, k) == pos then LookupGrown(Split(left, sep, right), k) else LookupIn(keys, kids, k)
  {
    hide Rank, Lookup, LookupIn, Ascending, Separates, Lo, Hi;
    var more, moreKids := WithKey(keys, pos, sep), WithKids(kids, pos, left, right);
    SpliceLookup(keys, kids, pos, left, sep, right, lo, hi, k);
    if |more| > FANOUT {
      var mid := |more| / 2;
      KeyAscends(keys, pos, sep, lo, hi);
      SplitInnerLookup(more, moreKids, mid, k);
      InnerLookup(id, more[..mid], moreKids[..mid + 1], k);
      InnerLookup(unused, more[mid + 1..], moreKids[mid + 1..], k);
    } else {
      InnerLookup(id, more, moreKids, k);
    }
  }

  lemma InnerLookup(id: PageId, keys: seq<I64>, kids: seq<Tree>, k: int)
    requires |kids| == |keys| + 1
    ensures Lookup(Inner(id, keys, kids), k) == LookupIn(keys, kids, k)
  {
  }

  lemma KeyAscends(keys: seq<I64>, pos: nat, sep: I64, lo: int, hi: int)
    requires Separates(keys, lo, hi) && pos <= |keys| && Lo(keys, lo, pos) < sep < Hi(keys, hi, pos)
    ensures Ascending(WithKey(keys, pos, sep))
  {
  }

  /** Inserting adds the row to the key's list and changes no other key's. */
  lemma {:induction false} InsertLookup(t: Tree, key: I64, row: RowId, unused: PageId, lo: int, hi: int, height: nat,
          k: int)
    requires WellFormed(t, lo, hi, height) && lo <= key < hi
    ensures LookupGrown(Insert(t, key, row, unused).0, k) ==
            if k == key then Added(Lookup(t, key), row) else Lookup(t, k)
  {
    match t
    case Leaf(id, entries, next) =>
      InsertLeafLookup(id, entries, next, key, row, unused, lo, hi, k);
    case Inner(id, keys, kids) =>
      var pos := Branch(keys, key);
      RankSplits(keys, key);
      InsertWellFormed(kids[pos], key, row, unused, Lo(keys, lo, pos), Hi(keys, hi, pos), height - 1);
      InsertLookup(kids[pos], key, row, unused, Lo(keys, lo, pos), Hi(keys, hi, pos), height - 1, k);
      var (grown, unused') := Insert(kids[pos], key, row, unused);
      if grown.Split? {
        SplicedLookup(id, keys, kids, pos, grown.left, grown.sep, grown.right, unused', lo, hi, k);
      }
      hide WellFormed, Spliced;
  }

  lemma InsertLeafLookup(id: PageId, entries: seq<LeafEntry>, next: Option<PageId>, key: I64, row: RowId,
          unused: PageId, lo: int, hi: int, k: int)
    requires GoodEntries(entries, lo, hi) && lo <= key < hi
    ensures LookupGrown(Insert(Leaf(id, entries, next), key, row, unused).0, k) ==
            if k == key then Added(Find(entries, key), row) else Find(entries, k)
  {
    var more := AddRow(entries, key, row);
    AddRowGood(entries, key, row, lo, hi);
    AddRowFind(entries, key, row, k);
    if |more| > FANOUT {
      SplitLeafFind(more, |more| / 2, k);
    }
  }

  lemma SplitLeafFind(entries: seq<LeafEntry>, mid: nat, k: int)
    requires Sorted(entries) && mid < |entries|
    ensures Find(entries, k) == if k < entries[mid].key then Find(entries[..mid], k) else Find(entries[mid..], k)
  {
    hide Slot;
    SlotSplits(entries, k);
    var low := k < entries[mid].key;
    var half := if low then entries[..mid] else entries[mid..];
    var i := Slot(entries, k);
    if HasKey(entries, k) {
      assert low ==> i < mid && half[i] == entries[i];
      assert !low ==> i >= mid && half[i - mid] == entries[i];
      FindAt(half, if low then i else i - mid);
    } else {
      forall j | 0 <= j < |half| ensures half[j].key != k {
        var e := if low then j else j + mid;
        assert half[j] == entries[e];
        if e >= i {
          assert i < |entries| && entries[i].key != k && (e == i || entries[i].key < entries[e].key);
        }
      }
      FindAbsent(half, k);
    }
  }

  // --- the leaf chain

  ghost predicate GrownChained(g: Grown, after: Option<PageId>)
  {
    match g
    case Whole(t) => Chained(t, after)
    case Split(left, _, right) => Chained(left, Some(First(right))) && Chained(right, after)
  }

  function FirstOf(g: Grown): PageId
  {
    First(if g.Whole? then g.t else g.left)
  }

  lemma SpliceChained(kids: seq<Tree>, pos: nat, left: Tree, right: Tree, after: Option<PageId>)
    requires pos < |kids| && ChainedAll(kids, after) && First(left) == First(kids[pos])
    requires Chained(left, Some(First(right))) && Chained(right, After(kids, after, pos))
    ensures ChainedAll(WithKids(kids, pos, left, right), after)
    ensures First(WithKids(kids, pos, left, right)[0]) == First(kids[0])
  {
    hide Chained, First;
    var more := WithKids(kids, pos, left, right);
    forall i | 0 <= i < |more| ensures Chained(more[i], After(more, after, i)) {
      if i < pos {
        assert Chained(kids[i], After(kids, after, i));
      } else if i > pos + 1 {
        assert Chained(kids[i - 1], After(kids, after, i - 1));
      }
    }
  }

  lemma SplitInnerChained(kids: seq<Tree>, n: nat, after: Option<PageId>)
    requires 0 < n < |kids| && ChainedAll(kids, after)
    ensures ChainedAll(kids[..n], Some(First(kids[n]))) && ChainedAll(kids[n..], after)
  {
    hide Chained, First;
    forall i | 0 <= i < n ensures Chained(kids[..n][i], After(kids[..n], Some(First(kids[n])), i)) {
      assert Chained(kids[i], After(kids, after, i));
    }
    forall i | 0 <= i < |kids| - n ensures Chained(kids[n..][i], After(kids[n..], after, i)) {
      assert Chained(kids[n + i], After(kids, after, n + i));
    }
  }

  lemma SplicedChained(id: PageId, keys: seq<I64>, kids: seq<Tree>, pos: nat, left: Tree, sep: I64, right: Tree,
          unused: PageId, after: Option<PageId>)
    requires pos < |kids| == |keys| + 1 && ChainedAll(kids, after) && First(left) == First(kids[pos])
    requires Chained(left, Some(First(right))) && Chained(right, After(kids, after, pos))
    ensures GrownChained(Spliced(id, keys, kids, pos, left, sep, right, unused).0, after)
    ensures FirstOf(Spliced(id, keys, kids, pos, left, sep, right, unused).0) == First(kids[0])
  {
    var more, moreKids := WithKey(keys, pos, sep), WithKids(kids, pos, left, right);
    SpliceChained(kids, pos, left, right, after);
    if |more| > FANOUT {
      SplitInnerChained(moreKids, |more| / 2 + 1, after);
    }
  }

  /** Inserting keeps the leaf chain in key order, with the same first leaf. */
  lemma {:induction false} InsertChained(t: Tree, key: I64, row: RowId, unused: PageId, lo: int, hi: int, height: nat,
          after: Option<PageId>)
    requires WellFormed(t, lo, hi, height) && Chained(t, after)
    ensures GrownChained(Insert(t, key, row, unused).0, after) && FirstOf(Insert(t, key, row, unused).0) == First(t)
  {
    match t
    case Leaf(_, _, _) =>
    case Inner(id, keys, kids) =>
      var pos := Branch(keys, key);
      InsertChained(kids[pos], key, row, unused, Lo(keys, lo, pos), Hi(keys, hi, pos), height - 1,
        After(kids, after, pos));
      var (grown, unused') := Insert(kids[pos], key, row, unused);
      match grown {
        case Whole(kid) => ReplaceChained(kids, pos, kid, after);
        case Split(left, sep, right) => SplicedChained(id, keys, kids, pos, left, sep, right, unused', after);
      }
      hide WellFormed, Spliced;
  }

  lemma ReplaceChained(kids: seq<Tree>, pos: nat, kid: Tree, after: Option<PageId>)
    requires pos < |kids| && ChainedAll(kids, after) && First(kid) == First(kids[pos])
             && Chained(kid, After(kids, after, pos))
    ensures ChainedAll(kids[pos := kid], after) && First(kids[pos := kid][0]) == First(kids[0])
  {
    hide Chained, First;
    var more := kids[pos := kid];
    forall i | 0 <= i < |more| ensures Chained(more[i], After(more, after, i)) {
      assert Chained(kids[i], After(kids, after, i));
    }
  }

  // --- the pages

  /** Every page of the new tree was in the old one or is newly allocated. */
  ghost predicate Within(s: Tree, t: Tree, unused: PageId, unused': PageId)
  {
    forall x :: Has(s, x) ==> Has(t, x) || unused <= x < unused'
  }

  ghost predicate GrownDistinct(g: Grown, t: Tree, unused: PageId, unused': PageId)
  {
    match g
    case Whole(s) => s.id == t.id && Distinct(s) && Within(s, t, unused, unused')
    case Split(left, _, right) =>
      && left.id == t.id && Distinct(left) && Distinct(right) && Apart(left, right)
      && Within(left, t, unused, unused') && Within(right, t, unused, unused') && unused <= right.id
  }

  lemma KidPages(t: Tree, unused: PageId)
    requires t.Inner? && Distinct(t) && Below(t, unused)
    ensures t.id < unused
    ensures forall i, x {:trigger Has(t.kids[i], x)} :: 0 <= i < |t.kids| && Has(t.kids[i], x) ==>
            HasAny(t.kids, x) && x < unused && x != t.id
  {
    assert Has(t, t.id);
    forall i, x | 0 <= i < |t.kids| && Has(t.kids[i], x) ensures HasAny(t.kids, x) && x < unused && x != t.id {
      assert HasAny(t.kids, x) && Has(t, x);
    }
  }

  /** Trees within different children of one node stay apart. */
  lemma WithinApart(t: Tree, i: nat, j: nat, a: Tree, b: Tree, unused: PageId, unused': PageId)
    requires t.Inner? && Distinct(t) && Below(t, unused) && i < |t.kids| && j < |t.kids| && i != j
    requires Within(a, t.kids[i], unused, unused') && Within(b, t.kids[j], unused, unused)
    ensures Apart(a, b) && Apart(b, a)
  {
    KidPages(t, unused);
    assert Apart(t.kids[i], t.kids[j]);
    hide Has;
    forall x ensures !(Has(a, x) && Has(b, x)) {
      assert Has(b, x) ==> Has(t.kids[j], x);
      assert Has(t.kids[j], x) ==> x < unused && !Has(t.kids[i], x);
      assert Has(a, x) && x < unused ==> Has(t.kids[i], x);
    }
  }

  /** New children, each within an old one, for an inner node. */
  lemma NewKids(t: Tree, more: seq<Tree>, from: seq<nat>, unused: PageId, unused': PageId)
    requires t.Inner? && Distinct(t) && Below(t, unused) && |from| == |more|
    requires forall i :: 0 <= i < |more| ==>
             from[i] < |t.kids| && Distinct(more[i]) && Within(more[i], t.kids[from[i]], unused, unused')
    requires PairwiseApart(more)
    ensures var s := Inner(t.id, t.keys, more); Distinct(s) && Within(s, t, unused, unused')
  {
    KidPages(t, unused);
    forall x | HasAny(more, x) ensures (HasAny(t.kids, x) || unused <= x < unused') && x != t.id {
      var i :| 0 <= i < |more| && Has(more[i], x);
      assert Within(more[i], t.kids[from[i]], unused, unused');
    }
  }

  lemma ReplaceDistinct(t: Tree, pos: nat, kid: Tree, unused: PageId, unused': PageId)
    requires t.Inner? && pos < |t.kids| && Distinct(t) && Below(t, unused)
    requires Distinct(kid) && Within(kid, t.kids[pos], unused, unused')
    ensures var s := Inner(t.id, t.keys, t.kids[pos := kid]); Distinct(s) && Within(s, t, unused, unused')
  {
    hide Has;
    var more := t.kids[pos := kid];
    forall i, j | 0 <= i < |more| && 0 <= j < |more| && i != j ensures Apart(more[i], more[j]) {
      if i == pos {
        WithinApart(t, pos, j, kid, t.kids[j], unused, unused');
      } else if j == pos {
        WithinApart(t, pos, i, kid, t.kids[i], unused, unused');
      } else {
        assert Apart(t.kids[i], t.kids[j]);
      }
    }
    NewKids(t, more, seq(|more|, i => i), unused, unused');
  }

  /** The child that stood where the spliced child `i` came from. */
  function OldKid(pos: nat, i: nat): nat
  {
    if i <= pos then i else i - 1
  }

  /** Splicing two halves, each within the child, in place of it. */
  lemma SpliceDistinct(t: Tree, pos: nat, left: Tree, right: Tree, unused: PageId, unused': PageId)
    requires t.Inner? && pos < |t.kids| && Distinct(t) && Below(t, unused)
    requires Distinct(left) && Within(left, t.kids[pos], unused, unused')
    requires Distinct(right) && Within(right, t.kids[pos], unused, unused') && Apart(left, right)
    ensures var s := Inner(t.id, t.keys, WithKids(t.kids, pos, left, right));
            Distinct(s) && Within(s, t, unused, unused')
  {
    hide Has;
    var more := WithKids(t.kids, pos, left, right);
    forall i, j | 0 <= i < |more| && 0 <= j < |more| && i != j ensures Apart(more[i], more[j]) {
      SplicedApart(t, pos, left, right, unused, unused', i, j);
    }
    var from := seq(|more|, (i: nat) => OldKid(pos, i));
    forall i | 0 <= i < |more| ensures Within(more[i], t.kids[from[i]], unused, unused') && Distinct(more[i]) {
      assert i != pos && i != pos + 1 ==> more[i] == t.kids[from[i]];
    }
    NewKids(t, more, from, unused, unused');
  }

  lemma SplicedApart(t: Tree, pos: nat, left: Tree, right: Tree, unused: PageId, unused': PageId, i: nat, j: nat)
    requires t.Inner? && pos < |t.kids| && Distinct(t) && Below(t, unused)
    requires Within(left, t.kids[pos], unused, unused') && Within(right, t.kids[pos], unused, unused')
             && Apart(left, right)
    requires i <= |t.kids| && j <= |t.kids| && i != j
    ensures Apart(WithKids(t.kids, pos, left, right)[i], WithKids(t.kids, pos, left, right)[j])
  {
    hide Has;
    var more := WithKids(t.kids, pos, left, right);
    var a, b := OldKid(pos, i), OldKid(pos, j);
    if a == b {
      assert Apart(left, right) && Apart(right, left);
    } else if a == pos {
      WithinApart(t, pos, b, more[i], more[j], unused, unused');
    } else if b == pos {
      WithinApart(t, pos, a, more[j], more[i], unused, unused');
    } else {
      assert Apart(t.kids[a], t.kids[b]);
    }
  }

  /** Cutting an inner node in two, the second half under a new page. */
  lemma SplitInnerDistinct(s: Tree, mid: nat, unused: PageId)
    requires s.Inner? && Distinct(s) && Below(s, unused) && 0 < mid < |s.kids|
    ensures var left, right := Inner(s.id, [], s.kids[..mid]), Inner(unused, [], s.kids[mid..]);
            Distinct(left) && Distinct(right) && Apart(left, right) && Within(left, s, 0, 0)
              && Within(right, s, unused, unused + 1)
  {
    KidPages(s, unused);
    var low, high := s.kids[..mid], s.kids[mid..];
    forall x | HasAny(low, x) ensures HasAny(s.kids, x) && !HasAny(high, x) && x < unused {
      var i :| 0 <= i < mid && Has(low[i], x);
      assert Has(s.kids[i], x);
      forall j | 0 <= j < |high| ensures !Has(high[j], x) {
        assert Apart(s.kids[i], s.kids[mid + j]);
      }
    }
    forall x | HasAny(high, x) ensures HasAny(s.kids, x) && x < unused {
      var j :| 0 <= j < |high| && Has(high[j], x);
      assert Has(s.kids[mid + j], x);
    }
    assert PairwiseApart(low) && PairwiseApart(high);
  }

  /** Pages depend on the children only. */
  lemma SameKids(a: Tree, b: Tree)
    requires a.Inner? && b.Inner? && a.id == b.id && a.kids == b.kids
    ensures Distinct(a) == Distinct(b) && forall x :: Has(a, x) <==> Has(b, x)
  {
  }

  lemma SplicedDistinct(t: Tree, pos: nat, left: Tree, sep: I64, right: Tree, unused: PageId, unused': PageId)
    requires t.Inner? && pos < |t.kids| == |t.keys| + 1 && |t.keys| > 0 && Distinct(t) && Below(t, unused)
             && unused <= unused'
    requires Distinct(left) && Within(left, t.kids[pos], unused, unused')
    requires Distinct(right) && Within(right, t.kids[pos], unused, unused') && Apart(left, right)
    ensures var (g, f) := Spliced(t.id, t.keys, t.kids, pos, left, sep, right, unused');
            unused' <= f && GrownDistinct(g, t, unused, f)
  {
    hide Has, Distinct;
    var more, moreKids := WithKey(t.keys, pos, sep), WithKids(t.kids, pos, left, right);
    var s := Inner(t.id, more, moreKids);
    SpliceDistinct(t, pos, left, right, unused, unused');
    SameKids(Inner(t.id, t.keys, moreKids), s);
    if |more| > FANOUT {
      var mid := |more| / 2;
      BelowGrows(s, t, unused, unused');
      SplitInnerDistinct(s, mid + 1, unused');
      SameKids(Inner(s.id, [], moreKids[..mid + 1]), Inner(s.id, more[..mid], moreKids[..mid + 1]));
      SameKids(Inner(unused', [], moreKids[mid + 1..]), Inner(unused', more[mid + 1..], moreKids[mid + 1..]));
    }
  }

  lemma BelowGrows(s: Tree, t: Tree, unused: PageId, unused': PageId)
    requires Within(s, t, unused, unused') && Below(t, unused) && unused <= unused'
    ensures Below(s, unused')
  {
  }

  lemma KidBelow(t: Tree, i: nat, unused: PageId)
    requires t.Inner? && i < |t.kids| && Below(t, unused)
    ensures Below(t.kids[i], unused)
  {
    forall x | Has(t.kids[i], x) ensures x < unused {
      assert HasAny(t.kids, x) && Has(t, x);
    }
  }

  /** Inserting uses old pages and newly numbered ones, each once. */
  lemma {:induction false} InsertDistinct(t: Tree, key: I64, row: RowId, unused: PageId, lo: int, hi: int, height: nat)
    requires WellFormed(t, lo, hi, height) && Distinct(t) && Below(t, unused)
    ensures var (g, f) := Insert(t, key, row, unused); unused <= f && GrownDistinct(g, t, unused, f)
  {
    match t
    case Leaf(_, _, _) =>
      assert Has(t, t.id);
    case Inner(id, keys, kids) =>
      var pos := Branch(keys, key);
      KidBelow(t, pos, unused);
      InsertDistinct(kids[pos], key, row, unused, Lo(keys, lo, pos), Hi(keys, hi, pos), height - 1);
      var (grown, unused') := Insert(kids[pos], key, row, unused);
      match grown {
        case Whole(kid) => ReplaceDistinct(t, pos, kid, unused, unused');
        case Split(left, sep, right) => SplicedDistinct(t, pos, left, sep, right, unused, unused');
      }
      hide WellFormed, Spliced, Distinct, Has;
  }

  // ----- removing --------------------------------------------------------------------------

  /** Lines 448-479: the row leaves its key's list; nodes are never merged. */
  function Remove(t: Tree, key: I64, row: RowId): Tree
  {
    match t
    case Leaf(id, entries, next) => Leaf(id, DropRow(entries, key, row), next)
    case Inner(id, keys, kids) =>
      var pos := Branch(keys, key);
      if pos >= |kids| then t else Inner(id, keys, kids[pos := Remove(kids[pos], key, row)])
  }

  /** Removing keeps the order invariant and the leaf chain. */
  lemma {:induction false} RemoveWellFormed(t: Tree, key: I64, row: RowId, lo: int, hi: int, height: nat,
          after: Option<PageId>)
    requires WellFormed(t, lo, hi, height) && Chained(t, after)
    ensures WellFormed(Remove(t, key, row), lo, hi, height)
    ensures Chained(Remove(t, key, row), after) && First(Remove(t, key, row)) == First(t)
  {
    match t
    case Leaf(_, entries, _) => DropRowGood(entries, key, row, lo, hi);
    case Inner(_, keys, kids) =>
      var pos := Branch(keys, key);
      RemoveWellFormed(kids[pos], key, row, Lo(keys, lo, pos), Hi(keys, hi, pos), height - 1, After(kids, after, pos));
      ReplaceChained(kids, pos, Remove(kids[pos], key, row), after);
  }

  /** Removing takes the row out of the key's list and changes no other key's. */
  lemma {:induction false} RemoveLookup(t: Tree, key: I64, row: RowId, lo: int, hi: int, height: nat, k: int)
    requires WellFormed(t, lo, hi, height)
    ensures Lookup(Remove(t, key, row), k) == if k == key then Without(Lookup(t, key), row) else Lookup(t, k)
  {
    match t
    case Leaf(_, entries, _) =>
      DropRowGood(entries, key, row, lo, hi);
      DropRowFind(entries, key, row, k);
    case Inner(_, keys, kids) =>
      var pos := Branch(keys, key);
      RemoveLookup(kids[pos], key, row, Lo(keys, lo, pos), Hi(keys, hi, pos), height - 1, k);
  }

  /** Removing uses the same pages. */
  lemma {:induction false} RemoveDistinct(t: Tree, key: I64, row: RowId)
    requires Distinct(t)
    ensures Distinct(Remove(t, key, row)) && Remove(t, key, row).id == t.id
    ensures forall x :: Has(Remove(t, key, row), x) <==> Has(t, x)
  {
    match t
    case Leaf(_, _, _) =>
    case Inner(_, keys, kids) =>
      var pos := Branch(keys, key);
      if pos < |kids| {
        RemoveDistinct(kids[pos], key, row);
        var more := kids[pos := Remove(kids[pos], key, row)];
        assert forall i :: 0 <= i < |kids| ==> forall x :: Has(more[i], x) <==> Has(kids[i], x);
        assert forall x :: HasAny(more, x) ==> HasAny(kids, x);
        forall x | HasAny(kids, x) ensures HasAny(more, x) {
          var i :| 0 <= i < |kids| && Has(kids[i], x);
          assert Has(more[i], x);
        }
        forall i, j | 0 <= i < |more| && 0 <= j < |more| && i != j ensures Apart(more[i], more[j]) {
          assert Apart(kids[i], kids[j]);
        }
      }
  }
}
