/** The storage engine as a state machine over its pages (src/mutation.rs, lines 56-181
    and 247-400; src/compact.rs; src/query.rs, lines 48-78; src/pager.rs, lines 236-309). What a
    scan returns is the bag of rows of the data pages; the row-id map names live slots. */
module Storage {
  import opened Options
  import opened Integers
  import opened Values
  import opened Comparisons
  import opened Pages
  import opened CellUpdates

  const PAGE_DATA_CAPACITY: nat := 256
  const SPLIT_THRESHOLD: nat := 512
  const MERGE_THRESHOLD: nat := 2

  type PageTable = seq<Option<Page>>

  datatype Location = Location(page: nat, slot: nat)

  type RowMap = map<nat, Location>

  datatype Error = Arity(got: nat) | NotFound(col: nat)

  // ----- the table of pages --------------------------------------------------------------

  predicate IsData(pages: PageTable, id: nat)
  {
    id < |pages| && pages[id].Some? && pages[id].value.kind.Data?
  }

  ghost predicate GoodPages(schema: seq<Column>, pages: PageTable)
  {
    forall id :: 0 <= id < |pages| && IsData(pages, id) ==> GoodPage(schema, pages[id].value)
  }

  ghost function BagOf(p: Option<Page>): multiset<Row>
  {
    if p.None? then multiset{} else multiset(PageRows(p.value))
  }

  /** The live rows of the data pages before number `n`, page by page. */
  ghost function RowsBefore(pages: PageTable, n: nat): seq<Row>
    requires n <= |pages|
  {
    if n == 0 then [] else RowsBefore(pages, n - 1) + if IsData(pages, n - 1) then PageRows(pages[n - 1].value) else []
  }

  /** The rows a scan returns, in any order. */
  ghost function Bag(pages: PageTable): multiset<Row>
  {
    if pages == [] then multiset{} else Bag(pages[..|pages| - 1]) + BagOf(pages[|pages| - 1])
  }

  lemma BagTake(pages: PageTable, i: nat)
    requires i <= |pages|
    ensures i == 0 ==> Bag(pages[..i]) == multiset{}
    ensures i < |pages| ==> Bag(pages[..i + 1]) == Bag(pages[..i]) + BagOf(pages[i])
    ensures i < |pages| ==>
            BagOf(pages[i]) == if IsData(pages, i) then multiset(PageRows(pages[i].value)) else multiset{}
  {
    if i < |pages| {
      assert pages[..i + 1][..i] == pages[..i];
    }
  }

  lemma BagSnoc(pages: PageTable, p: Option<Page>)
    ensures Bag(pages + [p]) == Bag(pages) + BagOf(p)
  {
    assert (pages + [p])[..|pages|] == pages;
  }

  /** Replacing a page replaces its rows. */
  lemma {:induction false} BagUpdate(pages: PageTable, id: nat, p: Option<Page>)
    requires id < |pages|
    ensures Bag(pages[id := p]) + BagOf(pages[id]) == Bag(pages) + BagOf(p)
  {
    hide BagOf;
    var n := |pages| - 1;
    var front, last := pages[..n], BagOf(pages[n]);
    if id == n {
      assert pages[id := p][..n] == front;
    } else {
      assert pages[id := p][..n] == front[id := p];
      BagUpdate(front, id, p);
      assert Bag(pages[id := p]) == Bag(front[id := p]) + last;
      assert (Bag(front[id := p]) + BagOf(pages[id])) + last == (Bag(front[id := p]) + last) + BagOf(pages[id]);
    }
  }

  lemma Cancel(a: multiset<Row>, b: multiset<Row>, x: multiset<Row>, y: multiset<Row>)
    requires a + x == b + (x + y)
    ensures a == b + y
  {
    forall row: Row ensures a[row] == (b + y)[row] {
      assert (a + x)[row] == (b + (x + y))[row];
    }
  }

  lemma SameBag(x: multiset<Row>, y: multiset<Row>, z: multiset<Row>, a: multiset<Row>, b: multiset<Row>)
    requires x + b == y && y + a == z + (a + b)
    ensures x == z
  {
    forall row: Row ensures x[row] == z[row] {
      assert (x + b)[row] == y[row] && (y + a)[row] == (z + (a + b))[row];
    }
  }

  // ----- counting slots --------------------------------------------------------------------

  function SlotsOf(p: Option<Page>): nat
  {
    if p.Some? && p.value.slots.Some? then |p.value.slots.value| else 0
  }

  /** How many slots all pages have, tombstones included. */
  function SlotsIn(pages: PageTable): nat
  {
    if pages == [] then 0 else SlotsIn(pages[..|pages| - 1]) + SlotsOf(pages[|pages| - 1])
  }

  /** Runs can count so many rows and some more: their counts have 32 bits. */
  ghost predicate Counted(schema: seq<Column>, pages: PageTable, more: nat)
  {
    HasRle(schema) ==> SlotsIn(pages) + more <= U32_MAX
  }

  lemma {:induction false} SlotsUpdate(pages: PageTable, id: nat, p: Option<Page>)
    requires id < |pages|
    ensures SlotsIn(pages[id := p]) + SlotsOf(pages[id]) == SlotsIn(pages) + SlotsOf(p)
  {
    hide SlotsOf;
    var n := |pages| - 1;
    if id == n {
      assert pages[id := p][..n] == pages[..n];
    } else {
      assert pages[id := p][..n] == pages[..n][id := p];
      SlotsUpdate(pages[..n], id, p);
    }
  }

  lemma SlotsPlaced(pages: PageTable, id: nat, p: Page)
    requires id <= |pages| && (id < |pages| ==> pages[id].None?)
    ensures SlotsIn(Placed(pages, id, p)) == SlotsIn(pages) + SlotsOf(Some(p))
  {
    if id == |pages| {
      assert (pages + [Some(p)])[..|pages|] == pages;
    } else {
      SlotsUpdate(pages, id, Some(p));
    }
  }

  lemma {:induction false} PageSlots(pages: PageTable, id: nat)
    requires id < |pages|
    ensures SlotsOf(pages[id]) <= SlotsIn(pages)
  {
    hide SlotsOf;
    if id < |pages| - 1 {
      PageSlots(pages[..|pages| - 1], id);
    }
  }

  /** Two pages have no more slots than all of them. */
  lemma TwoPages(pages: PageTable, id: nat, n: nat)
    requires id < |pages| && n < |pages| && id != n
    ensures SlotsOf(pages[id]) + SlotsOf(pages[n]) <= SlotsIn(pages)
  {
    SlotsUpdate(pages, id, None);
    PageSlots(pages[id := None], n);
  }

  // ----- the free list -------------------------------------------------------------------

  /** Freed numbers are those of absent pages, each once. */
  ghost predicate FreeOk(pages: PageTable, freeIds: seq<nat>)
  {
    && (forall k :: 0 <= k < |freeIds| ==> freeIds[k] < |pages| && pages[freeIds[k]].None?)
    && (forall j, k :: 0 <= j < k < |freeIds| ==> freeIds[j] != freeIds[k])
  }

  /** The number a new page gets: the one freed last, or one more. */
  function NextId(pages: PageTable, freeIds: seq<nat>): nat
  {
    if |freeIds| > 0 then freeIds[|freeIds| - 1] else |pages|
  }

  /** What storing a page under a number no page has does to the table. */
  function Placed(pages: PageTable, id: nat, p: Page): PageTable
    requires id <= |pages|
  {
    if id == |pages| then pages + [Some(p)] else pages[id := Some(p)]
  }

  lemma PlacedBag(pages: PageTable, id: nat, p: Page)
    requires id <= |pages| && (id < |pages| ==> pages[id].None?)
    ensures Bag(Placed(pages, id, p)) == Bag(pages) + BagOf(Some(p))
  {
    if id == |pages| {
      BagSnoc(pages, Some(p));
    } else {
      BagUpdate(pages, id, Some(p));
    }
  }

  // ----- the row-id map ------------------------------------------------------------------

  /** The location is a live slot carrying the row id. */
  ghost predicate NamesLive(pages: PageTable, loc: Location, row: nat)
  {
    && IsData(pages, loc.page) && pages[loc.page].value.slots.Some?
    && loc.slot < |pages[loc.page].value.slots.value|
    && pages[loc.page].value.slots.value[loc.slot].live
    && pages[loc.page].value.slots.value[loc.slot].rowId == row
  }

  /** Every mapped row id names a live slot that carries it. */
  ghost predicate MapSound(pages: PageTable, rows: RowMap)
  {
    forall r :: r in rows ==> NamesLive(pages, rows[r], r)
  }

  /** ... and every live slot is the one its row id is mapped to. */
  ghost predicate MapExact(pages: PageTable, rows: RowMap)
  {
    && MapSound(pages, rows)
    && forall loc, r :: NamesLive(pages, loc, r) ==> r in rows && rows[r] == loc
  }

  /** `next` is `rows` with the rows of the slots from `start` up to `n` moved to page
      `id`. */
  ghost predicate Relocated(rows: RowMap, next: RowMap, slots: seq<Slot>, id: nat, start: nat, n: nat)
  {
    && next.Keys == rows.Keys
    && forall r :: r in rows ==>
      MovedTo(next[r], slots, id, start, n, r) || (next[r] == rows[r] && !Carries(slots, start, n, r))
  }

  ghost predicate MovedTo(loc: Location, slots: seq<Slot>, id: nat, start: nat, n: nat, r: nat)
  {
    loc.page == id && start <= loc.slot < n <= |slots| && slots[loc.slot].rowId == r
  }

  ghost predicate Carries(slots: seq<Slot>, start: nat, n: nat, r: nat)
  {
    exists i :: start <= i < n && i < |slots| && slots[i].rowId == r
  }

  /** Only data pages have recorded free space. */
  ghost predicate SpaceOk(pages: PageTable, space: map<nat, nat>)
  {
    forall id :: id in space ==> IsData(pages, id)
  }

  lemma SpaceUpdate(pages: PageTable, space: map<nat, nat>, id: nat, p: Page, x: nat)
    requires SpaceOk(pages, space) && id < |pages| && p.kind.Data?
    ensures SpaceOk(pages[id := Some(p)], space) && SpaceOk(pages[id := Some(p)], space[id := x])
  {
  }

  lemma SpacePlaced(pages: PageTable, space: map<nat, nat>, id: nat, p: Page, x: nat)
    requires SpaceOk(pages, space) && id <= |pages| && p.kind.Data?
    ensures SpaceOk(Placed(pages, id, p), space) && SpaceOk(Placed(pages, id, p), space[id := x])
  {
  }

  lemma SpaceFreed(pages: PageTable, space: map<nat, nat>, id: nat)
    requires SpaceOk(pages, space) && id < |pages|
    ensures SpaceOk(pages[id := None], space - {id})
  {
  }

  lemma FreeUpdate(pages: PageTable, freeIds: seq<nat>, id: nat, q: Page)
    requires FreeOk(pages, freeIds) && id < |pages| && pages[id].Some?
    ensures FreeOk(pages[id := Some(q)], freeIds)
  {
  }

  ghost predicate IdsBelow(pages: PageTable, next: nat)
  {
    forall id :: 0 <= id < |pages| && IsData(pages, id) ==> SlotsBelow(pages[id].value, next)
  }

  ghost predicate SlotsBelow(p: Page, next: nat)
  {
    p.slots.Some? ==> forall i :: 0 <= i < |p.slots.value| ==> p.slots.value[i].rowId < next
  }

  /** No tombstone anywhere. */
  ghost predicate NoTombstones(pages: PageTable)
  {
    forall id :: 0 <= id < |pages| && IsData(pages, id) ==> SlotsLive(pages[id].value)
  }

  ghost predicate SlotsLive(p: Page)
  {
    p.slots.Some? ==> forall i :: 0 <= i < |p.slots.value| ==> p.slots.value[i].live
  }

  predicate DataOrFree(pages: PageTable, id: nat)
  {
    id < |pages| && (pages[id].Some? ==> pages[id].value.kind.Data?)
  }

  /** Only data pages and unused numbers were touched, and they still are such. */
  ghost predicate KeepsKinds(pages: PageTable, next: PageTable)
  {
    && |pages| <= |next|
    && (forall id :: 0 <= id < |pages| && DataOrFree(pages, id) ==> DataOrFree(next, id))
    && (forall id :: 0 <= id < |pages| && !DataOrFree(pages, id) ==> next[id] == pages[id])
  }

  /** The database's state is in order. */
  ghost predicate Good(schema: seq<Column>, pages: PageTable, freeIds: seq<nat>, highWater: nat, space: map<nat, nat>,
          rows: RowMap, next: nat)
  {
    && |schema| > 0
    && |pages| == highWater
    && FreeOk(pages, freeIds)
    && GoodPages(schema, pages)
    && SpaceOk(pages, space)
    && IdsBelow(pages, next)
    && (forall r :: r in rows ==> r < next)
  }

  // ----- the database ----------------------------------------------------------------------

  class Database {
    const schema: seq<Column>

    // the pager
    var pages: PageTable
    var freeIds: seq<nat>
    var highWater: nat
    // bytes of free space of the data pages
    var space: map<nat, nat>
    var rowMap: RowMap
    var nextRowId: nat

    ghost predicate Valid()
      reads this
    {
      Good(schema, pages, freeIds, highWater, space, rowMap, nextRowId)
    }

    ghost function Rows(): multiset<Row>
      reads this
    {
      Bag(pages)
    }

    /** An empty database; the first column holds the row ids. */
    constructor (columns: seq<Column>)
      requires |columns| > 0
      ensures Valid() && schema == columns && Rows() == multiset{} && rowMap == map[] && MapExact(pages, rowMap)
      ensures pages == [] && freeIds == [] && space == map[] && nextRowId == 1
    {
      schema := columns;
      pages := [];
      freeIds := [];
      highWater := 0;
      space := map[];
      rowMap := map[];
      nextRowId := 1;
    }

    // ----- the pager -----------------------------------------------------------------------

    /** src/pager.rs, lines 246-256: a freed number is used again first. */
    method Alloc(p: Page) returns (id: nat)
      requires |pages| == highWater && FreeOk(pages, freeIds)
      modifies this`pages, this`freeIds, this`highWater
      ensures id <= |old(pages)| && (id < |old(pages)| ==> old(pages)[id].None?)
      ensures id == NextId(old(pages), old(freeIds))
              && freeIds == if |old(freeIds)| > 0 then old(freeIds)[..|old(freeIds)| - 1] else []
      ensures pages == Placed(old(pages), id, p) && |pages| == highWater && FreeOk(pages, freeIds)
    {
      if |freeIds| > 0 {
        id := freeIds[|freeIds| - 1];
        freeIds := freeIds[..|freeIds| - 1];
        pages := pages[id := Some(p)];
        return;
      }
      id := highWater;
      highWater := highWater + 1;
      pages := pages + [Some(p)];
    }

    /** src/pager.rs, lines 269-275. */
    method Free(id: nat)
      requires |pages| == highWater && FreeOk(pages, freeIds)
      modifies this`pages, this`freeIds
      ensures pages == if id < |old(pages)| then old(pages)[id := None] else old(pages)
      ensures freeIds == if id < |old(pages)| && old(pages)[id].Some? then old(freeIds) + [id] else old(freeIds)
      ensures |pages| == highWater && FreeOk(pages, freeIds)
    {
      if id < |pages| && pages[id].Some? {
        pages := pages[id := None];
        freeIds := freeIds + [id];
      } else if id < |pages| {
        assert pages == pages[id := None];
      }
    }

    // ----- the free-space map --------------------------------------------------------------

    /** src/fsm.rs, lines 69-80: the first page with the most room, if one has enough. */
    method PageWithSpace(need: nat) returns (best: Option<nat>)
      requires SpaceOk(pages, space)
      ensures best.Some? ==> best.value in space && space[best.value] >= need && forall id :: id in space ==>
              space[id] <= space[best.value]
      ensures best.Some? ==> forall id :: id in space && id < best.value ==> space[id] < space[best.value]
      ensures best.None? ==> forall id :: id in space ==> space[id] < need
    {
      best := None;
      for id := 0 to |pages|
        invariant best.Some? ==> best.value in space && space[best.value] >= need
        invariant best.Some? ==> best.value < id && forall i :: 0 <= i < id && i in space ==>
                  space[i] <= space[best.value]
        invariant best.Some? ==> forall i :: i in space && i < best.value ==> space[i] < space[best.value]
        invariant best.None? ==> forall i :: 0 <= i < id && i in space ==> space[i] < need
      {
        if id in space && space[id] >= need && (best.None? || space[best.value] < space[id]) {
          best := Some(id);
        }
      }
    }

    // ----- scanning ------------------------------------------------------------------------

    /** src/query.rs, lines 48-78: every live row of every data page. */
    method ScanAll() returns (out: seq<Row>)
      requires Valid()
      ensures out == RowsBefore(pages, |pages|) && multiset(out) == Rows()
    {
      hide GoodPage, PageRows, Bag, BagOf, FreeOk, SpaceOk, IdsBelow;
      out := [];
      BagTake(pages, 0);
      for id := 0 to |pages|
        invariant out == RowsBefore(pages, id) && multiset(out) == Bag(pages[..id])
      {
        BagTake(pages, id);
        if IsData(pages, id) {
          var rows := ScanPage(pages[id].value);
          out := out + rows;
        }
      }
      assert pages[..|pages|] == pages;
    }

    method ScanPage(p: Page) returns (out: seq<Row>)
      requires GoodPage(schema, p)
      ensures out == PageRows(p)
    {
      out := [];
      var slots, body := p.slots.value, p.body.value;
      for i := 0 to |slots|
        invariant out == RowsUpTo(p, i)
      {
        if slots[i].live {
          var values: seq<Value> := [];
          for c := 0 to |body|
            invariant |values| == c && forall d :: 0 <= d < c ==> values[d] == RowAt(p, i).values[d]
          {
            var v := ReadCell(body[c], i);
            values := values + [v];
          }
          assert Row(slots[i].rowId, values) == RowAt(p, i);
          out := out + [Row(slots[i].rowId, values)];
        }
      }
    }

    // ----- inserting -------------------------------------------------------------------------

    /** src/mutation.rs, lines 56-100. A positive integer in the first column is the new
        row's id, otherwise the next number is. RLE columns must be given values of their
        kind: their runs cannot hold a null. */
    method Insert(values: seq<Value>) returns (r: Result<nat, Error>)
      requires Valid() && nextRowId <= I64_MAX
      requires |values| == |schema| ==> RleTyped(schema, values) && Counted(schema, pages, 1)
      modifies this
      ensures Valid()
      ensures |values| != |schema| ==>
              r == Err(Arity(|values|)) && pages == old(pages) && rowMap == old(rowMap) && nextRowId == old(nextRowId)
      ensures |values| == |schema| ==>
              r == Ok(if values != [] && values[0].Int? && values[0].i > 0 then values[0].i else old(nextRowId))
      ensures |values| == |schema| ==> Rows() == old(Rows()) + multiset{NewRow(schema, values, r.value)}
      ensures |values| == |schema| ==> r.value in rowMap && rowMap == old(rowMap)[r.value := rowMap[r.value]]
      ensures |values| == |schema| ==>
              nextRowId == Larger(old(nextRowId), r.value + 1) && SlotsIn(pages) == SlotsIn(old(pages)) + 1
      ensures old(MapSound(pages, rowMap)) ==> MapSound(pages, rowMap)
      ensures |values| == |schema| && old(MapExact(pages, rowMap)) ==>
              (MapExact(pages, rowMap) <==> r.value !in old(rowMap))
      ensures |values| == |schema| ==>
              RowPlaced(schema, old(pages), old(freeIds), old(space), values, r.value, pages, space, rowMap[r.value])
    {
      hide RowPlaced, Good, Bag, MapSound, MapExact, NewRow, RleTyped;
      if |values| != |schema| {
        return Err(Arity(|values|));
      }
      NonEmptySchema(schema, pages, freeIds, highWater, space, rowMap, nextRowId);
      var id := InsertRow(values);
      r := Ok(id);
    }

    method InsertRow(values: seq<Value>) returns (r: nat)
      requires Valid() && nextRowId <= I64_MAX && |values| == |schema| > 0 && RleTyped(schema, values)
               && Counted(schema, pages, 1)
      modifies this
      ensures Valid() && r == RowIdFor(values, old(nextRowId)) && nextRowId == Larger(old(nextRowId), r + 1)
      ensures Rows() == old(Rows()) + multiset{NewRow(schema, values, r)} && SlotsIn(pages) == SlotsIn(old(pages)) + 1
      ensures r in rowMap && rowMap == old(rowMap)[r := rowMap[r]]
      ensures old(MapSound(pages, rowMap)) ==> MapSound(pages, rowMap)
      ensures old(MapExact(pages, rowMap)) ==> (MapExact(pages, rowMap) <==> r !in old(rowMap))
      ensures RowPlaced(schema, old(pages), old(freeIds), old(space), values, r, pages, space, rowMap[r])
    {
      hide Good, GoodPage, GoodPages, IdsBelow, Bag, FreeOk, SpaceOk, MapSound, MapExact, AppendedTo, Appendable,
           BaseOf, KeptRow, RleTyped, Placed, RowWidth, PageChosen, RowPlaced;
      GoodParts(schema, pages, freeIds, highWater, space, rowMap, nextRowId);
      var rowId: nat := RowIdFor(values, nextRowId);
      nextRowId := Larger(nextRowId, rowId + 1);
      HigherNext(schema, pages, freeIds, highWater, space, rowMap, old(nextRowId), nextRowId);
      var cells := values[0 := Int(rowId)];
      TypedCells(schema, values, rowId);
      var width := RowWidth(schema);
      var need := if width > 1 then width else 1;
      var id := PageForRow(need);
      ghost var before := pages;
      PageSlots(pages, id);
      ghost var p := AppendRow(id, rowId, cells);
      InsertBag(schema, before, id, rowId, cells, p);
      InsertKeeps(schema, old(pages), before, id, rowId, cells, p, old(nextRowId), nextRowId);
      InsertMap(schema, old(pages), before, old(rowMap), id, rowId, cells, p);
      var left := if space[id] > need then space[id] - need else 0;
      ReplacedGood(schema, before, freeIds, highWater, space, old(rowMap), id, p, left, nextRowId);
      MappedGood(schema, pages, freeIds, highWater, space[id := left], old(rowMap), nextRowId, rowId, rowMap[rowId]);
      PlacedSo(schema, old(pages), old(freeIds), old(space), values, rowId, id, before, space, p);
      space := space[id := left];
      r := rowId;
    }

    /** src/mutation.rs, lines 81-89: a page with room, or a new one. */
    method PageForRow(need: nat) returns (id: nat)
      requires Valid()
      modifies this`pages, this`freeIds, this`highWater, this`space
      ensures |pages| == highWater && FreeOk(pages, freeIds) && SpaceOk(pages, space) && id in space
      ensures pages == old(pages) || (id <= |old(pages)| && (id < |old(pages)| ==> old(pages)[id].None?)
              && pages == Placed(old(pages), id, Blank()))
      ensures IsData(pages, id) && Appendable(schema, pages[id].value)
              && GoodPage(schema, BaseOf(schema, pages[id].value))
      ensures Bag(pages) == Bag(old(pages)) && SlotsIn(pages) == SlotsIn(old(pages))
      ensures PageChosen(old(pages), old(freeIds), old(space), need, id, pages, space)
    {
      hide Good, GoodPage, GoodPages, IdsBelow, Bag, FreeOk, SpaceOk, Appendable, BaseOf, Placed;
      GoodParts(schema, pages, freeIds, highWater, space, rowMap, nextRowId);
      var found := PageWithSpace(need);
      if found.Some? {
        id := found.value;
        SpacePage(schema, pages, space, id);
      } else {
        id := Alloc(Blank());
        PlacedBlank(schema, old(pages), space, id);
        SlotsPlaced(old(pages), id, Blank());
        space := space[id := PAGE_DATA_CAPACITY];
      }
    }

    /** src/mutation.rs, lines 102-157; `p` is the page with the row at its end. */
    method AppendRow(id: nat, rowId: nat, values: seq<Value>) returns (ghost p: Page)
      requires IsData(pages, id) && |values| == |schema| > 0 && RleTyped(schema, values) && values[0].Int?
               && Appendable(schema, pages[id].value)
      requires HasRle(schema) ==> SlotsOf(pages[id]) < U32_MAX
      modifies this`pages, this`rowMap
      ensures pages == old(pages)[id := Some(p)] && p.kind.Data? && GoodPage(schema, p)
      ensures AppendedTo(schema, BaseOf(schema, old(pages)[id].value), rowId, values, p)
      ensures rowMap == old(rowMap)[rowId := Location(id, |p.slots.value| - 1)]
      ensures SlotsIn(pages) == SlotsIn(old(pages)) + 1
    {
      hide CellsOf, Fits, RowWidth, PageRows, Pages.Kept;
      var page := pages[id].value;
      var body := if page.body.Some? then page.body.value else FreshBody(schema);
      var slots := if page.slots.Some? then page.slots.value else [];
      BaseGood(schema, page);
      var slotIndex := |slots|;
      var next: seq<Region> := [];
      for c := 0 to |body|
        invariant |next| == c && pages == old(pages) && rowMap == old(rowMap)
        invariant forall d :: 0 <= d < c ==>
                  Fits(schema[d], next[d]) && CellsOf(next[d]) == CellsOf(body[d]) + [Pages.Kept(schema[d], values[d])]
      {
        var s := AppendCell(body[c], values[c], schema[c]);
        next := next + [s];
      }
      slots := slots + [Slot(rowId, slotIndex, RowWidth(schema), true)];
      p := Page(Data, Some(next), Some(slots));
      SlotsUpdate(pages, id, Some(p));
      pages := pages[id := Some(Page(Data, Some(next), Some(slots)))];
      rowMap := rowMap[rowId := Location(id, slotIndex)];
    }

    // ----- deleting --------------------------------------------------------------------------

    /** src/mutation.rs, lines 250-271: each listed row that is mapped loses its mapping,
        and its slot becomes a tombstone. */
    method DeleteRows(ids: seq<nat>) returns (count: nat)
      requires Valid() && MapSound(pages, rowMap)
      modifies this`pages, this`rowMap
      ensures Valid() && MapSound(pages, rowMap)
      ensures rowMap == old(rowMap) - IdSet(ids) && rowMap.Keys == old(rowMap).Keys - IdSet(ids)
              && count == |old(rowMap)| - |rowMap|
      ensures SubBag(Rows(), old(Rows()))
      ensures old(MapExact(pages, rowMap)) ==>
              MapExact(pages, rowMap) && RowsWithout(old(Rows()), Rows(), old(rowMap).Keys - rowMap.Keys)
    {
      hide Good, IdSet, MapSound, MapExact, Bag, RowsWithout, SubBag, Deleted;
      ghost var exact, all := MapExact(pages, rowMap), Rows();
      count := 0;
      IdSetStep(ids, 0);
      NoneDeleted(rowMap, all, exact);
      for k := 0 to |ids|
        invariant Valid() && MapSound(pages, rowMap) && (exact ==> MapExact(pages, rowMap))
        invariant Deleted(old(rowMap), rowMap, all, Rows(), IdSet(ids[..k]), exact)
        invariant count + |rowMap| == |old(rowMap)|
      {
        IdSetStep(ids, k);
        ghost var rows, left := rowMap, Rows();
        if ids[k] in rowMap {
          DeleteRow(ids[k]);
          count := count + 1;
          OneDeleted(old(rowMap), rows, all, left, Rows(), IdSet(ids[..k]), ids[k], exact);
        } else {
          AlreadyDeleted(old(rowMap), rows, all, left, IdSet(ids[..k]), ids[k], exact);
        }
      }
      assert ids[..|ids|] == ids;
      AllDeleted(old(rowMap), rowMap, all, Rows(), IdSet(ids), exact);
    }

    method DeleteRow(row: nat)
      requires Valid() && MapSound(pages, rowMap) && row in rowMap
      modifies this`pages, this`rowMap
      ensures Valid() && MapSound(pages, rowMap) && SubBag(Rows(), old(Rows()))
      ensures rowMap == old(rowMap) - {row} && rowMap.Keys == old(rowMap).Keys - {row} && |rowMap| == |old(rowMap)| - 1
      ensures old(MapExact(pages, rowMap)) ==> MapExact(pages, rowMap) && RowsWithout(old(Rows()), Rows(), {row})
    {
      hide Good, MapSound, MapExact, Bag, RowsWithout, NamesLive, GoodPages, IdsBelow, FreeOk, SpaceOk;
      var loc := rowMap[row];
      GoodParts(schema, pages, freeIds, highWater, space, rowMap, nextRowId);
      TombstoneKeeps(schema, pages, rowMap, row, nextRowId);
      LiveParts(pages, loc, row);
      TombstoneGood(schema, pages, freeIds, highWater, space, rowMap, nextRowId, row);
      if MapExact(pages, rowMap) {
        TombstoneExact(schema, pages, rowMap, row);
      }
      FewerKeys(rowMap, row);
      rowMap := rowMap - {row};
      pages := Tombstoned(pages, loc);
    }

    /** src/mutation.rs, lines 380-389: the mapped rows, in id order, whose cell passes. */
    method CollectMatching(col: nat, op: CmpOp, target: Value) returns (ids: seq<nat>)
      requires Valid() && MapSound(pages, rowMap) && col < |schema|
      ensures forall r :: r in ids <==> r in rowMap && Apply(op, CellAt(pages, rowMap[r], col), target)
      ensures forall j, k :: 0 <= j < k < |ids| ==> ids[j] < ids[k]
    {
      hide GoodPage, GoodPages, FreeOk, SpaceOk, IdsBelow, MapSound, NamesLive, CellAt, Apply, CellsOf;
      ids := [];
      for r := 0 to nextRowId
        invariant forall i: nat :: i in ids <==>
                  i < r && i in rowMap && Apply(op, CellAt(pages, rowMap[i], col), target)
        invariant forall j :: 0 <= j < |ids| ==> ids[j] < r
        invariant forall j, k :: 0 <= j < k < |ids| ==> ids[j] < ids[k]
      {
        if r in rowMap {
          var loc := rowMap[r];
          MappedCell(schema, pages, rowMap, r, col);
          var v := ReadCell(pages[loc.page].value.body.value[col], loc.slot);
          if Apply(op, v, target) {
            ids := ids + [r];
          }
        }
      }
    }

    /** src/mutation.rs, lines 247-273: deleting removes exactly the rows that match. */
    method DeleteWhere(col: nat, op: CmpOp, target: Value) returns (r: Result<nat, Error>)
      requires Valid() && MapExact(pages, rowMap)
      modifies this`pages, this`rowMap
      ensures Valid() && MapExact(pages, rowMap)
      ensures col >= |schema| ==> r == Err(NotFound(col)) && pages == old(pages) && rowMap == old(rowMap)
      ensures col < |schema| ==> r == Ok(|old(rowMap)| - |rowMap|)
      ensures col < |schema| ==> forall row: Row {:trigger Rows()[row]} ::
              Rows()[row] == if RowMatches(row, col, op, target) then 0 else old(Rows())[row]
      ensures col < |schema| && target.Int? ==> forall row: Row {:trigger Rows()[row]} ::
              col < |row.values| && row.values[col].Int? ==>
                Rows()[row] == if Says(op, row.values[col].i, target.i) then 0 else old(Rows())[row]
    {
      hide Says;
      hide Good, GoodPages, FreeOk, SpaceOk, IdsBelow, NamesLive, CellAt, Apply, RowMatches, Bag, RowsWithout;
      if col >= |schema| {
        return Err(NotFound(col));
      }
      GoodParts(schema, pages, freeIds, highWater, space, rowMap, nextRowId);
      var ids := CollectMatching(col, op, target);
      MatchesAre(schema, pages, rowMap, col, op, target, ids);
      var count := DeleteRows(ids);
      OnlyMatches(old(Rows()), Rows(), old(rowMap), rowMap, ids, col, op, target);
      if target.Int? {
        IntsMatch(col, op, target.i);
      }
      r := Ok(count);
    }

    // ----- updating --------------------------------------------------------------------------

    /** src/mutation.rs, lines 297-343: one cell of a page; a column past the last is no
        error. */
    method RewriteCell(loc: Location, col: nat, v: Value) returns (ghost q: Page)
      requires Valid() && IsData(pages, loc.page)
      requires Counted(schema, pages, 0)
               && (col < |schema| && schema[col].encoding.Rle? ==> KindMatches(schema[col].kind, v))
      modifies this`pages
      ensures SlotsIn(pages) == SlotsIn(old(pages))
      ensures Valid() && pages == old(pages)[loc.page := Some(q)] && old(pages)[loc.page].value.body.Some?
      ensures CellSet(old(pages)[loc.page].value, q, loc.slot, col, KeptIn(schema, col, v))
    {
      hide Good, GoodPage, GoodPages, FreeOk, SpaceOk, IdsBelow, CellSet;
      GoodParts(schema, pages, freeIds, highWater, space, rowMap, nextRowId);
      DataPage(schema, pages, loc.page);
      var p := pages[loc.page].value;
      if col >= |schema| {
        q := p;
        NothingSet(schema, p, loc.slot, col, v);
        assert pages == pages[loc.page := Some(q)];
        return;
      }
      PageSlots(pages, loc.page);
      var next := RewriteRegion(schema, p, loc.slot, col, v);
      q := next;
      SlotsUpdate(pages, loc.page, Some(q));
      SetSlots(p, q, loc.slot, col, KeptIn(schema, col, v));
      SetKeeps(schema, pages, loc.page, q, loc.slot, col, KeptIn(schema, col, v), nextRowId);
      ReplacedGood(schema, pages, freeIds, highWater, space, rowMap, loc.page, q, 0, nextRowId);
      pages := pages[loc.page := Some(next)];
    }

    /** src/mutation.rs, lines 276-295: exactly the rows that match get the value, as their
        column keeps it, and every row stays where it was. */
    method UpdateWhere(setCol: nat, value: Value, col: nat, op: CmpOp, target: Value) returns (r: Result<nat, Error>)
      requires Valid() && MapExact(pages, rowMap)
      requires Counted(schema, pages, 0)
               && (setCol < |schema| && schema[setCol].encoding.Rle? ==> KindMatches(schema[setCol].kind, value))
      modifies this`pages
      ensures Valid() && MapExact(pages, rowMap)
      ensures col >= |schema| ==> r == Err(NotFound(col)) && pages == old(pages)
      ensures col < |schema| ==> r == Ok(|Matching(old(pages), rowMap, col, op, target)|)
      ensures col < |schema| ==> |pages| == |old(pages)| && forall id: nat :: id < |pages| ==>
        && (IsData(pages, id) <==> IsData(old(pages), id)) && (!IsData(pages, id) ==> pages[id] == old(pages)[id])
        && RowsOn(pages, id) == Updated(RowsOn(old(pages), id), setCol, KeptIn(schema, setCol, value), col, op, target)
      ensures col < |schema| && target.Int? ==> |pages| == |old(pages)| && forall id: nat :: id < |pages| ==>
        IntsUpdated(RowsOn(old(pages), id), RowsOn(pages, id), setCol, KeptIn(schema, setCol, value), col, op, target.i)
    {
      hide Good, GoodPages, GoodPage, FreeOk, SpaceOk, IdsBelow, NamesLive, MapExact, MapSound, CellAt, Apply,
           CellSet, UpdatedSoFar, Matching;
      if col >= |schema| {
        return Err(NotFound(col));
      }
      GoodParts(schema, pages, freeIds, highWater, space, rowMap, nextRowId);
      ExactIsSound(pages, rowMap);
      ghost var w := KeptIn(schema, setCol, value);
      var ids := CollectMatching(col, op, target);
      MatchingCount(pages, rowMap, col, op, target, ids);
      StartUpdating(schema, pages, rowMap, ids, setCol, w);
      for k := 0 to |ids|
        invariant Valid() && UpdatedSoFar(schema, old(pages), pages, rowMap, IdSet(ids[..k]), setCol, w)
                  && SlotsIn(pages) == SlotsIn(old(pages))
      {
        IdSetStep(ids, k);
        assert ids[k] in ids;
        if ids[k] in rowMap {
          MappedPage(schema, old(pages), pages, rowMap, IdSet(ids[..k]), ids[k], setCol, w);
          ghost var before := pages;
          ghost var q := RewriteCell(rowMap[ids[k]], setCol, value);
          UpdatedOne(schema, old(pages), before, pages, rowMap, IdSet(ids[..k]), ids[k], setCol, w, q);
        }
      }
      assert ids[..|ids|] == ids;
      UpdatedExact(schema, old(pages), pages, rowMap, IdSet(ids), setCol, w);
      UpdatedPages(schema, old(pages), pages, rowMap, ids, setCol, w, col, op, target);
      if target.Int? {
        UpdatedInts(setCol, w, col, op, target.i);
      }
      r := Ok(|ids|);
    }

    // ----- compacting ------------------------------------------------------------------------

    /** src/compact.rs, lines 65-129: drop the tombstones of a page. The row-id map is not
        touched; see RepackKeepsMapIff for when it stays right. */
    method Repack(id: nat)
      requires Valid() && IsData(pages, id) && Counted(schema, pages, 0)
      modifies this`pages, this`space
      ensures Valid() && Rows() == old(Rows()) && SlotsIn(pages) <= SlotsIn(old(pages))
      ensures IsData(pages, id) && pages == old(pages)[id := pages[id]] && KeepsKinds(old(pages), pages)
      ensures Selects(schema, old(pages)[id].value, Live(old(pages)[id].value.slots.value), pages[id].value)
      ensures RepackDone(schema, old(pages), old(space), id, pages, space)
      ensures Undisturbed(old(pages), rowMap, pages, rowMap, id)
      ensures old(MapExact(pages, rowMap)) ==>
        if NoGap(old(pages)[id].value.slots.value) then MapExact(pages, rowMap) else Lost(pages, rowMap, {id})
    {
      hide Undisturbed, Lost, MapExact, NoGap, Good, GoodPage, GoodPages, FreeOk, SpaceOk, IdsBelow, Bag, PageRows,
           Selects, SlotsBelow;
      GoodParts(schema, pages, freeIds, highWater, space, rowMap, nextRowId);
      DataPage(schema, pages, id);
      var p := pages[id].value;
      var live := Live(p.slots.value);
      var q: Page;
      PageSlots(pages, id);
      if live == [] {
        q := Page(Data, Some(FreshBody(schema)), Some([]));
        FreshSelects(schema, p);
      } else {
        q := SelectPage(p, live);
      }
      RepackKeeps(schema, pages, id, q, nextRowId);
      SlotsUpdate(pages, id, Some(q));
      SelectedSlots(schema, p, live, q);
      assert RepackAt(schema, pages, id, q, pages[id := Some(q)]);
      RepackDisturbs(schema, pages, rowMap, id, q);
      ReplacedGood(schema, pages, freeIds, highWater, space, rowMap, id, q, PAGE_DATA_CAPACITY, nextRowId);
      pages := pages[id := Some(q)];
      space := space[id := PAGE_DATA_CAPACITY];
    }

    /** src/compact.rs, lines 171-226: the upper half of the live rows moves to a new page. */
    method Split(id: nat)
      requires Valid() && IsData(pages, id) && Counted(schema, pages, 0)
      modifies this`pages, this`freeIds, this`highWater, this`space, this`rowMap
      ensures Valid() && Rows() == old(Rows()) && KeepsKinds(old(pages), pages) && SlotsIn(pages) <= SlotsIn(old(pages))
      ensures SplitDone(schema, old(pages), old(space), id, pages, space)
      ensures old(MapSound(pages, rowMap)) ==> MapSound(pages, rowMap)
      ensures old(MapExact(pages, rowMap)) ==> MapExact(pages, rowMap)
      ensures NoTombstones(old(pages)) ==> NoTombstones(pages)
      ensures Undisturbed(old(pages), old(rowMap), pages, rowMap, id)
    {
      hide Undisturbed, Good, GoodPage, GoodPages, FreeOk, SpaceOk, IdsBelow, Bag, PageRows, MapSound, MapExact,
           NoTombstones, Relocated, KeepsKinds, Placed, SplitAt, Halves;
      NothingDisturbed(pages, rowMap, id);
      GoodParts(schema, pages, freeIds, highWater, space, rowMap, nextRowId);
      DataPage(schema, pages, id);
      SameKinds(pages);
      var live := Live(pages[id].value.slots.value);
      if |live| < 4 {
        return;
      }
      var newId, left, right := MoveUpperHalf(id, |live| / 2);
      ghost var rows0 := rowMap;
      RelocateAll(left.slots.value, id, 0);
      ghost var rows1 := rowMap;
      RelocateAll(right.slots.value, newId, 0);
      SameKeys(rows0, rows1, rowMap, left.slots.value, id, right.slots.value, newId);
      SplitMap(schema, old(pages), pages, rows0, rows1, rowMap, id, newId, |live| / 2, left, right);
      SplitDisturbs(schema, old(pages), pages, rows0, rows1, rowMap, id, newId, |live| / 2, left, right);
      space := space[id := PAGE_DATA_CAPACITY][newId := PAGE_DATA_CAPACITY];
      RemappedGood(schema, pages, freeIds, highWater, space, rows0, rowMap, nextRowId);
      SplitIs(schema, old(pages), old(space), id, newId, left, right, pages, space);
    }

    /** src/compact.rs, lines 180-211: the page keeps its first `mid` live rows, and a new
        page has the others. */
    method MoveUpperHalf(id: nat, mid: nat) returns (newId: nat, left: Page, right: Page)
      requires Valid() && IsData(pages, id) && GoodPage(schema, pages[id].value)
               && mid <= |Live(pages[id].value.slots.value)|
      requires Counted(schema, pages, 0)
      modifies this`pages, this`freeIds, this`highWater
      ensures SlotsIn(pages) <= SlotsIn(old(pages))
      ensures Halves(schema, old(pages), id, newId, mid, left, right)
      ensures newId <= |old(pages)| && newId == NextId(old(pages), old(freeIds))
              && id < |Placed(old(pages), newId, right)|
      ensures pages == Placed(old(pages), newId, right)[id := Some(left)] && left.slots.Some? && right.slots.Some?
      ensures Good(schema, pages, freeIds, highWater, space[id := PAGE_DATA_CAPACITY][newId := PAGE_DATA_CAPACITY],
              rowMap, nextRowId)
      ensures Bag(pages) == Bag(old(pages)) && KeepsKinds(old(pages), pages)
              && (NoTombstones(old(pages)) ==> NoTombstones(pages))
    {
      hide Good, GoodPages, FreeOk, SpaceOk, IdsBelow, Bag, PageRows, Selects, SlotsBelow, NoTombstones, KeepsKinds,
           Placed, NextId;
      GoodParts(schema, pages, freeIds, highWater, space, rowMap, nextRowId);
      DataPage(schema, pages, id);
      var p := pages[id].value;
      var live := Live(p.slots.value);
      hide GoodPage;
      PageSlots(pages, id);
      left := SelectPage(p, live[..mid]);
      right := SelectPage(p, live[mid..]);
      newId := Alloc(right);
      PlacedElsewhere(old(pages), newId, right, id);
      pages := pages[id := Some(left)];
      SplitKeeps(schema, old(pages), id, newId, mid, left, right, nextRowId);
      SplitSlots(schema, old(pages), id, newId, mid, left, right);
      SplitGood(schema, old(pages), freeIds, highWater, space, rowMap, id, newId, left, right, nextRowId);
    }

    method SelectPage(p: Page, indices: seq<nat>) returns (q: Page)
      requires GoodPage(schema, p) && forall k :: 0 <= k < |indices| ==> indices[k] < |p.slots.value|
      requires HasRle(schema) ==> |indices| <= U32_MAX
      ensures Selects(schema, p, indices, q) && q.kind.Data? && q.body.Some? && q.slots.Some?
    {
      hide CellsOf, Fits, Pick;
      var body := SelectBody(schema, p.body.value, indices, |p.slots.value|);
      q := Page(Data, Some(body), Some(Moved(p.slots.value, indices, 0)));
    }

    /** The relocation loops of src/compact.rs, lines 214-220 and 315-318; a row that is not
        mapped stays unmapped (src/rowid.rs, lines 73-79). */
    method RelocateAll(slots: seq<Slot>, id: nat, start: nat)
      requires start <= |slots|
      modifies this`rowMap
      ensures Relocated(old(rowMap), rowMap, slots, id, start, |slots|)
    {
      for i := start to |slots|
        invariant Relocated(old(rowMap), rowMap, slots, id, start, i)
      {
        var r := slots[i].rowId;
        RelocateStep(old(rowMap), rowMap, slots, id, start, i);
        if r in rowMap {
          rowMap := rowMap[r := Location(id, i)];
        }
      }
    }

    /** src/compact.rs, lines 259-325: the live rows move to the first other data page, and
        the emptied page is freed. */
    method Merge(id: nat)
      requires Valid() && IsData(pages, id) && Counted(schema, pages, 0)
      modifies this`pages, this`freeIds, this`space, this`rowMap
      ensures Valid() && Rows() == old(Rows()) && KeepsKinds(old(pages), pages) && SlotsIn(pages) <= SlotsIn(old(pages))
      ensures MergeDone(schema, old(pages), old(space), id, pages, space)
      ensures old(MapSound(pages, rowMap)) ==> MapSound(pages, rowMap)
      ensures old(MapExact(pages, rowMap)) ==> MapExact(pages, rowMap)
      ensures NoTombstones(old(pages)) ==> NoTombstones(pages)
      ensures Undisturbed(old(pages), old(rowMap), pages, rowMap, id)
    {
      NothingDisturbed(pages, rowMap, id);
      hide Undisturbed, Good, GoodPage, GoodPages, FreeOk, SpaceOk, IdsBelow, Bag, PageRows, Extends, SlotsBelow,
           MapSound, MapExact, NoTombstones, Relocated, KeepsKinds;
      GoodParts(schema, pages, freeIds, highWater, space, rowMap, nextRowId);
      DataPage(schema, pages, id);
      SameKinds(pages);
      var found := Neighbor(id);
      if found.None? {
        return;
      }
      var n := found.value;
      DataPage(schema, pages, n);
      var p, np := pages[id].value, pages[n].value;
      var live := Live(p.slots.value);
      TwoPages(pages, id, n);
      var q := ExtendPage(np, p, live);
      MergeSlots(schema, pages, id, n, q);
      MergeKeeps(schema, pages, id, n, q, nextRowId);
      MergeLive(schema, pages, id, n, q);
      FreeUpdate(pages, freeIds, n, q);
      pages := pages[n := Some(q)];
      var start := |np.slots.value|;
      RelocateAll(q.slots.value, n, start);
      space := space[n := PAGE_DATA_CAPACITY];
      Free(id);
      space := space - {id};
      MergeMap(schema, old(pages), pages, old(rowMap), rowMap, id, n, q);
      MergeDisturbs(schema, old(pages), pages, old(rowMap), rowMap, id, n, q);
      MergeGood(schema, old(pages), freeIds, highWater, old(space), old(rowMap), rowMap, id, n, q, nextRowId);
      assert MergeAt(schema, old(pages), old(space), id, n, q, pages, space);
    }

    /** The first data page other than `id`. */
    method Neighbor(id: nat) returns (n: Option<nat>)
      ensures n.Some? ==> FirstOther(pages, id, n.value)
      ensures n.None? ==> forall i :: 0 <= i < |pages| && i != id ==> !IsData(pages, i)
    {
      for i := 0 to |pages|
        invariant forall j :: 0 <= j < i && j != id ==> !IsData(pages, j)
      {
        if i != id && IsData(pages, i) {
          return Some(i);
        }
      }
      return None;
    }

    method ExtendPage(p: Page, src: Page, indices: seq<nat>) returns (q: Page)
      requires GoodPage(schema, p) && GoodPage(schema, src) && forall k :: 0 <= k < |indices| ==>
               indices[k] < |src.slots.value|
      requires HasRle(schema) ==> |p.slots.value| + |indices| <= U32_MAX
      ensures Extends(schema, p, src, indices, q)
    {
      hide CellsOf, Fits, Pick;
      var body: seq<Region> := [];
      for c := 0 to |schema|
        invariant |body| == c
        invariant forall d :: 0 <= d < c ==> Fits(schema[d], body[d])
        invariant forall d :: 0 <= d < c ==>
                  CellsOf(body[d]) == CellsOf(p.body.value[d]) + Pick(CellsOf(src.body.value[d]), indices)
      {
        var s := ExtendRegion(p.body.value[c], src.body.value[c], indices, schema[c]);
        body := body + [s];
      }
      q := Page(Data, Some(body), Some(p.slots.value + Moved(src.slots.value, indices, |p.slots.value|)));
    }

    /** The data pages, ascending. */
    method DataPages() returns (ids: seq<nat>)
      ensures AreDataPages(pages, ids)
    {
      ids := [];
      for i := 0 to |pages|
        invariant forall j: nat :: j in ids <==> j < i && IsData(pages, j)
        invariant forall j :: 0 <= j < |ids| ==> ids[j] < i
        invariant forall j, k :: 0 <= j < k < |ids| ==> ids[j] < ids[k]
      {
        if IsData(pages, i) {
          ids := ids + [i];
        }
      }
    }

    /** src/compact.rs, lines 29-55: every page that was a data page gets the operation it
        needs by then, page after page as the trace shows. Whatever the mix of splits, merges
        and repacks, the table a scan sees stays. The row-id map stays right exactly when no
        page was repacked while a live slot followed a tombstone on it. */
    method Compact() returns (ops: nat, ghost ids: seq<nat>, ghost trace: seq<Space>)
      requires Valid() && Counted(schema, pages, 0)
      modifies this`pages, this`freeIds, this`highWater, this`space, this`rowMap
      ensures Valid() && Rows() == old(Rows()) && SlotsIn(pages) <= SlotsIn(old(pages))
      ensures AreDataPages(old(pages), ids) && IsPass(schema, trace, ids, |ids|)
      ensures trace[0] == Space(old(pages), old(space)) && trace[|ids|] == Space(pages, space)
              && ops == OpsIn(trace, ids, |ids|)
      ensures NoTombstones(old(pages)) && old(MapSound(pages, rowMap)) ==>
              NoTombstones(pages) && MapSound(pages, rowMap)
      ensures old(MapExact(pages, rowMap)) ==> (MapSound(pages, rowMap) <==> NoneGapped(trace, ids, |ids|))
      ensures old(MapExact(pages, rowMap)) ==> (MapExact(pages, rowMap) <==> NoneGapped(trace, ids, |ids|))
    {
      hide Good, GoodPage, GoodPages, FreeOk, SpaceOk, IdsBelow, Bag, PageRows, MapSound, MapExact, NoTombstones,
           KeepsKinds, Selects, DataOrFree, Step, NeedOf, NoneGapped, Gapped, Lost, Undisturbed;
      var queue := DataPages();
      ids := queue;
      DataIsKind(pages, ids);
      ops := 0;
      trace := [Space(pages, space)];
      NoneGappedYet(trace, ids);
      for k := 0 to |queue|
        invariant Valid() && Rows() == old(Rows()) && SlotsIn(pages) <= SlotsIn(old(pages))
        invariant forall i :: i in ids ==> DataOrFree(pages, i)
        invariant IsPass(schema, trace, ids, k) && trace[0] == Space(old(pages), old(space))
                  && trace[k] == Space(pages, space)
        invariant ops == OpsIn(trace, ids, k)
        invariant NoTombstones(old(pages)) ==> NoTombstones(pages)
        invariant NoTombstones(old(pages)) && old(MapSound(pages, rowMap)) ==> MapSound(pages, rowMap)
        invariant old(MapExact(pages, rowMap)) ==>
          if NoneGapped(trace, ids, k) then MapExact(pages, rowMap) else Lost(pages, rowMap, IdSet(ids[..k]))
      {
        ghost var before, rows := Space(pages, space), rowMap;
        IdSetStep(ids, k);
        NotAgain(ids, k);
        var done := CompactPage(queue[k]);
        LostStays(before.pages, rows, pages, rowMap, ids[k], IdSet(ids[..k]));
        LostGrows(pages, rowMap, IdSet(ids[..k]), IdSet(ids[..k + 1]));
        LostGrows(pages, rowMap, {ids[k]}, IdSet(ids[..k + 1]));
        GappedNext(trace, Space(pages, space), ids, k);
        KindsCarry(before.pages, pages, ids);
        NextStep(schema, trace, ids, k, Space(pages, space));
        trace := trace + [Space(pages, space)];
        if done {
          ops := ops + 1;
        }
      }
      LostIsUnsound(pages, rowMap, IdSet(ids[..|ids|]));
      if MapExact(pages, rowMap) {
        ExactIsSound(pages, rowMap);
      }
    }

    /** src/compact.rs, lines 38-52: one page of the pass. */
    method CompactPage(id: nat) returns (done: bool)
      requires Valid() && DataOrFree(pages, id) && Counted(schema, pages, 0)
      modifies this`pages, this`freeIds, this`highWater, this`space, this`rowMap
      ensures Valid() && Rows() == old(Rows()) && KeepsKinds(old(pages), pages) && SlotsIn(pages) <= SlotsIn(old(pages))
      ensures Step(schema, Space(old(pages), old(space)), id, Space(pages, space))
              && done == !NeedOf(old(pages), id).Nothing?
      ensures NoTombstones(old(pages)) ==> NoTombstones(pages)
      ensures NoTombstones(old(pages)) && old(MapSound(pages, rowMap)) ==> MapSound(pages, rowMap)
      ensures old(MapExact(pages, rowMap)) ==>
              if Gapped(old(pages), id) then Lost(pages, rowMap, {id}) else MapExact(pages, rowMap)
      ensures Undisturbed(old(pages), old(rowMap), pages, rowMap, id)
    {
      hide Good, GoodPage, GoodPages, FreeOk, SpaceOk, IdsBelow, Bag, PageRows, MapSound, MapExact, NoTombstones,
           KeepsKinds, Selects, SplitDone, MergeDone, RepackDone, Lost, Undisturbed, NoGap;
      SameKinds(pages);
      NothingDisturbed(pages, rowMap, id);
      done := false;
      if pages[id].Some? {
        GoodParts(schema, pages, freeIds, highWater, space, rowMap, nextRowId);
        DataPage(schema, pages, id);
        var p := pages[id].value;
        var others := Neighbor(id);
        NeighborCounts(pages, id, others);
        if BodyLen(p.body.value) > SPLIT_THRESHOLD {
          Split(id);
          done := true;
        } else if |Live(p.slots.value)| < MERGE_THRESHOLD && others.Some? {
          Merge(id);
          done := true;
        } else if |Live(p.slots.value)| != |p.slots.value| {
          HasTombstone(pages, id);
          Repack(id);
          done := true;
        }
      }
    }
  }

  // ----- what a compaction step does ------------------------------------------------------

  datatype Space = Space(pages: PageTable, room: map<nat, nat>)

  datatype Need = Splitting | Merging | Repacking | Nothing

  ghost predicate AreDataPages(pages: PageTable, ids: seq<nat>)
  {
    && (forall i: nat :: i in ids <==> IsData(pages, i))
    && (forall j, k :: 0 <= j < k < |ids| ==> ids[j] < ids[k])
  }

  /** The first data page other than `id`. */
  ghost predicate FirstOther(pages: PageTable, id: nat, n: nat)
  {
    IsData(pages, n) && n != id && forall i :: 0 <= i < n && i != id ==> !IsData(pages, i)
  }

  lemma NeighborCounts(pages: PageTable, id: nat, found: Option<nat>)
    requires found.Some? ==> FirstOther(pages, id, found.value)
    requires found.None? ==> forall i :: 0 <= i < |pages| && i != id ==> !IsData(pages, i)
    ensures found.Some? <==> exists n :: FirstOther(pages, id, n)
  {
  }

  /** What a page needs: splitting when its body is too long, merging when it has too few
      live rows and is not alone, repacking when it has tombstones. */
  ghost function NeedOf(pages: PageTable, id: nat): Need
  {
    if id >= |pages| || pages[id].None? || pages[id].value.body.None? || pages[id].value.slots.None? then Nothing
    else
      var p := pages[id].value;
      if BodyLen(p.body.value) > SPLIT_THRESHOLD then Splitting
      else if |Live(p.slots.value)| < MERGE_THRESHOLD && exists n :: FirstOther(pages, id, n) then Merging
      else if |Live(p.slots.value)| != |p.slots.value| then Repacking
      else Nothing
  }

  /** The page's own live rows, and those only. */
  ghost predicate RepackAt(schema: seq<Column>, pages: PageTable, id: nat, q: Page, after: PageTable)
  {
    && IsData(pages, id) && GoodPage(schema, pages[id].value)
    && Selects(schema, pages[id].value, Live(pages[id].value.slots.value), q)
    && after == pages[id := Some(q)]
  }

  ghost predicate RepackDone(schema: seq<Column>, pages: PageTable, room: map<nat, nat>, id: nat, after: PageTable,
          room': map<nat, nat>)
  {
    room' == room[id := PAGE_DATA_CAPACITY] && exists q :: RepackAt(schema, pages, id, q, after)
  }

  /** The first half of the live rows stays, the second half is on a page that was unused. */
  ghost predicate SplitAt(schema: seq<Column>, pages: PageTable, room: map<nat, nat>, id: nat, newId: nat, left: Page,
          right: Page, after: PageTable, room': map<nat, nat>)
  {
    && IsData(pages, id) && pages[id].value.slots.Some?
    && Halves(schema, pages, id, newId, |Live(pages[id].value.slots.value)| / 2, left, right)
    && after == Placed(pages, newId, right)[id := Some(left)]
    && room' == room[id := PAGE_DATA_CAPACITY][newId := PAGE_DATA_CAPACITY]
  }

  lemma SplitIs(schema: seq<Column>, pages: PageTable, room: map<nat, nat>, id: nat, newId: nat, left: Page,
          right: Page, after: PageTable, room': map<nat, nat>)
    requires IsData(pages, id) && pages[id].value.slots.Some? && newId <= |pages| && id < |Placed(pages, newId, right)|
    requires Halves(schema, pages, id, newId, |Live(pages[id].value.slots.value)| / 2, left, right)
    requires after == Placed(pages, newId, right)[id := Some(left)]
             && room' == room[id := PAGE_DATA_CAPACITY][newId := PAGE_DATA_CAPACITY]
    ensures SplitAt(schema, pages, room, id, newId, left, right, after, room')
  {
    hide Halves, Placed;
  }

  /** Fewer than four live rows are left as they are. */
  ghost predicate SplitDone(schema: seq<Column>, pages: PageTable, room: map<nat, nat>, id: nat, after: PageTable,
          room': map<nat, nat>)
  {
    && IsData(pages, id) && pages[id].value.slots.Some?
    && if |Live(pages[id].value.slots.value)| < 4 then after == pages && room' == room
       else exists newId, left, right :: SplitAt(schema, pages, room, id, newId, left, right, after, room')
  }

  /** The live rows are behind those of the first other data page, and the page is free. */
  ghost predicate MergeAt(schema: seq<Column>, pages: PageTable, room: map<nat, nat>, id: nat, n: nat, q: Page,
          after: PageTable, room': map<nat, nat>)
  {
    && IsData(pages, id) && GoodPage(schema, pages[id].value) && FirstOther(pages, id, n)
      && GoodPage(schema, pages[n].value)
    && Extends(schema, pages[n].value, pages[id].value, Live(pages[id].value.slots.value), q)
    && after == pages[n := Some(q)][id := None]
    && room' == room[n := PAGE_DATA_CAPACITY] - {id}
  }

  /** A page that is alone is left as it is. */
  ghost predicate MergeDone(schema: seq<Column>, pages: PageTable, room: map<nat, nat>, id: nat, after: PageTable,
          room': map<nat, nat>)
  {
    if forall n :: !FirstOther(pages, id, n) then after == pages && room' == room
    else exists n, q :: MergeAt(schema, pages, room, id, n, q, after, room')
  }

  ghost predicate Step(schema: seq<Column>, before: Space, id: nat, after: Space)
  {
    match NeedOf(before.pages, id)
    case Splitting => SplitDone(schema, before.pages, before.room, id, after.pages, after.room)
    case Merging => MergeDone(schema, before.pages, before.room, id, after.pages, after.room)
    case Repacking => RepackDone(schema, before.pages, before.room, id, after.pages, after.room)
    case Nothing => after == before
  }

  /** `trace` runs through the pages of `ids`, one step each. */
  ghost predicate IsPass(schema: seq<Column>, trace: seq<Space>, ids: seq<nat>, n: nat)
  {
    n <= |ids| && |trace| == n + 1 && forall k :: 0 <= k < n ==> Step(schema, trace[k], ids[k], trace[k + 1])
  }

  ghost function OpsIn(trace: seq<Space>, ids: seq<nat>, n: nat): nat
    requires n <= |ids| && n < |trace|
  {
    if n == 0 then 0 else OpsIn(trace, ids, n - 1) + if NeedOf(trace[n - 1].pages, ids[n - 1]).Nothing? then 0 else 1
  }

  /** Repacking the page would renumber a live slot. */
  ghost predicate Gapped(pages: PageTable, id: nat)
  {
    NeedOf(pages, id).Repacking? && !NoGap(pages[id].value.slots.value)
  }

  /** No page of the pass was repacked while a live slot followed a tombstone on it. */
  ghost predicate NoneGapped(trace: seq<Space>, ids: seq<nat>, n: nat)
  {
    n <= |ids| && n < |trace| && forall k :: 0 <= k < n ==> !Gapped(trace[k].pages, ids[k])
  }

  lemma NoneGappedYet(trace: seq<Space>, ids: seq<nat>)
    requires |trace| == 1
    ensures NoneGapped(trace, ids, 0)
  {
  }

  lemma GappedNext(trace: seq<Space>, next: Space, ids: seq<nat>, k: nat)
    requires k < |ids| && |trace| == k + 1
    ensures NoneGapped(trace + [next], ids, k + 1) <==> NoneGapped(trace, ids, k) && !Gapped(trace[k].pages, ids[k])
  {
    hide Gapped;
    var all := trace + [next];
    assert forall j :: 0 <= j <= k ==> all[j] == trace[j];
    if NoneGapped(all, ids, k + 1) {
      assert !Gapped(all[k].pages, ids[k]);
      forall j | 0 <= j < k ensures !Gapped(trace[j].pages, ids[j]) {
        assert !Gapped(all[j].pages, ids[j]);
      }
    }
  }

  lemma NotAgain(ids: seq<nat>, k: nat)
    requires k < |ids| && forall i, j :: 0 <= i < j < |ids| ==> ids[i] < ids[j]
    ensures ids[k] !in IdSet(ids[..k])
  {
  }

  // ----- when the row-id map is lost --------------------------------------------------------

  /** No row id is carried by two live slots. */
  ghost predicate Unique(pages: PageTable)
  {
    forall a, b, r :: NamesLive(pages, a, r) && NamesLive(pages, b, r) ==> a == b
  }

  /** The row is live on the page it is mapped to, one of `done`, but in another slot. */
  ghost predicate Misnamed(pages: PageTable, rows: RowMap, done: set<nat>, r: nat, k: nat)
  {
    r in rows && rows[r].page in done && k != rows[r].slot && NamesLive(pages, Location(rows[r].page, k), r)
  }

  ghost predicate Lost(pages: PageTable, rows: RowMap, done: set<nat>)
  {
    Unique(pages) && exists r, k :: Misnamed(pages, rows, done, r, k)
  }

  /** What every step on page `id` leaves alone: the live slots of the other pages, and where
      the rows are mapped to that are not live on this page. */
  ghost predicate Undisturbed(pages: PageTable, rows: RowMap, after: PageTable, next: RowMap, id: nat)
  {
    && (Unique(pages) ==> Unique(after))
    && (forall loc: Location, r :: loc.page != id && NamesLive(pages, loc, r) ==> NamesLive(after, loc, r))
    && next.Keys == rows.Keys
    && (forall r :: r in rows ==> next[r] == rows[r] || LiveOn(pages, id, r))
  }

  ghost predicate LiveOn(pages: PageTable, id: nat, r: nat)
  {
    exists s :: NamesLive(pages, Location(id, s), r)
  }

  lemma NothingDisturbed(pages: PageTable, rows: RowMap, id: nat)
    ensures Undisturbed(pages, rows, pages, rows, id)
  {
  }

  lemma LostIsUnsound(pages: PageTable, rows: RowMap, done: set<nat>)
    ensures Lost(pages, rows, done) ==> !MapSound(pages, rows) && !MapExact(pages, rows)
  {
    hide NamesLive;
    if Lost(pages, rows, done) {
      var r, k :| Misnamed(pages, rows, done, r, k);
      assert !NamesLive(pages, rows[r], r);
    }
  }

  lemma LostGrows(pages: PageTable, rows: RowMap, done: set<nat>, more: set<nat>)
    requires done <= more
    ensures Lost(pages, rows, done) ==> Lost(pages, rows, more)
  {
    hide NamesLive;
    if Lost(pages, rows, done) {
      var r, k :| Misnamed(pages, rows, done, r, k);
      assert Misnamed(pages, rows, more, r, k);
    }
  }

  lemma NotLiveElsewhere(pages: PageTable, id: nat, loc: Location, r: nat)
    requires Unique(pages) && NamesLive(pages, loc, r) && loc.page != id
    ensures !LiveOn(pages, id, r)
  {
  }

  /** A row misnamed on a page already passed stays misnamed. */
  lemma LostStays(pages: PageTable, rows: RowMap, after: PageTable, next: RowMap, id: nat, done: set<nat>)
    requires Undisturbed(pages, rows, after, next, id) && id !in done
    ensures Lost(pages, rows, done) ==> Lost(after, next, done)
  {
    hide NamesLive;
    if Lost(pages, rows, done) {
      var r, k :| Misnamed(pages, rows, done, r, k);
      var loc := Location(rows[r].page, k);
      NotLiveElsewhere(pages, id, loc, r);
      assert next[r] == rows[r] && NamesLive(after, loc, r);
      assert Misnamed(after, next, done, r, k);
    }
  }

  lemma UniqueMoved(pages: PageTable, after: PageTable, back: Location -> Location)
    requires forall loc, r :: NamesLive(after, loc, r) ==> NamesLive(pages, back(loc), r)
    requires forall a, b, r :: NamesLive(after, a, r) && NamesLive(after, b, r) && back(a) == back(b) ==> a == b
    ensures Unique(pages) ==> Unique(after)
  {
    hide NamesLive;
    if Unique(pages) {
      forall a, b, r | NamesLive(after, a, r) && NamesLive(after, b, r) ensures a == b {
        assert NamesLive(pages, back(a), r) && NamesLive(pages, back(b), r);
      }
    }
  }

  lemma ExactIsUnique(pages: PageTable, rows: RowMap)
    requires MapExact(pages, rows)
    ensures Unique(pages)
  {
    hide NamesLive;
  }

  lemma NextStep(schema: seq<Column>, trace: seq<Space>, ids: seq<nat>, k: nat, next: Space)
    requires k < |ids| && IsPass(schema, trace, ids, k) && Step(schema, trace[k], ids[k], next)
    ensures IsPass(schema, trace + [next], ids, k + 1)
    ensures OpsIn(trace + [next], ids, k + 1)
            == OpsIn(trace, ids, k) + if NeedOf(trace[k].pages, ids[k]).Nothing? then 0 else 1
  {
    hide Step, NeedOf;
    SameOps(trace, next, ids, k);
  }

  lemma {:induction false} SameOps(trace: seq<Space>, next: Space, ids: seq<nat>, k: nat)
    requires k <= |ids| && k < |trace|
    ensures OpsIn(trace + [next], ids, k) == OpsIn(trace, ids, k)
  {
    if k > 0 {
      SameOps(trace, next, ids, k - 1);
    }
  }

  lemma GoodParts(schema: seq<Column>, pages: PageTable, freeIds: seq<nat>, highWater: nat, space: map<nat, nat>,
          rows: RowMap, next: nat)
    requires Good(schema, pages, freeIds, highWater, space, rows, next)
    ensures |schema| > 0 && |pages| == highWater && FreeOk(pages, freeIds) && GoodPages(schema, pages)
    ensures SpaceOk(pages, space) && IdsBelow(pages, next) && forall r :: r in rows ==> r < next
  {
  }

  lemma NonEmptySchema(schema: seq<Column>, pages: PageTable, freeIds: seq<nat>, highWater: nat, space: map<nat, nat>,
          rows: RowMap, next: nat)
    requires Good(schema, pages, freeIds, highWater, space, rows, next)
    ensures |schema| > 0
  {
  }

  lemma HigherNext(schema: seq<Column>, pages: PageTable, freeIds: seq<nat>, highWater: nat, space: map<nat, nat>,
          rows: RowMap, next0: nat, next: nat)
    requires Good(schema, pages, freeIds, highWater, space, rows, next0) && next0 <= next
    ensures Good(schema, pages, freeIds, highWater, space, rows, next)
  {
    forall id | 0 <= id < |pages| && IsData(pages, id) ensures SlotsBelow(pages[id].value, next) {
      assert SlotsBelow(pages[id].value, next0);
    }
  }

  lemma DataPage(schema: seq<Column>, pages: PageTable, id: nat)
    requires GoodPages(schema, pages) && IsData(pages, id)
    ensures GoodPage(schema, pages[id].value) && pages[id].value.body.Some? && pages[id].value.slots.Some?
    ensures |pages[id].value.body.value| == |schema|
  {
  }

  /** A page replaced, with new free space. */
  lemma ReplacedGood(schema: seq<Column>, pages: PageTable, freeIds: seq<nat>, highWater: nat, space: map<nat, nat>,
          rows: RowMap, id: nat, q: Page, x: nat, next: nat)
    requires |schema| > 0 && |pages| == highWater && FreeOk(pages, freeIds) && SpaceOk(pages, space) && forall r ::
             r in rows ==> r < next
    requires IsData(pages, id) && q.kind.Data? && GoodPages(schema, pages[id := Some(q)])
             && IdsBelow(pages[id := Some(q)], next)
    ensures Good(schema, pages[id := Some(q)], freeIds, highWater, space[id := x], rows, next)
    ensures Good(schema, pages[id := Some(q)], freeIds, highWater, space, rows, next)
  {
    FreeUpdate(pages, freeIds, id, q);
    SpaceUpdate(pages, space, id, q, x);
  }

  lemma MappedGood(schema: seq<Column>, pages: PageTable, freeIds: seq<nat>, highWater: nat, space: map<nat, nat>,
          rows: RowMap, next: nat, r: nat, loc: Location)
    requires Good(schema, pages, freeIds, highWater, space, rows, next) && r < next
    ensures Good(schema, pages, freeIds, highWater, space, rows[r := loc], next)
  {
  }

  lemma RemappedGood(schema: seq<Column>, pages: PageTable, freeIds: seq<nat>, highWater: nat, space: map<nat, nat>,
          rows: RowMap, rows': RowMap, next: nat)
    requires Good(schema, pages, freeIds, highWater, space, rows, next) && rows'.Keys <= rows.Keys
    ensures Good(schema, pages, freeIds, highWater, space, rows', next)
  {
  }

  // ----- cells by row id ------------------------------------------------------------------

  ghost function CellAt(pages: PageTable, loc: Location, col: nat): Value
  {
    if IsData(pages, loc.page) && pages[loc.page].value.body.Some? && col < |pages[loc.page].value.body.value|
       && loc.slot < |CellsOf(pages[loc.page].value.body.value[col])|
    then CellsOf(pages[loc.page].value.body.value[col])[loc.slot] else Null
  }

  lemma MappedCell(schema: seq<Column>, pages: PageTable, rows: RowMap, r: nat, col: nat)
    requires GoodPages(schema, pages) && MapSound(pages, rows) && r in rows && col < |schema|
    ensures IsData(pages, rows[r].page) && pages[rows[r].page].value.body.Some?
            && col < |pages[rows[r].page].value.body.value|
    ensures var cells := CellsOf(pages[rows[r].page].value.body.value[col]);
            rows[r].slot < |cells| && CellAt(pages, rows[r], col) == cells[rows[r].slot]
  {
    assert NamesLive(pages, rows[r], r);
    assert GoodPage(schema, pages[rows[r].page].value);
  }

  // ----- inserting ----------------------------------------------------------------------------

  function Larger(a: nat, b: nat): nat { if a > b then a else b }

  function RowIdFor(values: seq<Value>, next: nat): nat
  {
    if |values| > 0 && values[0].Int? && values[0].i > 0 then values[0].i else next
  }

  /** RLE columns get values of their kind (src/rle.rs, lines 41-68 writes a null as an
      8-byte value whatever the kind); the first column gets the row id. */
  predicate RleTyped(schema: seq<Column>, values: seq<Value>)
  {
    |values| == |schema| && forall c :: 0 <= c < |schema| && schema[c].encoding.Rle? ==>
      (if c == 0 then schema[c].kind.IntKind? else KindMatches(schema[c].kind, values[c]))
  }

  function RowWidth(schema: seq<Column>): nat
  {
    if schema == [] then 0 else RowWidth(schema[..|schema| - 1]) + CellWidth(schema[|schema| - 1].kind)
  }

  function KeptRow(schema: seq<Column>, cells: seq<Value>, rowId: nat): Row
    requires |cells| == |schema|
  {
    Row(rowId, seq(|schema|, c requires 0 <= c < |schema| => Kept(schema[c], cells[c])))
  }

  /** The row as stored: its id in the first column, every value as its column keeps it. */
  function NewRow(schema: seq<Column>, values: seq<Value>, rowId: nat): Row
    requires |values| == |schema| > 0 && rowId <= I64_MAX
  {
    KeptRow(schema, values[0 := Int(rowId)], rowId)
  }

  /** The row reads as it was given, wherever the values are of their columns' kinds, but for its id. */
  lemma NewRowReads(schema: seq<Column>, values: seq<Value>, rowId: nat)
    requires |values| == |schema| > 0 && rowId <= I64_MAX
    ensures var row := NewRow(schema, values, rowId);
            && row.id == rowId && |row.values| == |schema|
            && (schema[0].kind.IntKind? ==> row.values[0] == Int(rowId))
            && forall c :: 0 < c < |schema| && KindMatches(schema[c].kind, values[c]) ==> row.values[c] == values[c]
  {
  }

  ghost predicate Appendable(schema: seq<Column>, p: Page)
  {
    p.kind.Data? && (GoodPage(schema, p) || (p.body.None? && p.slots.None?))
  }

  /** A data page just allocated. */
  function Blank(): Page { Page(Data, None, None) }

  lemma TypedCells(schema: seq<Column>, values: seq<Value>, rowId: nat)
    requires RleTyped(schema, values) && |schema| > 0 && rowId <= I64_MAX
    ensures RleTyped(schema, values[0 := Int(rowId)])
  {
  }

  lemma SpacePage(schema: seq<Column>, pages: PageTable, space: map<nat, nat>, id: nat)
    requires GoodPages(schema, pages) && SpaceOk(pages, space) && id in space
    ensures IsData(pages, id) && Appendable(schema, pages[id].value)
            && GoodPage(schema, BaseOf(schema, pages[id].value))
  {
  }

  lemma PlacedBlank(schema: seq<Column>, pages: PageTable, space: map<nat, nat>, id: nat)
    requires SpaceOk(pages, space) && id <= |pages| && (id < |pages| ==> pages[id].None?)
    ensures var before := Placed(pages, id, Blank());
            IsData(before, id) && Appendable(schema, before[id].value)
              && GoodPage(schema, BaseOf(schema, before[id].value))
            && Bag(before) == Bag(pages) && SpaceOk(before, space[id := PAGE_DATA_CAPACITY])
  {
    PlacedBag(pages, id, Blank());
    BaseGood(schema, Blank());
    SpacePlaced(pages, space, id, Blank(), PAGE_DATA_CAPACITY);
  }

  /** A page without a body counts as one with no rows. */
  function BaseOf(schema: seq<Column>, p: Page): Page
  {
    if p.body.None? then Page(Data, Some(FreshBody(schema)), Some([])) else p
  }

  lemma BaseGood(schema: seq<Column>, p: Page)
    requires Appendable(schema, p)
    ensures GoodPage(schema, BaseOf(schema, p)) && PageRows(BaseOf(schema, p)) == PageRows(p)
  {
  }

  ghost predicate AppendedTo(schema: seq<Column>, base: Page, rowId: nat, cells: seq<Value>, p: Page)
    requires GoodPage(schema, base) && |cells| == |schema|
  {
    && GoodPage(schema, p)
      && p.slots.value == base.slots.value + [Slot(rowId, |base.slots.value|, RowWidth(schema), true)]
    && forall c :: 0 <= c < |schema| ==>
      CellsOf(p.body.value[c]) == CellsOf(base.body.value[c]) + [Kept(schema[c], cells[c])]
  }

  /** The page a row of a width goes to: the first of those with most room, or a new one if
      none has enough. */
  ghost predicate PageChosen(pages: PageTable, freeIds: seq<nat>, space: map<nat, nat>, need: nat, id: nat,
          after: PageTable, left: map<nat, nat>)
  {
    if exists other :: other in space && space[other] >= need then
      && id in space && space[id] >= need && after == pages && left == space
      && (forall other :: other in space ==> space[other] <= space[id])
      && (forall other :: other in space && other < id ==> space[other] < space[id])
    else
      && id == NextId(pages, freeIds) <= |pages|
      && after == Placed(pages, id, Blank()) && left == space[id := PAGE_DATA_CAPACITY]
  }

  function NeedFor(schema: seq<Column>): nat { if RowWidth(schema) > 1 then RowWidth(schema) else 1 }

  /** An inserted row stands at the end of the page chosen for it, which is where the row-id
      map says, and the page's free space has shrunk by its width. */
  ghost predicate RowPlaced(schema: seq<Column>, pages: PageTable, freeIds: seq<nat>, space: map<nat, nat>,
          values: seq<Value>, rowId: nat, after: PageTable, left: map<nat, nat>, loc: Location)
    requires |values| == |schema| && rowId <= I64_MAX
  {
    exists before: PageTable, room: map<nat, nat> ::
      && PageChosen(pages, freeIds, space, NeedFor(schema), loc.page, before, room)
      && RowAppended(schema, before, after, loc, rowId, values)
      && loc.page in room
      && left == room[loc.page := if room[loc.page] > NeedFor(schema) then room[loc.page] - NeedFor(schema) else 0]
  }

  ghost predicate RowAppended(schema: seq<Column>, before: PageTable, after: PageTable, loc: Location, rowId: nat,
          values: seq<Value>)
    requires |values| == |schema| && rowId <= I64_MAX
  {
    && |values| > 0 && IsData(before, loc.page) && GoodPage(schema, BaseOf(schema, before[loc.page].value))
    && IsData(after, loc.page) && after == before[loc.page := after[loc.page]]
    && AppendedTo(schema, BaseOf(schema, before[loc.page].value), rowId, values[0 := Int(rowId)], after[loc.page].value)
    && loc.slot == |after[loc.page].value.slots.value| - 1
  }

  lemma PlacedSo(schema: seq<Column>, pages: PageTable, freeIds: seq<nat>, space: map<nat, nat>, values: seq<Value>,
          rowId: nat, id: nat, before: PageTable, room: map<nat, nat>, p: Page)
    requires |values| == |schema| > 0 && rowId <= I64_MAX
             && PageChosen(pages, freeIds, space, NeedFor(schema), id, before, room) && id in room
    requires IsData(before, id) && GoodPage(schema, BaseOf(schema, before[id].value)) && p.kind.Data?
    requires AppendedTo(schema, BaseOf(schema, before[id].value), rowId, values[0 := Int(rowId)], p)
    ensures var need := NeedFor(schema);
            p.slots.Some? && |p.slots.value| > 0
            && RowPlaced(schema, pages, freeIds, space, values, rowId, before[id := Some(p)],
              room[id := if room[id] > need then room[id] - need else 0],
                         Location(id, |p.slots.value| - 1))
  {
    hide PageChosen, BaseOf;
    var after, loc := before[id := Some(p)], Location(id, |p.slots.value| - 1);
    assert RowAppended(schema, before, after, loc, rowId, values);
  }

  lemma AppendedRows(schema: seq<Column>, base: Page, rowId: nat, cells: seq<Value>, p: Page)
    requires GoodPage(schema, base) && |cells| == |schema| && AppendedTo(schema, base, rowId, cells, p)
    ensures PageRows(p) == PageRows(base) + [KeptRow(schema, cells, rowId)]
  {
    var n := |base.slots.value|;
    forall i | 0 <= i < n ensures p.slots.value[i].live == base.slots.value[i].live && RowAt(p, i) == RowAt(base, i) {
      assert RowAt(p, i).values == RowAt(base, i).values;
    }
    PrefixRows(base, p, n);
    assert RowAt(p, n).values == KeptRow(schema, cells, rowId).values;
  }

  lemma InsertBag(schema: seq<Column>, before: PageTable, id: nat, rowId: nat, cells: seq<Value>, p: Page)
    requires IsData(before, id) && Appendable(schema, before[id].value) && |cells| == |schema|
    requires GoodPage(schema, BaseOf(schema, before[id].value))
             && AppendedTo(schema, BaseOf(schema, before[id].value), rowId, cells, p)
    ensures Bag(before[id := Some(p)]) == Bag(before) + multiset{KeptRow(schema, cells, rowId)}
  {
    hide GoodPage, AppendedTo, PageRows, KeptRow;
    var base := BaseOf(schema, before[id].value);
    BaseGood(schema, before[id].value);
    AppendedRows(schema, base, rowId, cells, p);
    BagUpdate(before, id, Some(p));
    var row := KeptRow(schema, cells, rowId);
    assert multiset(PageRows(base) + [row]) == multiset(PageRows(base)) + multiset{row};
    Cancel(Bag(before[id := Some(p)]), Bag(before), multiset(PageRows(base)), multiset{row});
  }

  lemma InsertKeeps(schema: seq<Column>, pages: PageTable, before: PageTable, id: nat, rowId: nat, cells: seq<Value>,
          p: Page, next0: nat, next: nat)
    requires GoodPages(schema, pages) && IdsBelow(pages, next0) && next0 <= next && rowId < next
    requires before == pages || (id <= |pages| && (id < |pages| ==> pages[id].None?)
             && before == Placed(pages, id, Blank()))
    requires IsData(before, id) && Appendable(schema, before[id].value) && |cells| == |schema|
    requires GoodPage(schema, BaseOf(schema, before[id].value))
             && AppendedTo(schema, BaseOf(schema, before[id].value), rowId, cells, p)
    ensures GoodPages(schema, before[id := Some(p)]) && IdsBelow(before[id := Some(p)], next)
  {
    hide GoodPage;
    var after := before[id := Some(p)];
    assert GoodPage(schema, p);
    AppendedBelow(schema, before[id].value, rowId, cells, p, next);
    forall j | 0 <= j < |after| && IsData(after, j)
      ensures GoodPage(schema, after[j].value) && SlotsBelow(after[j].value, next)
    {
      if j != id {
        assert j < |pages| && after[j] == pages[j] && IsData(pages, j);
        assert SlotsBelow(pages[j].value, next0);
      }
    }
  }

  lemma AppendedBelow(schema: seq<Column>, p0: Page, rowId: nat, cells: seq<Value>, p: Page, next: nat)
    requires Appendable(schema, p0) && |cells| == |schema| && rowId < next && SlotsBelow(p0, next)
    requires GoodPage(schema, BaseOf(schema, p0)) && AppendedTo(schema, BaseOf(schema, p0), rowId, cells, p)
    ensures SlotsBelow(p, next)
  {
  }

  /** The live slots after an append: those before, and the new one. */
  lemma LiveAfterAppend(schema: seq<Column>, pages: PageTable, before: PageTable, id: nat, rowId: nat,
          cells: seq<Value>, p: Page, loc: Location, r: nat)
    requires before == pages || (id <= |pages| && (id < |pages| ==> pages[id].None?)
             && before == Placed(pages, id, Blank()))
    requires IsData(before, id) && Appendable(schema, before[id].value) && |cells| == |schema|
    requires GoodPage(schema, BaseOf(schema, before[id].value))
             && AppendedTo(schema, BaseOf(schema, before[id].value), rowId, cells, p)
    ensures NamesLive(before[id := Some(p)], loc, r) <==>
            NamesLive(pages, loc, r) || (loc == Location(id, |p.slots.value| - 1) && r == rowId)
  {
  }

  /** Appending a row under its id keeps the map sound, and exact just when the id is new. */
  lemma InsertMap(schema: seq<Column>, pages: PageTable, before: PageTable, rows: RowMap, id: nat, rowId: nat,
          cells: seq<Value>, p: Page)
    requires before == pages || (id <= |pages| && (id < |pages| ==> pages[id].None?)
             && before == Placed(pages, id, Blank()))
    requires IsData(before, id) && Appendable(schema, before[id].value) && |cells| == |schema|
    requires GoodPage(schema, BaseOf(schema, before[id].value))
             && AppendedTo(schema, BaseOf(schema, before[id].value), rowId, cells, p)
    ensures var after, next := before[id := Some(p)], rows[rowId := Location(id, |p.slots.value| - 1)];
            (MapSound(pages, rows) ==> MapSound(after, next))
              && (MapExact(pages, rows) ==> (MapExact(after, next) <==> rowId !in rows))
  {
    var after, spot := before[id := Some(p)], Location(id, |p.slots.value| - 1);
    var next := rows[rowId := spot];
    forall loc, r ensures NamesLive(after, loc, r) <==> NamesLive(pages, loc, r) || (loc == spot && r == rowId) {
      LiveAfterAppend(schema, pages, before, id, rowId, cells, p, loc, r);
    }
    NewSlot(schema, pages, before, id, rowId, cells, p, spot);
    hide *;
    AppendedMap(pages, after, rows, rowId, spot);
  }

  lemma NewSlot(schema: seq<Column>, pages: PageTable, before: PageTable, id: nat, rowId: nat, cells: seq<Value>,
          p: Page, spot: Location)
    requires before == pages || (id <= |pages| && (id < |pages| ==> pages[id].None?)
             && before == Placed(pages, id, Blank()))
    requires IsData(before, id) && Appendable(schema, before[id].value) && |cells| == |schema|
    requires GoodPage(schema, BaseOf(schema, before[id].value))
             && AppendedTo(schema, BaseOf(schema, before[id].value), rowId, cells, p)
    requires spot == Location(id, |p.slots.value| - 1)
    ensures forall r :: !NamesLive(pages, spot, r)
  {
  }

  lemma AppendedMap(pages: PageTable, after: PageTable, rows: RowMap, rowId: nat, spot: Location)
    requires forall loc, r :: NamesLive(after, loc, r) <==> NamesLive(pages, loc, r) || (loc == spot && r == rowId)
    requires forall r :: !NamesLive(pages, spot, r)
    ensures MapSound(pages, rows) ==> MapSound(after, rows[rowId := spot])
    ensures MapExact(pages, rows) ==> (MapExact(after, rows[rowId := spot]) <==> rowId !in rows)
  {
    hide NamesLive;
    if MapExact(pages, rows) && rowId in rows {
      assert NamesLive(pages, rows[rowId], rowId);
      assert NamesLive(after, rows[rowId], rowId);
    }
  }

  /** A row numbered by the database is new to the map. */
  lemma AutoIdIsNew(values: seq<Value>, rows: RowMap, next: nat)
    requires forall r :: r in rows ==> r < next
    ensures RowIdFor(values, next) in rows ==> |values| > 0 && values[0].Int? && 0 < values[0].i < next
  {
  }

  // ----- deleting --------------------------------------------------------------------------------

  ghost function IdSet(ids: seq<nat>): set<nat>
  {
    set k | 0 <= k < |ids| :: ids[k]
  }

  lemma IdSetStep(ids: seq<nat>, k: nat)
    requires k <= |ids|
    ensures k == 0 ==> IdSet(ids[..k]) == {}
    ensures k < |ids| ==> IdSet(ids[..k + 1]) == IdSet(ids[..k]) + {ids[k]}
  {
    if k < |ids| {
      forall r | r in IdSet(ids[..k + 1]) ensures r in IdSet(ids[..k]) + {ids[k]} {
        var j :| 0 <= j < k + 1 && ids[..k + 1][j] == r;
        assert j < k ==> ids[..k][j] == r;
      }
      forall r | r in IdSet(ids[..k]) ensures r in IdSet(ids[..k + 1]) {
        var j :| 0 <= j < k && ids[..k][j] == r;
        assert ids[..k + 1][j] == r;
      }
      assert ids[..k + 1][k] in IdSet(ids[..k + 1]);
    }
  }

  /** The ids of `gone` are no longer mapped, and the rows that left the bag were theirs. */
  ghost predicate Deleted(all: RowMap, rows: RowMap, bag: multiset<Row>, left: multiset<Row>, gone: set<nat>,
          exact: bool)
  {
    && rows == all - gone && SubBag(left, bag)
    && (exact ==> RowsWithout(bag, left, all.Keys - rows.Keys))
  }

  lemma NoneDeleted(all: RowMap, bag: multiset<Row>, exact: bool)
    ensures Deleted(all, all, bag, bag, {}, exact)
  {
    WithoutNone(bag);
    assert all.Keys - all.Keys == {};
  }

  lemma OneDeleted(all: RowMap, rows: RowMap, bag: multiset<Row>, left: multiset<Row>, next: multiset<Row>,
          gone: set<nat>, r: nat, exact: bool)
    requires Deleted(all, rows, bag, left, gone, exact) && r in rows && SubBag(next, left)
             && (exact ==> RowsWithout(left, next, {r}))
    ensures Deleted(all, rows - {r}, bag, next, gone + {r}, exact)
  {
    SubBagTrans(next, left, bag);
    assert all.Keys - (rows - {r}).Keys == (all.Keys - rows.Keys) + {r};
    if exact {
      WithoutMore(bag, left, next, all.Keys - rows.Keys, r);
    }
    hide SubBag, RowsWithout;
  }

  lemma AlreadyDeleted(all: RowMap, rows: RowMap, bag: multiset<Row>, left: multiset<Row>, gone: set<nat>, r: nat,
          exact: bool)
    requires Deleted(all, rows, bag, left, gone, exact) && r !in rows
    ensures Deleted(all, rows, bag, left, gone + {r}, exact)
  {
    hide SubBag, RowsWithout;
  }

  lemma AllDeleted(all: RowMap, rows: RowMap, bag: multiset<Row>, left: multiset<Row>, gone: set<nat>, exact: bool)
    requires Deleted(all, rows, bag, left, gone, exact)
    ensures rows == all - gone && rows.Keys == all.Keys - gone && SubBag(left, bag)
    ensures exact ==> RowsWithout(bag, left, all.Keys - rows.Keys)
  {
  }

  lemma LiveParts(pages: PageTable, loc: Location, r: nat)
    requires NamesLive(pages, loc, r)
    ensures IsData(pages, loc.page) && pages[loc.page].value.slots.Some?
            && loc.slot < |pages[loc.page].value.slots.value|
  {
  }

  lemma FewerKeys(rows: RowMap, r: nat)
    requires r in rows
    ensures |rows - {r}| == |rows| - 1
  {
    assert (rows - {r}).Keys == rows.Keys - {r};
    assert |(rows - {r}).Keys| == |rows - {r}| && |rows.Keys| == |rows|;
  }

  function Tombstoned(pages: PageTable, loc: Location): PageTable
    requires IsData(pages, loc.page) && pages[loc.page].value.slots.Some?
             && loc.slot < |pages[loc.page].value.slots.value|
  {
    pages[loc.page := Some(DeadAt(pages[loc.page].value, loc.slot))]
  }

  function DeadAt(p: Page, i: nat): Page
    requires p.slots.Some? && i < |p.slots.value|
  {
    p.(slots := Some(p.slots.value[i := p.slots.value[i].(live := false)]))
  }

  lemma DeadRow(p: Page, q: Page, i: nat, k: nat)
    requires p.body.Some? && p.slots.Some? && i < |p.slots.value| && q == DeadAt(p, i) && k < |p.slots.value|
    ensures RowAt(q, k) == RowAt(p, k) && (q.slots.value[k].live <==> p.slots.value[k].live && k != i)
  {
  }

  lemma {:induction false} DeadRows(p: Page, q: Page, i: nat, n: nat)
    requires p.body.Some? && p.slots.Some? && q.body.Some? && q.slots.Some? && |q.slots.value| == |p.slots.value|
    requires i < |p.slots.value| && q == DeadAt(p, i) && p.slots.value[i].live && n <= |p.slots.value|
    ensures n <= i ==> RowsUpTo(p, n) == RowsUpTo(q, n)
    ensures i < n ==> multiset(RowsUpTo(p, n)) == multiset(RowsUpTo(q, n)) + multiset{RowAt(p, i)}
  {
    hide RowAt, DeadAt, RowsUpTo;
    RowsStep(p, n);
    RowsStep(q, n);
    if n > 0 {
      DeadRows(p, q, i, n - 1);
      DeadRow(p, q, i, n - 1);
      var a, b := RowsUpTo(p, n - 1), RowsUpTo(q, n - 1);
      if n - 1 == i {
        BothSnoc(a, b, RowAt(p, i), [RowAt(p, i)]);
      } else if p.slots.value[n - 1].live {
        BothSnoc(a, b, RowAt(p, i), [RowAt(p, n - 1)]);
      }
    }
  }

  lemma RowsStep(p: Page, n: nat)
    requires p.body.Some? && p.slots.Some? && n <= |p.slots.value|
    ensures n == 0 ==> RowsUpTo(p, n) == []
    ensures n > 0 && p.slots.value[n - 1].live ==> RowsUpTo(p, n) == RowsUpTo(p, n - 1) + [RowAt(p, n - 1)]
    ensures n > 0 && !p.slots.value[n - 1].live ==> RowsUpTo(p, n) == RowsUpTo(p, n - 1)
  {
  }

  lemma BothSnoc(a: seq<Row>, b: seq<Row>, row: Row, more: seq<Row>)
    ensures multiset(a) == multiset(b) + multiset{row} ==> multiset(a + more) == multiset(b + more) + multiset{row}
    ensures a == b && more == [row] ==> multiset(a + more) == multiset(b) + multiset{row}
  {
    assert multiset(a + more) == multiset(a) + multiset(more);
    assert multiset(b + more) == multiset(b) + multiset(more);
  }

  lemma TombstoneBag(schema: seq<Column>, pages: PageTable, loc: Location, r: nat)
    requires GoodPages(schema, pages) && NamesLive(pages, loc, r)
    ensures Bag(Tombstoned(pages, loc)) + multiset{RowAt(pages[loc.page].value, loc.slot)} == Bag(pages)
  {
    PageOfLive(schema, pages, loc, r);
    hide RowAt, GoodPage, RowsUpTo, GoodPages;
    var p := pages[loc.page].value;
    var dead, row := DeadAt(p, loc.slot), RowAt(p, loc.slot);
    DeadRows(p, dead, loc.slot, |p.slots.value|);
    BagUpdate(pages, loc.page, Some(dead));
    hide Bag, PageRows;
    Cancel(Bag(pages), Bag(pages[loc.page := Some(dead)]), multiset(PageRows(dead)), multiset{row});
  }

  lemma PageOfLive(schema: seq<Column>, pages: PageTable, loc: Location, r: nat)
    requires GoodPages(schema, pages) && NamesLive(pages, loc, r)
    ensures GoodPage(schema, pages[loc.page].value) && pages[loc.page].value.body.Some?
    ensures GoodPage(schema, DeadAt(pages[loc.page].value, loc.slot))
  {
  }

  /** Tombstoning a mapped row and unmapping it keeps everything in order. */
  lemma TombstoneKeeps(schema: seq<Column>, pages: PageTable, rows: RowMap, r: nat, next: nat)
    requires GoodPages(schema, pages) && IdsBelow(pages, next) && MapSound(pages, rows) && r in rows
    ensures NamesLive(pages, rows[r], r)
    ensures GoodPages(schema, Tombstoned(pages, rows[r])) && IdsBelow(Tombstoned(pages, rows[r]), next)
    ensures MapSound(Tombstoned(pages, rows[r]), rows - {r})
    ensures SubBag(Bag(Tombstoned(pages, rows[r])), Bag(pages))
  {
    var loc := rows[r];
    assert NamesLive(pages, loc, r);
    PageOfLive(schema, pages, loc, r);
    TombstoneBag(schema, pages, loc, r);
    ReplaceKeeps(schema, pages, loc.page, DeadAt(pages[loc.page].value, loc.slot), next);
    TombstoneMap(pages, rows, r);
    hide GoodPage, GoodPages, IdsBelow, MapSound, Bag, RowAt;
  }

  lemma TombstoneGood(schema: seq<Column>, pages: PageTable, freeIds: seq<nat>, highWater: nat, space: map<nat, nat>,
          rows: RowMap, next: nat, r: nat)
    requires Good(schema, pages, freeIds, highWater, space, rows, next) && MapSound(pages, rows) && r in rows
    requires NamesLive(pages, rows[r], r) && GoodPages(schema, Tombstoned(pages, rows[r]))
             && IdsBelow(Tombstoned(pages, rows[r]), next)
    ensures Good(schema, Tombstoned(pages, rows[r]), freeIds, highWater, space, rows - {r}, next)
  {
    hide GoodPages, IdsBelow;
    FreeUpdate(pages, freeIds, rows[r].page, DeadAt(pages[rows[r].page].value, rows[r].slot));
    SpaceUpdate(pages, space, rows[r].page, DeadAt(pages[rows[r].page].value, rows[r].slot), 0);
  }

  lemma TombstoneMap(pages: PageTable, rows: RowMap, r: nat)
    requires MapSound(pages, rows) && r in rows && NamesLive(pages, rows[r], r)
    ensures MapSound(Tombstoned(pages, rows[r]), rows - {r})
  {
    forall q | q in rows - {r} ensures NamesLive(Tombstoned(pages, rows[r]), (rows - {r})[q], q) {
      assert NamesLive(pages, rows[q], q);
    }
  }

  /** Rows other than those under the ids, as often as before, and none of those. */
  ghost predicate RowsWithout(all: multiset<Row>, left: multiset<Row>, ids: set<nat>)
  {
    forall row: Row :: left[row] == if row.id in ids then 0 else all[row]
  }

  /** No row occurs more often. */
  ghost predicate SubBag(a: multiset<Row>, b: multiset<Row>)
  {
    a <= b
  }

  lemma SubBagTrans(a: multiset<Row>, b: multiset<Row>, c: multiset<Row>)
    requires SubBag(a, b) && SubBag(b, c)
    ensures SubBag(a, c)
  {
  }

  lemma WithoutNone(all: multiset<Row>)
    ensures RowsWithout(all, all, {}) && SubBag(all, all)
  {
  }

  lemma WithoutMore(all: multiset<Row>, left: multiset<Row>, next: multiset<Row>, ids: set<nat>, r: nat)
    requires RowsWithout(all, left, ids) && RowsWithout(left, next, {r})
    ensures RowsWithout(all, next, ids + {r})
  {
    forall row: Row ensures next[row] == if row.id in ids + {r} then 0 else all[row] {
      assert next[row] == if row.id in {r} then 0 else left[row];
    }
  }

  /** A row of the bag is at some live slot. */
  lemma {:induction false} BagRowsLive(schema: seq<Column>, pages: PageTable, n: nat, row: Row) returns (loc: Location)
    requires GoodPages(schema, pages) && n <= |pages| && row in Bag(pages[..n])
    ensures NamesLive(pages, loc, row.id) && loc.page < n && RowAt(pages[loc.page].value, loc.slot) == row
  {
    assert n > 0;
    assert pages[..n][..n - 1] == pages[..n - 1];
    if row in Bag(pages[..n - 1]) {
      loc := BagRowsLive(schema, pages, n - 1, row);
    } else {
      var p := pages[n - 1];
      assert row in BagOf(p) && IsData(pages, n - 1) && GoodPage(schema, p.value);
      var i := ScannedRowLive(p.value, |p.value.slots.value|, row);
      loc := Location(n - 1, i);
    }
  }

  lemma {:induction false} ScannedRowLive(p: Page, n: nat, row: Row) returns (i: nat)
    requires p.body.Some? && p.slots.Some? && n <= |p.slots.value| && row in RowsUpTo(p, n)
    ensures i < n && p.slots.value[i].live && RowAt(p, i) == row
  {
    if p.slots.value[n - 1].live && RowAt(p, n - 1) == row {
      i := n - 1;
    } else {
      i := ScannedRowLive(p, n - 1, row);
    }
  }

  lemma TombstoneExact(schema: seq<Column>, pages: PageTable, rows: RowMap, r: nat)
    requires GoodPages(schema, pages) && MapExact(pages, rows) && r in rows && NamesLive(pages, rows[r], r)
    requires GoodPages(schema, Tombstoned(pages, rows[r])) && MapSound(Tombstoned(pages, rows[r]), rows - {r})
    ensures MapExact(Tombstoned(pages, rows[r]), rows - {r})
    ensures RowsWithout(Bag(pages), Bag(Tombstoned(pages, rows[r])), {r})
  {
    var loc, after := rows[r], Tombstoned(pages, rows[r]);
    forall l, q | NamesLive(after, l, q) ensures q in rows - {r} && (rows - {r})[q] == l {
      assert NamesLive(pages, l, q);
      assert l != loc;
    }
    TombstoneBag(schema, pages, loc, r);
    var gone := RowAt(pages[loc.page].value, loc.slot);
    forall row: Row ensures Bag(after)[row] == if row.id in {r} then 0 else Bag(pages)[row] {
      if row.id == r && row in Bag(after) {
        assert after[..|after|] == after;
        var l := BagRowsLive(schema, after, |after|, row);
      }
      assert row != gone ==> multiset{gone}[row] == 0;
    }
  }

  /** The collected ids are those of the rows that match. */
  lemma MatchesAre(schema: seq<Column>, pages: PageTable, rows: RowMap, col: nat, op: CmpOp, target: Value,
          ids: seq<nat>)
    requires GoodPages(schema, pages) && MapExact(pages, rows) && col < |schema|
    requires forall r :: r in ids <==> r in rows && Apply(op, CellAt(pages, rows[r], col), target)
    ensures forall row: Row :: row in Bag(pages) ==>
            row.id in rows && (row.id in IdSet(ids) <==> RowMatches(row, col, op, target))
  {
    forall row: Row | row in Bag(pages)
      ensures row.id in rows && (row.id in IdSet(ids) <==> RowMatches(row, col, op, target))
    {
      assert pages[..|pages|] == pages;
      var loc := BagRowsLive(schema, pages, |pages|, row);
      assert row.id in rows && rows[row.id] == loc;
      assert GoodPage(schema, pages[loc.page].value);
      assert row.values[col] == CellAt(pages, loc, col);
      assert row.id in IdSet(ids) <==> row.id in ids;
    }
  }

  lemma OnlyMatches(all: multiset<Row>, left: multiset<Row>, rows: RowMap, next: RowMap, ids: seq<nat>, col: nat,
          op: CmpOp, target: Value)
    requires forall row: Row :: row in all ==>
             row.id in rows && (row.id in IdSet(ids) <==> RowMatches(row, col, op, target))
    requires next.Keys == rows.Keys - IdSet(ids) && RowsWithout(all, left, rows.Keys - next.Keys)
    ensures forall row: Row {:trigger left[row]} ::
            left[row] == if RowMatches(row, col, op, target) then 0 else all[row]
  {
    hide RowMatches, IdSet;
    forall row: Row ensures left[row] == if RowMatches(row, col, op, target) then 0 else all[row] {
      assert left[row] == if row.id in rows.Keys - next.Keys then 0 else all[row];
      if row in all {
        assert row.id in rows;
      }
    }
  }

  // ----- updating -----------------------------------------------------------------------------------

  function KeptIn(schema: seq<Column>, col: nat, v: Value): Value
  {
    if col < |schema| then Kept(schema[col], v) else v
  }

  /** The rows a scan reads from one page. */
  ghost function RowsOn(pages: PageTable, id: nat): seq<Row>
  {
    if IsData(pages, id) then PageRows(pages[id].value) else []
  }

  ghost function Matching(pages: PageTable, rows: RowMap, col: nat, op: CmpOp, target: Value): set<nat>
  {
    set r | r in rows && Apply(op, CellAt(pages, rows[r], col), target)
  }

  lemma ExactIsSound(pages: PageTable, rows: RowMap)
    requires MapExact(pages, rows)
    ensures MapSound(pages, rows)
  {
  }

  lemma MatchingCount(pages: PageTable, rows: RowMap, col: nat, op: CmpOp, target: Value, ids: seq<nat>)
    requires forall r :: r in ids <==> r in rows && Apply(op, CellAt(pages, rows[r], col), target)
    requires forall j, k :: 0 <= j < k < |ids| ==> ids[j] < ids[k]
    ensures |ids| == |Matching(pages, rows, col, op, target)|
  {
    AscendingCount(ids);
    assert Matching(pages, rows, col, op, target) == IdSet(ids);
  }

  lemma {:induction false} AscendingCount(ids: seq<nat>)
    requires forall j, k :: 0 <= j < k < |ids| ==> ids[j] < ids[k]
    ensures |IdSet(ids)| == |ids|
  {
    var n := |ids| - 1;
    if n < 0 {
      assert IdSet(ids) == {};
    } else {
      AscendingCount(ids[..n]);
      IdSetStep(ids, n);
      assert ids[..n + 1] == ids;
      assert ids[n] !in IdSet(ids[..n]);
    }
  }

  lemma NothingSet(schema: seq<Column>, p: Page, slot: nat, col: nat, v: Value)
    requires GoodPage(schema, p) && col >= |schema|
    ensures CellSet(p, p, slot, col, KeptIn(schema, col, v))
  {
  }

  lemma SetKeeps(schema: seq<Column>, pages: PageTable, id: nat, q: Page, slot: nat, col: nat, w: Value, next: nat)
    requires GoodPages(schema, pages) && IdsBelow(pages, next) && IsData(pages, id) && pages[id].value.body.Some?
    requires GoodPage(schema, q) && CellSet(pages[id].value, q, slot, col, w)
    ensures q.kind.Data? && |schema| == |pages[id].value.body.value|
    ensures GoodPages(schema, pages[id := Some(q)]) && IdsBelow(pages[id := Some(q)], next)
  {
    assert SlotsBelow(pages[id].value, next);
    hide GoodPage;
    ReplaceKeeps(schema, pages, id, q, next);
  }

  /** The slots of a page at which the rows of the ids are. */
  ghost function HitsOn(rows: RowMap, ids: set<nat>, id: nat): set<nat>
  {
    set r | r in ids && r in rows && rows[r].page == id :: rows[r].slot
  }

  /** The rows of the ids have had their cell rewritten. */
  ghost predicate UpdatedSoFar(schema: seq<Column>, before: PageTable, pages: PageTable, rows: RowMap, ids: set<nat>,
          col: nat, w: Value)
  {
    && |pages| == |before|
    && forall id: nat :: id < |pages| ==>
      if IsData(before, id) then IsData(pages, id)
        && Rewritten(before[id].value, pages[id].value, HitsOn(rows, ids, id), col, w)
      else pages[id] == before[id]
  }

  lemma StartUpdating(schema: seq<Column>, pages: PageTable, rows: RowMap, ids: seq<nat>, col: nat, w: Value)
    requires GoodPages(schema, pages)
    ensures UpdatedSoFar(schema, pages, pages, rows, IdSet(ids[..0]), col, w)
  {
    forall id: nat | id < |pages| && IsData(pages, id)
      ensures Rewritten(pages[id].value, pages[id].value, HitsOn(rows, IdSet(ids[..0]), id), col, w)
    {
      assert GoodPage(schema, pages[id].value);
      NoneRewritten(pages[id].value, col, w);
      assert HitsOn(rows, IdSet(ids[..0]), id) == {};
    }
  }

  lemma MappedPage(schema: seq<Column>, before: PageTable, pages: PageTable, rows: RowMap, ids: set<nat>, r: nat,
          col: nat, w: Value)
    requires MapSound(before, rows) && r in rows && UpdatedSoFar(schema, before, pages, rows, ids, col, w)
    ensures IsData(before, rows[r].page) && IsData(pages, rows[r].page)
  {
    assert NamesLive(before, rows[r], r);
  }

  lemma UpdatedOne(schema: seq<Column>, before: PageTable, pages: PageTable, after: PageTable, rows: RowMap,
          ids: set<nat>, r: nat, col: nat, w: Value, q: Page)
    requires UpdatedSoFar(schema, before, pages, rows, ids, col, w) && r in rows
    requires IsData(before, rows[r].page) && IsData(pages, rows[r].page) && pages[rows[r].page].value.body.Some?
    requires CellSet(pages[rows[r].page].value, q, rows[r].slot, col, w) && after == pages[rows[r].page := Some(q)]
    ensures UpdatedSoFar(schema, before, after, rows, ids + {r}, col, w)
  {
    var at := rows[r].page;
    OneMoreRewritten(before[at].value, pages[at].value, q, HitsOn(rows, ids, at), rows[r].slot, col, w);
    assert HitsOn(rows, ids + {r}, at) == HitsOn(rows, ids, at) + {rows[r].slot};
    assert q.kind == pages[at].value.kind;
    hide Rewritten, CellSet;
    forall id: nat | id < |after| && id != at ensures HitsOn(rows, ids + {r}, id) == HitsOn(rows, ids, id) {
    }
  }

  /** Slots stay as they are, so the row-id map stays exact. */
  lemma UpdatedExact(schema: seq<Column>, before: PageTable, pages: PageTable, rows: RowMap, ids: set<nat>, col: nat,
          w: Value)
    requires UpdatedSoFar(schema, before, pages, rows, ids, col, w) && MapExact(before, rows)
    ensures MapExact(pages, rows)
  {
    forall loc, r ensures NamesLive(pages, loc, r) <==> NamesLive(before, loc, r) {
      if loc.page < |before| && IsData(before, loc.page) {
        assert Rewritten(before[loc.page].value, pages[loc.page].value, HitsOn(rows, ids, loc.page), col, w);
      }
    }
    hide NamesLive, UpdatedSoFar;
  }

  lemma UpdatedPages(schema: seq<Column>, before: PageTable, pages: PageTable, rows: RowMap, ids: seq<nat>, col: nat,
          w: Value, tested: nat, op: CmpOp, target: Value)
    requires GoodPages(schema, before) && MapExact(before, rows) && tested < |schema|
    requires UpdatedSoFar(schema, before, pages, rows, IdSet(ids), col, w)
    requires forall r :: r in ids <==> r in rows && Apply(op, CellAt(before, rows[r], tested), target)
    ensures |pages| == |before| && forall id: nat :: id < |pages| ==>
      && (IsData(pages, id) <==> IsData(before, id)) && (!IsData(pages, id) ==> pages[id] == before[id])
      && RowsOn(pages, id) == Updated(RowsOn(before, id), col, w, tested, op, target)
  {
    hide MapExact, Updated;
    forall id: nat | id < |pages|
      ensures (IsData(pages, id) <==> IsData(before, id)) && (!IsData(pages, id) ==> pages[id] == before[id])
      ensures RowsOn(pages, id) == Updated(RowsOn(before, id), col, w, tested, op, target)
    {
      if IsData(before, id) {
        UpdatedPage(schema, before, pages, rows, ids, col, w, tested, op, target, id);
      } else {
        NothingUpdated(col, w, tested, op, target);
      }
    }
  }

  lemma NothingUpdated(col: nat, w: Value, tested: nat, op: CmpOp, target: Value)
    ensures Updated([], col, w, tested, op, target) == []
  {
  }

  lemma UpdatedPage(schema: seq<Column>, before: PageTable, pages: PageTable, rows: RowMap, ids: seq<nat>, col: nat,
          w: Value, tested: nat, op: CmpOp, target: Value, id: nat)
    requires GoodPages(schema, before) && MapExact(before, rows) && tested < |schema| && id < |pages|
             && IsData(before, id)
    requires UpdatedSoFar(schema, before, pages, rows, IdSet(ids), col, w)
    requires forall r :: r in ids <==> r in rows && Apply(op, CellAt(before, rows[r], tested), target)
    ensures IsData(pages, id) && RowsOn(pages, id) == Updated(RowsOn(before, id), col, w, tested, op, target)
  {
    var p, q, hits := before[id].value, pages[id].value, HitsOn(rows, IdSet(ids), id);
    HitsAreMatches(schema, before, rows, ids, tested, op, target, id);
    hide HitsOn, HitsMatch, Rewritten, MapExact, IdSet;
    RewrittenRows(p, q, hits, col, w, tested, op, target, |p.slots.value|);
  }

  /** The slots hit are those of the rows that match. */
  lemma HitsAreMatches(schema: seq<Column>, before: PageTable, rows: RowMap, ids: seq<nat>, tested: nat, op: CmpOp,
          target: Value, id: nat)
    requires GoodPages(schema, before) && MapExact(before, rows) && tested < |schema| && IsData(before, id)
    requires forall r :: r in ids <==> r in rows && Apply(op, CellAt(before, rows[r], tested), target)
    ensures HitsMatch(before[id].value, HitsOn(rows, IdSet(ids), id), tested, op, target)
    ensures before[id].value.slots.Some?
  {
    var p, hits := before[id].value, HitsOn(rows, IdSet(ids), id);
    assert GoodPage(schema, p);
    forall i | 0 <= i < |p.slots.value| && p.slots.value[i].live
      ensures i in hits <==> RowMatches(RowAt(p, i), tested, op, target)
    {
      var r := p.slots.value[i].rowId;
      assert NamesLive(before, Location(id, i), r);
      assert CellAt(before, rows[r], tested) == RowAt(p, i).values[tested];
      assert r in ids <==> r in IdSet(ids);
      if i in hits {
        var q :| q in IdSet(ids) && q in rows && rows[q].page == id && rows[q].slot == i;
        assert NamesLive(before, rows[q], q);
      }
    }
  }

  // ----- replacing a page ---------------------------------------------------------------------------

  lemma ReplaceKeeps(schema: seq<Column>, pages: PageTable, id: nat, q: Page, next: nat)
    requires GoodPages(schema, pages) && IdsBelow(pages, next) && IsData(pages, id) && GoodPage(schema, q)
             && SlotsBelow(q, next)
    ensures GoodPages(schema, pages[id := Some(q)]) && IdsBelow(pages[id := Some(q)], next)
    ensures Bag(pages[id := Some(q)]) + multiset(PageRows(pages[id].value)) == Bag(pages) + multiset(PageRows(q))
  {
    BagUpdate(pages, id, Some(q));
    var after := pages[id := Some(q)];
    forall j | 0 <= j < |after| && IsData(after, j)
      ensures GoodPage(schema, after[j].value) && SlotsBelow(after[j].value, next)
    {
      assert j != id ==> IsData(pages, j);
    }
  }

  lemma MovedBelow(p: Page, indices: seq<nat>, q: Page, start: nat, next: nat)
    requires p.slots.Some? && SlotsBelow(p, next) && forall k :: 0 <= k < |indices| ==> indices[k] < |p.slots.value|
    requires q.slots == Some(Moved(p.slots.value, indices, start))
    ensures SlotsBelow(q, next) && SlotsLive(q)
  {
  }

  // ----- relocating -------------------------------------------------------------------------------

  lemma RelocateStep(rows: RowMap, next: RowMap, slots: seq<Slot>, id: nat, start: nat, i: nat)
    requires Relocated(rows, next, slots, id, start, i) && start <= i < |slots|
    ensures var r := slots[i].rowId;
            Relocated(rows, if r in next then next[r := Location(id, i)] else next, slots, id, start, i + 1)
  {
    var r := slots[i].rowId;
    var after := if r in next then next[r := Location(id, i)] else next;
    forall q | q in rows
      ensures MovedTo(after[q], slots, id, start, i + 1, q) || (after[q] == rows[q] && !Carries(slots, start, i + 1, q))
    {
      if q != r && Carries(slots, start, i + 1, q) {
        var k :| start <= k < i + 1 && k < |slots| && slots[k].rowId == q;
        assert Carries(slots, start, i, q);
      }
    }
  }

  /** Exactness survives a move of rows that can be traced back one to one. */
  lemma ExactMoved(pages: PageTable, after: PageTable, rows: RowMap, next: RowMap, back: Location -> Location)
    requires MapExact(pages, rows) && MapSound(after, next) && next.Keys == rows.Keys
    requires forall loc, r :: NamesLive(after, loc, r) ==> NamesLive(pages, back(loc), r)
    requires forall a, b, r :: NamesLive(after, a, r) && NamesLive(after, b, r) && back(a) == back(b) ==> a == b
    ensures MapExact(after, next)
  {
    forall loc, r | NamesLive(after, loc, r) ensures r in next && next[r] == loc {
      assert NamesLive(pages, back(loc), r);
      assert NamesLive(after, next[r], r);
      assert NamesLive(pages, back(next[r]), r);
    }
  }

  // ----- splitting ----------------------------------------------------------------------------------

  ghost predicate Halves(schema: seq<Column>, pages: PageTable, id: nat, newId: nat, mid: nat, left: Page, right: Page)
  {
    && GoodPages(schema, pages) && IsData(pages, id) && GoodPage(schema, pages[id].value)
    && newId <= |pages| && (newId < |pages| ==> pages[newId].None?)
    && mid <= |Live(pages[id].value.slots.value)|
    && Selects(schema, pages[id].value, Live(pages[id].value.slots.value)[..mid], left)
    && Selects(schema, pages[id].value, Live(pages[id].value.slots.value)[mid..], right)
  }

  lemma SplitSlots(schema: seq<Column>, pages: PageTable, id: nat, newId: nat, mid: nat, left: Page, right: Page)
    requires Halves(schema, pages, id, newId, mid, left, right) && id < |Placed(pages, newId, right)|
    ensures SlotsIn(Placed(pages, newId, right)[id := Some(left)]) <= SlotsIn(pages)
  {
    var p := pages[id].value;
    var live := Live(p.slots.value);
    SelectedSlots(schema, p, live[..mid], left);
    SelectedSlots(schema, p, live[mid..], right);
    SlotsPlaced(pages, newId, right);
    SlotsUpdate(Placed(pages, newId, right), id, Some(left));
    hide SlotsIn, GoodPages, GoodPage, Selects;
  }

  lemma SelectedSlots(schema: seq<Column>, p: Page, indices: seq<nat>, q: Page)
    requires GoodPage(schema, p) && (forall k :: 0 <= k < |indices| ==> indices[k] < |p.slots.value|)
             && Selects(schema, p, indices, q)
    ensures SlotsOf(Some(q)) == |indices|
  {
  }

  lemma MergeSlots(schema: seq<Column>, pages: PageTable, id: nat, n: nat, q: Page)
    requires Merges(schema, pages, id, n, q)
    ensures SlotsIn(pages[n := Some(q)][id := None]) <= SlotsIn(pages)
  {
    SlotsUpdate(pages, n, Some(q));
    SlotsUpdate(pages[n := Some(q)], id, None);
    hide SlotsIn, GoodPages;
  }

  lemma SetSlots(p: Page, q: Page, slot: nat, col: nat, w: Value)
    requires p.body.Some? && CellSet(p, q, slot, col, w)
    ensures SlotsOf(Some(q)) == SlotsOf(Some(p))
  {
  }

  lemma SplitKeeps(schema: seq<Column>, pages: PageTable, id: nat, newId: nat, mid: nat, left: Page, right: Page,
          next: nat)
    requires Halves(schema, pages, id, newId, mid, left, right) && IdsBelow(pages, next)
    ensures var after := Placed(pages, newId, right)[id := Some(left)];
            GoodPages(schema, after) && IdsBelow(after, next) && Bag(after) == Bag(pages) && KeepsKinds(pages, after)
            && (NoTombstones(pages) ==> NoTombstones(after))
  {
    hide GoodPage, Selects, Live, PageRows, Bag, SlotsBelow, SlotsLive;
    var p := pages[id].value;
    DataPage(schema, pages, id);
    PageBelow(pages, id, next);
    SplitPages(schema, p, mid, left, right, next);
    SplitBag(schema, pages, id, newId, mid, left, right);
    SplitTable(schema, pages, id, newId, left, right, next);
  }

  lemma SplitTable(schema: seq<Column>, pages: PageTable, id: nat, newId: nat, left: Page, right: Page, next: nat)
    requires GoodPages(schema, pages) && IdsBelow(pages, next) && IsData(pages, id)
    requires newId <= |pages| && (newId < |pages| ==> pages[newId].None?)
    requires GoodPage(schema, left) && GoodPage(schema, right) && SlotsBelow(left, next) && SlotsBelow(right, next)
    requires left.kind.Data? && right.kind.Data? && SlotsLive(left) && SlotsLive(right)
    ensures var after := Placed(pages, newId, right)[id := Some(left)];
            GoodPages(schema, after) && IdsBelow(after, next) && KeepsKinds(pages, after)
              && (NoTombstones(pages) ==> NoTombstones(after))
  {
    hide GoodPage, SlotsBelow, SlotsLive;
    var after := Placed(pages, newId, right)[id := Some(left)];
    forall j | 0 <= j < |after| && IsData(after, j)
      ensures GoodPage(schema, after[j].value) && SlotsBelow(after[j].value, next)
              && (NoTombstones(pages) ==> SlotsLive(after[j].value))
    {
      assert j != id && j != newId ==> IsData(pages, j) && after[j] == pages[j];
    }
  }

  lemma SplitBag(schema: seq<Column>, pages: PageTable, id: nat, newId: nat, mid: nat, left: Page, right: Page)
    requires Halves(schema, pages, id, newId, mid, left, right)
    ensures Bag(Placed(pages, newId, right)[id := Some(left)]) == Bag(pages)
  {
    hide GoodPage, GoodPages, Selects, Live, PageRows, Bag;
    var p := pages[id].value;
    DataPage(schema, pages, id);
    var placed := Placed(pages, newId, right);
    PlacedBag(pages, newId, right);
    SplitRows(schema, p, mid, left, right);
    BagUpdate(placed, id, Some(left));
    var l, r := multiset(PageRows(left)), multiset(PageRows(right));
    assert multiset(PageRows(left) + PageRows(right)) == l + r;
    assert (Bag(pages) + r) + l == Bag(pages) + ((l + r) + multiset{});
    Cancel(Bag(placed[id := Some(left)]), Bag(pages), l + r, multiset{});
    assert Bag(pages) + multiset{} == Bag(pages);
  }

  lemma SplitPages(schema: seq<Column>, p: Page, mid: nat, left: Page, right: Page, next: nat)
    requires GoodPage(schema, p) && mid <= |Live(p.slots.value)| && SlotsBelow(p, next)
    requires Selects(schema, p, Live(p.slots.value)[..mid], left)
             && Selects(schema, p, Live(p.slots.value)[mid..], right)
    ensures GoodPage(schema, left) && GoodPage(schema, right) && SlotsBelow(left, next) && SlotsBelow(right, next)
    ensures left.kind.Data? && right.kind.Data? && SlotsLive(left) && SlotsLive(right)
  {
    var live := Live(p.slots.value);
    MovedBelow(p, live[..mid], left, 0, next);
    MovedBelow(p, live[mid..], right, 0, next);
    hide CellsOf, Fits, Live;
  }

  lemma SameKinds(pages: PageTable)
    ensures KeepsKinds(pages, pages)
  {
  }

  lemma PlacedElsewhere(pages: PageTable, newId: nat, right: Page, id: nat)
    requires newId <= |pages| && (newId < |pages| ==> pages[newId].None?) && IsData(pages, id)
    ensures id < |Placed(pages, newId, right)| && id != newId && Placed(pages, newId, right)[id] == pages[id]
  {
  }

  lemma SplitGood(schema: seq<Column>, pages: PageTable, freeIds: seq<nat>, highWater: nat, space: map<nat, nat>,
          rows: RowMap, id: nat, newId: nat, left: Page, right: Page, next: nat)
    requires |schema| > 0 && SpaceOk(pages, space) && (forall r :: r in rows ==> r < next) && IsData(pages, id)
    requires newId <= |pages| && (newId < |pages| ==> pages[newId].None?) && left.kind.Data? && right.kind.Data?
    requires FreeOk(Placed(pages, newId, right), freeIds) && |Placed(pages, newId, right)| == highWater
    requires var after := Placed(pages, newId, right)[id := Some(left)];
             GoodPages(schema, after) && IdsBelow(after, next)
    ensures Good(schema, Placed(pages, newId, right)[id := Some(left)], freeIds, highWater,
                 space[id := PAGE_DATA_CAPACITY][newId := PAGE_DATA_CAPACITY], rows, next)
  {
    hide GoodPages, IdsBelow;
    var placed := Placed(pages, newId, right);
    FreeUpdate(placed, freeIds, id, left);
    hide FreeOk;
  }

  lemma SameKeys(rows0: RowMap, rows1: RowMap, rows2: RowMap, left: seq<Slot>, id: nat, right: seq<Slot>, newId: nat)
    requires Relocated(rows0, rows1, left, id, 0, |left|) && Relocated(rows1, rows2, right, newId, 0, |right|)
    ensures rows2.Keys == rows0.Keys
  {
  }

  /** Where a row of a split page was before. */
  function SplitBack(live: seq<nat>, id: nat, newId: nat, mid: nat, loc: Location): Location
  {
    if loc.page == id then (if loc.slot < |live| then Location(id, live[loc.slot]) else loc)
    else if loc.page == newId then (if mid + loc.slot < |live| then Location(id, live[mid + loc.slot]) else loc)
    else loc
  }

  lemma SplitTrace(schema: seq<Column>, pages: PageTable, id: nat, newId: nat, mid: nat, left: Page, right: Page,
          loc: Location, r: nat)
    requires Halves(schema, pages, id, newId, mid, left, right)
    requires NamesLive(Placed(pages, newId, right)[id := Some(left)], loc, r)
    ensures var live := Live(pages[id].value.slots.value);
            NamesLive(pages, SplitBack(live, id, newId, mid, loc), r)
            && (loc.page == id ==> loc.slot < mid) && (loc.page == newId ==> mid + loc.slot < |live|)
  {
    var live := Live(pages[id].value.slots.value);
    if loc.page == id {
      assert left.slots.value[loc.slot] == Moved(pages[id].value.slots.value, live[..mid], 0)[loc.slot];
    } else if loc.page == newId {
      assert right.slots.value[loc.slot] == Moved(pages[id].value.slots.value, live[mid..], 0)[loc.slot];
    }
  }

  /** Every mapped row of a split page is in one of the halves. */
  lemma SplitCarries(schema: seq<Column>, pages: PageTable, id: nat, newId: nat, mid: nat, left: Page, right: Page,
          s: nat, r: nat)
    requires Halves(schema, pages, id, newId, mid, left, right) && NamesLive(pages, Location(id, s), r)
    ensures Carries(left.slots.value, 0, |left.slots.value|, r) || Carries(right.slots.value, 0, |right.slots.value|, r)
  {
    var live := Live(pages[id].value.slots.value);
    assert s in live;
    var k :| 0 <= k < |live| && live[k] == s;
    if k < mid {
      assert left.slots.value[k] == Moved(pages[id].value.slots.value, live[..mid], 0)[k];
    } else {
      assert right.slots.value[k - mid] == Moved(pages[id].value.slots.value, live[mid..], 0)[k - mid];
    }
  }

  /** Splitting keeps the row-id map right. */
  lemma SplitMap(schema: seq<Column>, pages: PageTable, after: PageTable, rows: RowMap, rows1: RowMap, rows2: RowMap,
          id: nat, newId: nat, mid: nat, left: Page, right: Page)
    requires Halves(schema, pages, id, newId, mid, left, right)
             && after == Placed(pages, newId, right)[id := Some(left)]
    requires Relocated(rows, rows1, left.slots.value, id, 0, |left.slots.value|)
    requires Relocated(rows1, rows2, right.slots.value, newId, 0, |right.slots.value|)
    ensures MapSound(pages, rows) ==> MapSound(after, rows2)
    ensures MapExact(pages, rows) ==> MapExact(after, rows2)
  {
    if MapSound(pages, rows) {
      forall r | r in rows2 ensures NamesLive(after, rows2[r], r) {
        SplitMapRow(schema, pages, after, rows, rows1, rows2, id, newId, mid, left, right, r);
      }
    }
    if MapExact(pages, rows) {
      SplitExact(schema, pages, after, rows, rows2, id, newId, mid, left, right);
    }
  }

  lemma SplitMapRow(schema: seq<Column>, pages: PageTable, after: PageTable, rows: RowMap, rows1: RowMap, rows2: RowMap,
          id: nat, newId: nat, mid: nat, left: Page, right: Page, r: nat)
    requires Halves(schema, pages, id, newId, mid, left, right)
             && after == Placed(pages, newId, right)[id := Some(left)]
    requires Relocated(rows, rows1, left.slots.value, id, 0, |left.slots.value|)
    requires Relocated(rows1, rows2, right.slots.value, newId, 0, |right.slots.value|)
    requires MapSound(pages, rows) && r in rows2
    ensures NamesLive(after, rows2[r], r)
  {
    assert NamesLive(pages, rows[r], r);
    if rows[r].page == id {
      SplitCarries(schema, pages, id, newId, mid, left, right, rows[r].slot, r);
    }
    SplitLive(schema, pages, id, newId, mid, left, right);
    assert r in rows1;
    SplitLoc(pages, after, id, newId, left, right, rows[r], rows1[r], rows2[r], r);
    hide *;
  }

  lemma SplitLoc(pages: PageTable, after: PageTable, id: nat, newId: nat, left: Page, right: Page, a: Location,
          b: Location, c: Location, r: nat)
    requires IsData(pages, id) && newId <= |pages| && (newId < |pages| ==> pages[newId].None?)
    requires after == Placed(pages, newId, right)[id := Some(left)]
    requires left.kind.Data? && left.slots.Some? && forall k :: 0 <= k < |left.slots.value| ==> left.slots.value[k].live
    requires right.kind.Data? && right.slots.Some? && forall k :: 0 <= k < |right.slots.value| ==>
             right.slots.value[k].live
    requires NamesLive(pages, a, r)
    requires a.page == id ==>
             Carries(left.slots.value, 0, |left.slots.value|, r)
               || Carries(right.slots.value, 0, |right.slots.value|, r)
    requires MovedTo(b, left.slots.value, id, 0, |left.slots.value|, r)
             || (b == a && !Carries(left.slots.value, 0, |left.slots.value|, r))
    requires MovedTo(c, right.slots.value, newId, 0, |right.slots.value|, r)
             || (c == b && !Carries(right.slots.value, 0, |right.slots.value|, r))
    ensures NamesLive(after, c, r)
  {
    hide Carries;
  }

  lemma SplitLive(schema: seq<Column>, pages: PageTable, id: nat, newId: nat, mid: nat, left: Page, right: Page)
    requires Halves(schema, pages, id, newId, mid, left, right)
    ensures left.kind.Data? && left.slots.Some? && forall k :: 0 <= k < |left.slots.value| ==> left.slots.value[k].live
    ensures right.kind.Data? && right.slots.Some? && forall k :: 0 <= k < |right.slots.value| ==>
            right.slots.value[k].live
    ensures id != newId && id < |pages| && newId <= |pages| && (newId < |pages| ==> pages[newId].None?)
  {
  }

  lemma SplitExact(schema: seq<Column>, pages: PageTable, after: PageTable, rows: RowMap, next: RowMap, id: nat,
          newId: nat, mid: nat, left: Page, right: Page)
    requires Halves(schema, pages, id, newId, mid, left, right)
             && after == Placed(pages, newId, right)[id := Some(left)]
    requires MapExact(pages, rows) && MapSound(after, next) && next.Keys == rows.Keys
    ensures MapExact(after, next)
  {
    var live := Live(pages[id].value.slots.value);
    var back := (loc: Location) => SplitBack(live, id, newId, mid, loc);
    forall loc, r | NamesLive(after, loc, r) ensures NamesLive(pages, back(loc), r) {
      SplitTrace(schema, pages, id, newId, mid, left, right, loc, r);
    }
    forall a, b, r | NamesLive(after, a, r) && NamesLive(after, b, r) && back(a) == back(b) ensures a == b {
      SplitTrace(schema, pages, id, newId, mid, left, right, a, r);
      SplitTrace(schema, pages, id, newId, mid, left, right, b, r);
      SplitBackOnce(live, id, newId, mid, a, b);
    }
    ExactMoved(pages, after, rows, next, back);
  }

  lemma SplitBackOnce(live: seq<nat>, id: nat, newId: nat, mid: nat, a: Location, b: Location)
    requires forall j, k :: 0 <= j < k < |live| ==> live[j] < live[k]
    requires SplitBack(live, id, newId, mid, a) == SplitBack(live, id, newId, mid, b) && id != newId && mid <= |live|
    requires a.page == id ==> a.slot < mid
    requires b.page == id ==> b.slot < mid
    requires a.page == newId ==> mid + a.slot < |live|
    requires b.page == newId ==> mid + b.slot < |live|
    ensures a == b
  {
  }

  lemma SplitDisturbs(schema: seq<Column>, pages: PageTable, after: PageTable, rows: RowMap, rows1: RowMap,
          rows2: RowMap, id: nat, newId: nat, mid: nat, left: Page, right: Page)
    requires Halves(schema, pages, id, newId, mid, left, right)
             && after == Placed(pages, newId, right)[id := Some(left)]
    requires Relocated(rows, rows1, left.slots.value, id, 0, |left.slots.value|)
    requires Relocated(rows1, rows2, right.slots.value, newId, 0, |right.slots.value|)
    ensures Undisturbed(pages, rows, after, rows2, id)
  {
    hide Carries, Unique, LiveOn;
    SplitUnique(schema, pages, after, id, newId, mid, left, right);
    SplitLive(schema, pages, id, newId, mid, left, right);
    forall r | r in rows ensures rows2[r] == rows[r] || LiveOn(pages, id, r) {
      if rows1[r] != rows[r] {
        SplitFrom(schema, pages, after, id, newId, mid, left, right, rows1[r], r);
      }
      if rows2[r] != rows1[r] {
        SplitFrom(schema, pages, after, id, newId, mid, left, right, rows2[r], r);
      }
    }
    hide Halves;
  }

  lemma SplitFrom(schema: seq<Column>, pages: PageTable, after: PageTable, id: nat, newId: nat, mid: nat, left: Page,
          right: Page, loc: Location, r: nat)
    requires Halves(schema, pages, id, newId, mid, left, right)
             && after == Placed(pages, newId, right)[id := Some(left)]
    requires MovedTo(loc, left.slots.value, id, 0, |left.slots.value|, r)
             || MovedTo(loc, right.slots.value, newId, 0, |right.slots.value|, r)
    ensures LiveOn(pages, id, r)
  {
    SplitLive(schema, pages, id, newId, mid, left, right);
    hide Halves;
    assert NamesLive(after, loc, r);
    SplitTrace(schema, pages, id, newId, mid, left, right, loc, r);
    var was := SplitBack(Live(pages[id].value.slots.value), id, newId, mid, loc);
    assert was.page == id && was == Location(id, was.slot);
  }

  lemma SplitUnique(schema: seq<Column>, pages: PageTable, after: PageTable, id: nat, newId: nat, mid: nat, left: Page,
          right: Page)
    requires Halves(schema, pages, id, newId, mid, left, right)
             && after == Placed(pages, newId, right)[id := Some(left)]
    ensures Unique(pages) ==> Unique(after)
  {
    var live := Live(pages[id].value.slots.value);
    var back := (loc: Location) => SplitBack(live, id, newId, mid, loc);
    forall loc, r | NamesLive(after, loc, r) ensures NamesLive(pages, back(loc), r) {
      SplitTrace(schema, pages, id, newId, mid, left, right, loc, r);
    }
    forall a, b, r | NamesLive(after, a, r) && NamesLive(after, b, r) && back(a) == back(b) ensures a == b {
      SplitTrace(schema, pages, id, newId, mid, left, right, a, r);
      SplitTrace(schema, pages, id, newId, mid, left, right, b, r);
      SplitBackOnce(live, id, newId, mid, a, b);
    }
    UniqueMoved(pages, after, back);
  }

  // ----- merging --------------------------------------------------------------------------------------

  ghost predicate Merges(schema: seq<Column>, pages: PageTable, id: nat, n: nat, q: Page)
  {
    && GoodPages(schema, pages) && IsData(pages, id) && IsData(pages, n) && id != n
    && GoodPage(schema, pages[id].value) && GoodPage(schema, pages[n].value)
    && Extends(schema, pages[n].value, pages[id].value, Live(pages[id].value.slots.value), q)
  }

  lemma MergeKeeps(schema: seq<Column>, pages: PageTable, id: nat, n: nat, q: Page, next: nat)
    requires Merges(schema, pages, id, n, q) && IdsBelow(pages, next)
    ensures var after := pages[n := Some(q)][id := None];
            GoodPages(schema, after) && IdsBelow(after, next) && Bag(after) == Bag(pages) && KeepsKinds(pages, after)
            && (NoTombstones(pages) ==> NoTombstones(after))
  {
    hide GoodPage, Extends, Live, PageRows, Bag, SlotsBelow, SlotsLive;
    DataPage(schema, pages, id);
    DataPage(schema, pages, n);
    PageBelow(pages, id, next);
    PageBelow(pages, n, next);
    MergedBelow(schema, pages[n].value, pages[id].value, Live(pages[id].value.slots.value), q, next);
    MergeBag(schema, pages, id, n, q);
    MergeTable(schema, pages, id, n, q, next);
  }

  lemma MergeTable(schema: seq<Column>, pages: PageTable, id: nat, n: nat, q: Page, next: nat)
    requires GoodPages(schema, pages) && IdsBelow(pages, next) && IsData(pages, id) && IsData(pages, n) && id != n
    requires GoodPage(schema, q) && q.kind.Data? && SlotsBelow(q, next) && (SlotsLive(pages[n].value) ==> SlotsLive(q))
    ensures var after := pages[n := Some(q)][id := None];
            GoodPages(schema, after) && IdsBelow(after, next) && KeepsKinds(pages, after)
              && (NoTombstones(pages) ==> NoTombstones(after))
  {
    hide GoodPage, SlotsBelow, SlotsLive;
    var after := pages[n := Some(q)][id := None];
    forall j | 0 <= j < |after| && IsData(after, j)
      ensures GoodPage(schema, after[j].value) && SlotsBelow(after[j].value, next)
              && (NoTombstones(pages) ==> SlotsLive(after[j].value))
    {
      assert j != n ==> IsData(pages, j) && after[j] == pages[j];
    }
  }

  lemma MergeBag(schema: seq<Column>, pages: PageTable, id: nat, n: nat, q: Page)
    requires Merges(schema, pages, id, n, q)
    ensures Bag(pages[n := Some(q)][id := None]) == Bag(pages)
  {
    hide GoodPage, GoodPages, Extends, Live, PageRows, Bag;
    DataPage(schema, pages, id);
    DataPage(schema, pages, n);
    var p, np := pages[id].value, pages[n].value;
    var placed := pages[n := Some(q)];
    var after := placed[id := None];
    ExtendedRows(schema, np, p, Live(p.slots.value), q);
    LiveRows(schema, p);
    BagUpdate(pages, n, Some(q));
    BagUpdate(placed, id, None);
    var a, b := multiset(PageRows(np)), multiset(PageRows(p));
    assert multiset(PageRows(np) + PageRows(p)) == a + b;
    assert PageRows(q) == PageRows(np) + PageRows(p);
    SameBag(Bag(after), Bag(placed), Bag(pages), a, b);
  }

  lemma MergedBelow(schema: seq<Column>, np: Page, p: Page, live: seq<nat>, q: Page, next: nat)
    requires GoodPage(schema, np) && GoodPage(schema, p) && (forall k :: 0 <= k < |live| ==> live[k] < |p.slots.value|)
    requires Extends(schema, np, p, live, q) && SlotsBelow(np, next) && SlotsBelow(p, next)
    ensures GoodPage(schema, q) && q.kind.Data? && SlotsBelow(q, next)
    ensures SlotsLive(np) ==> SlotsLive(q)
  {
  }

  lemma MergeGood(schema: seq<Column>, pages: PageTable, freeIds: seq<nat>, highWater: nat, space: map<nat, nat>,
          rows: RowMap, rows': RowMap, id: nat, n: nat, q: Page, next: nat)
    requires |schema| > 0 && SpaceOk(pages, space) && (forall r :: r in rows ==> r < next)
    requires IsData(pages, id) && IsData(pages, n) && id != n && q.kind.Data? && |pages| == highWater && |schema| > 0
    requires FreeOk(pages[n := Some(q)][id := None], freeIds)
    requires var after := pages[n := Some(q)][id := None]; GoodPages(schema, after) && IdsBelow(after, next)
    requires exists slots, start :: Relocated(rows, rows', slots, n, start, |slots|)
    ensures Good(schema, pages[n := Some(q)][id := None], freeIds, highWater, space[n := PAGE_DATA_CAPACITY] - {id},
            rows', next)
  {
    hide GoodPages, IdsBelow;
    SpaceUpdate(pages, space, n, q, PAGE_DATA_CAPACITY);
    SpaceFreed(pages[n := Some(q)], space[n := PAGE_DATA_CAPACITY], id);
    hide FreeOk, SpaceOk;
  }

  /** Where a row of a merged page was before. */
  function MergeBack(live: seq<nat>, id: nat, n: nat, start: nat, loc: Location): Location
  {
    if loc.page == n && loc.slot >= start
      && loc.slot - start < |live| then Location(id, live[loc.slot - start]) else loc
  }

  lemma MergeTrace(schema: seq<Column>, pages: PageTable, id: nat, n: nat, q: Page, loc: Location, r: nat)
    requires Merges(schema, pages, id, n, q) && NamesLive(pages[n := Some(q)][id := None], loc, r)
    ensures NamesLive(pages, MergeBack(Live(pages[id].value.slots.value), id, n, |pages[n].value.slots.value|, loc), r)
    ensures loc.page != id
  {
    var np, live := pages[n].value, Live(pages[id].value.slots.value);
    if loc.page == n && loc.slot >= |np.slots.value| {
      assert q.slots.value[loc.slot]
        == Moved(pages[id].value.slots.value, live, |np.slots.value|)[loc.slot - |np.slots.value|];
    }
  }

  lemma MergeCarries(schema: seq<Column>, pages: PageTable, id: nat, n: nat, q: Page, s: nat, r: nat)
    requires Merges(schema, pages, id, n, q) && NamesLive(pages, Location(id, s), r)
    ensures Carries(q.slots.value, |pages[n].value.slots.value|, |q.slots.value|, r)
  {
    var np, live := pages[n].value, Live(pages[id].value.slots.value);
    assert s in live;
    var k :| 0 <= k < |live| && live[k] == s;
    assert q.slots.value[|np.slots.value| + k] == Moved(pages[id].value.slots.value, live, |np.slots.value|)[k];
  }

  /** Merging keeps the row-id map right. */
  lemma MergeMap(schema: seq<Column>, pages: PageTable, after: PageTable, rows: RowMap, next: RowMap, id: nat, n: nat,
          q: Page)
    requires Merges(schema, pages, id, n, q) && after == pages[n := Some(q)][id := None]
    requires Relocated(rows, next, q.slots.value, n, |pages[n].value.slots.value|, |q.slots.value|)
    ensures MapSound(pages, rows) ==> MapSound(after, next)
    ensures MapExact(pages, rows) ==> MapExact(after, next)
  {
    if MapSound(pages, rows) {
      forall r | r in next ensures NamesLive(after, next[r], r) {
        MergeMapRow(schema, pages, after, rows, next, id, n, q, r);
      }
    }
    if MapExact(pages, rows) {
      var live, start := Live(pages[id].value.slots.value), |pages[n].value.slots.value|;
      var back := (loc: Location) => MergeBack(live, id, n, start, loc);
      forall loc, r | NamesLive(after, loc, r) ensures NamesLive(pages, back(loc), r) {
        MergeTrace(schema, pages, id, n, q, loc, r);
      }
      forall a, b, r | NamesLive(after, a, r) && NamesLive(after, b, r) && back(a) == back(b) ensures a == b {
        MergeTrace(schema, pages, id, n, q, a, r);
        MergeTrace(schema, pages, id, n, q, b, r);
        MergeBackOnce(live, id, n, start, a, b);
      }
      ExactMoved(pages, after, rows, next, back);
    }
  }

  lemma MergeUnique(schema: seq<Column>, pages: PageTable, after: PageTable, id: nat, n: nat, q: Page)
    requires Merges(schema, pages, id, n, q) && after == pages[n := Some(q)][id := None]
    ensures Unique(pages) ==> Unique(after)
  {
    var live, start := Live(pages[id].value.slots.value), |pages[n].value.slots.value|;
    var back := (loc: Location) => MergeBack(live, id, n, start, loc);
    forall loc, r | NamesLive(after, loc, r) ensures NamesLive(pages, back(loc), r) {
      MergeTrace(schema, pages, id, n, q, loc, r);
    }
    forall a, b, r | NamesLive(after, a, r) && NamesLive(after, b, r) && back(a) == back(b) ensures a == b {
      MergeTrace(schema, pages, id, n, q, a, r);
      MergeTrace(schema, pages, id, n, q, b, r);
      MergeBackOnce(live, id, n, start, a, b);
    }
    UniqueMoved(pages, after, back);
  }

  lemma MergeDisturbs(schema: seq<Column>, pages: PageTable, after: PageTable, rows: RowMap, next: RowMap, id: nat,
          n: nat, q: Page)
    requires Merges(schema, pages, id, n, q) && after == pages[n := Some(q)][id := None]
    requires Relocated(rows, next, q.slots.value, n, |pages[n].value.slots.value|, |q.slots.value|)
    ensures Undisturbed(pages, rows, after, next, id)
  {
    hide Carries, Unique, LiveOn;
    MergeUnique(schema, pages, after, id, n, q);
    MergeLive(schema, pages, id, n, q);
    forall r | r in rows ensures next[r] == rows[r] || LiveOn(pages, id, r) {
      if next[r] != rows[r] {
        MergeFrom(schema, pages, after, id, n, q, next[r], r);
      }
    }
    forall loc: Location, r | loc.page != id && NamesLive(pages, loc, r) ensures NamesLive(after, loc, r) {
    }
    hide Merges;
  }

  lemma MergeFrom(schema: seq<Column>, pages: PageTable, after: PageTable, id: nat, n: nat, q: Page, loc: Location,
          r: nat)
    requires Merges(schema, pages, id, n, q) && after == pages[n := Some(q)][id := None]
    requires MovedTo(loc, q.slots.value, n, |pages[n].value.slots.value|, |q.slots.value|, r)
    ensures LiveOn(pages, id, r)
  {
    MergeLive(schema, pages, id, n, q);
    assert NamesLive(after, loc, r);
    MergeTrace(schema, pages, id, n, q, loc, r);
    var live, start := Live(pages[id].value.slots.value), |pages[n].value.slots.value|;
    MergedSlots(schema, pages, id, n, q);
    hide Merges;
    var was := MergeBack(live, id, n, start, loc);
    assert was == Location(id, was.slot);
  }

  lemma MergedSlots(schema: seq<Column>, pages: PageTable, id: nat, n: nat, q: Page)
    requires Merges(schema, pages, id, n, q)
    ensures q.slots.Some? && |q.slots.value| == |pages[n].value.slots.value| + |Live(pages[id].value.slots.value)|
  {
  }

  lemma MergeMapRow(schema: seq<Column>, pages: PageTable, after: PageTable, rows: RowMap, next: RowMap, id: nat,
          n: nat, q: Page, r: nat)
    requires Merges(schema, pages, id, n, q) && after == pages[n := Some(q)][id := None]
    requires Relocated(rows, next, q.slots.value, n, |pages[n].value.slots.value|, |q.slots.value|)
    requires MapSound(pages, rows) && r in next
    ensures NamesLive(after, next[r], r)
  {
    assert NamesLive(pages, rows[r], r);
    if rows[r].page == id {
      MergeCarries(schema, pages, id, n, q, rows[r].slot, r);
    }
    MergeLive(schema, pages, id, n, q);
    MergeLoc(pages, after, id, n, q, rows[r], next[r], r);
    hide *;
  }

  lemma MergeLoc(pages: PageTable, after: PageTable, id: nat, n: nat, q: Page, a: Location, b: Location, r: nat)
    requires id < |pages| && IsData(pages, n) && id != n && after == pages[n := Some(q)][id := None]
    requires pages[n].value.slots.Some? && q.kind.Data? && q.slots.Some?
             && |pages[n].value.slots.value| <= |q.slots.value|
    requires forall k :: 0 <= k < |pages[n].value.slots.value| ==> q.slots.value[k] == pages[n].value.slots.value[k]
    requires forall k :: |pages[n].value.slots.value| <= k < |q.slots.value| ==> q.slots.value[k].live
    requires NamesLive(pages, a, r)
    requires a.page == id ==> Carries(q.slots.value, |pages[n].value.slots.value|, |q.slots.value|, r)
    requires MovedTo(b, q.slots.value, n, |pages[n].value.slots.value|, |q.slots.value|, r)
             || (b == a && !Carries(q.slots.value, |pages[n].value.slots.value|, |q.slots.value|, r))
    ensures NamesLive(after, b, r)
  {
    hide Carries;
  }

  lemma MergeLive(schema: seq<Column>, pages: PageTable, id: nat, n: nat, q: Page)
    requires Merges(schema, pages, id, n, q)
    ensures id != n && IsData(pages, n) && q.kind.Data? && q.slots.Some? && pages[n].value.slots.Some?
    ensures var start := |pages[n].value.slots.value|;
            start <= |q.slots.value| && (forall k :: 0 <= k < start ==>
              q.slots.value[k] == pages[n].value.slots.value[k])
            && (forall k :: start <= k < |q.slots.value| ==> q.slots.value[k].live)
  {
  }

  lemma MergeBackOnce(live: seq<nat>, id: nat, n: nat, start: nat, a: Location, b: Location)
    requires forall j, k :: 0 <= j < k < |live| ==> live[j] < live[k]
    requires MergeBack(live, id, n, start, a) == MergeBack(live, id, n, start, b) && a.page != id && b.page != id
    ensures a == b
  {
  }

  // ----- compacting --------------------------------------------------------------------------------------

  lemma FreshSelects(schema: seq<Column>, p: Page)
    requires GoodPage(schema, p) && Live(p.slots.value) == []
    ensures Selects(schema, p, Live(p.slots.value), Page(Data, Some(FreshBody(schema)), Some([])))
  {
  }

  lemma RepackKeeps(schema: seq<Column>, pages: PageTable, id: nat, q: Page, next: nat)
    requires GoodPages(schema, pages) && IdsBelow(pages, next) && IsData(pages, id) && GoodPage(schema, pages[id].value)
    requires Selects(schema, pages[id].value, Live(pages[id].value.slots.value), q)
    ensures q.kind.Data? && GoodPages(schema, pages[id := Some(q)]) && IdsBelow(pages[id := Some(q)], next)
    ensures Bag(pages[id := Some(q)]) == Bag(pages) && KeepsKinds(pages, pages[id := Some(q)])
  {
    hide GoodPage, Selects, GoodPages, IdsBelow, Bag, PageRows, SlotsBelow;
    var p := pages[id].value;
    DataPage(schema, pages, id);
    SelectedParts(schema, p, Live(p.slots.value), q);
    CompactedRows(schema, p, q);
    PageBelow(pages, id, next);
    MovedBelow(p, Live(p.slots.value), q, 0, next);
    ReplaceKeeps(schema, pages, id, q, next);
    var m := multiset(PageRows(p));
    assert Bag(pages) + m == Bag(pages) + (m + multiset{});
    Cancel(Bag(pages[id := Some(q)]), Bag(pages), m, multiset{});
    assert Bag(pages[id := Some(q)]) == Bag(pages);
  }

  lemma SelectedParts(schema: seq<Column>, p: Page, indices: seq<nat>, q: Page)
    requires p.body.Some? && p.slots.Some? && forall k :: 0 <= k < |indices| ==> indices[k] < |p.slots.value|
    requires Selects(schema, p, indices, q)
    ensures GoodPage(schema, q) && q.kind.Data? && q.slots == Some(Moved(p.slots.value, indices, 0))
  {
  }

  lemma PageBelow(pages: PageTable, id: nat, next: nat)
    requires IdsBelow(pages, next) && IsData(pages, id)
    ensures SlotsBelow(pages[id].value, next)
  {
  }

  lemma HasTombstone(pages: PageTable, id: nat)
    requires IsData(pages, id) && pages[id].value.slots.Some?
    requires |Live(pages[id].value.slots.value)| != |pages[id].value.slots.value|
    ensures !NoTombstones(pages)
  {
    var slots := pages[id].value.slots.value;
    if SlotsLive(pages[id].value) {
      AllLive(slots, |slots|);
    }
  }

  lemma DataIsKind(pages: PageTable, ids: seq<nat>)
    requires forall i: nat :: i in ids ==> IsData(pages, i)
    ensures forall i :: i in ids ==> DataOrFree(pages, i)
  {
  }

  lemma KindsCarry(pages: PageTable, next: PageTable, ids: seq<nat>)
    requires KeepsKinds(pages, next) && forall i :: i in ids ==> DataOrFree(pages, i)
    ensures forall i :: i in ids ==> DataOrFree(next, i)
  {
  }

  /** Repacking a page leaves the row-id map right exactly when no live slot of the page
      follows a tombstone: the slots are renumbered, the map is not. */
  lemma RepackKeepsMapIff(schema: seq<Column>, pages: PageTable, rows: RowMap, id: nat, q: Page)
    requires GoodPages(schema, pages) && IsData(pages, id) && GoodPage(schema, pages[id].value) && MapExact(pages, rows)
    requires Selects(schema, pages[id].value, Live(pages[id].value.slots.value), q)
    ensures MapSound(pages[id := Some(q)], rows) <==> NoGap(pages[id].value.slots.value)
  {
    NoGapIffKept(pages[id].value.slots.value);
    if NoGap(pages[id].value.slots.value) {
      KeptKeepsMap(schema, pages, rows, id, q);
    }
    if MapSound(pages[id := Some(q)], rows) {
      MapKeepsSlots(schema, pages, rows, id, q);
    }
  }

  lemma KeptKeepsMap(schema: seq<Column>, pages: PageTable, rows: RowMap, id: nat, q: Page)
    requires GoodPages(schema, pages) && IsData(pages, id) && GoodPage(schema, pages[id].value) && MapExact(pages, rows)
    requires Selects(schema, pages[id].value, Live(pages[id].value.slots.value), q)
    requires forall k :: 0 <= k < |Live(pages[id].value.slots.value)| ==> Live(pages[id].value.slots.value)[k] == k
    ensures MapSound(pages[id := Some(q)], rows)
  {
    hide Live, GoodPages;
    var after := pages[id := Some(q)];
    forall r | r in rows ensures NamesLive(after, rows[r], r) {
      assert NamesLive(pages, rows[r], r);
      if rows[r].page == id {
        assert rows[r].slot in Live(pages[id].value.slots.value);
      }
    }
  }

  lemma MapKeepsSlots(schema: seq<Column>, pages: PageTable, rows: RowMap, id: nat, q: Page)
    requires GoodPages(schema, pages) && IsData(pages, id) && GoodPage(schema, pages[id].value) && MapExact(pages, rows)
    requires Selects(schema, pages[id].value, Live(pages[id].value.slots.value), q)
    requires MapSound(pages[id := Some(q)], rows)
    ensures forall k :: 0 <= k < |Live(pages[id].value.slots.value)| ==> Live(pages[id].value.slots.value)[k] == k
  {
    hide Live, GoodPages;
    var slots, after := pages[id].value.slots.value, pages[id := Some(q)];
    var live := Live(slots);
    forall k | 0 <= k < |live| ensures live[k] == k {
      var r := slots[live[k]].rowId;
      assert NamesLive(pages, Location(id, live[k]), r);
      assert NamesLive(after, Location(id, live[k]), r);
      assert q.slots.value[live[k]].rowId == slots[live[live[k]]].rowId;
      assert NamesLive(pages, Location(id, live[live[k]]), r);
      assert live[live[k]] == live[k];
    }
  }

  /** Where a row of a repacked page was before. */
  function RepackBack(live: seq<nat>, id: nat, loc: Location): Location
  {
    if loc.page == id && loc.slot < |live| then Location(id, live[loc.slot]) else loc
  }

  lemma RepackTrace(schema: seq<Column>, pages: PageTable, id: nat, q: Page, loc: Location, r: nat)
    requires IsData(pages, id) && GoodPage(schema, pages[id].value)
    requires Selects(schema, pages[id].value, Live(pages[id].value.slots.value), q)
             && NamesLive(pages[id := Some(q)], loc, r)
    ensures NamesLive(pages, RepackBack(Live(pages[id].value.slots.value), id, loc), r)
    ensures loc.page == id ==> loc.slot < |Live(pages[id].value.slots.value)|
  {
    var live := Live(pages[id].value.slots.value);
    if loc.page == id {
      assert q.slots.value[loc.slot] == Moved(pages[id].value.slots.value, live, 0)[loc.slot];
    }
  }

  lemma RepackUnique(schema: seq<Column>, pages: PageTable, id: nat, q: Page)
    requires IsData(pages, id) && GoodPage(schema, pages[id].value)
    requires Selects(schema, pages[id].value, Live(pages[id].value.slots.value), q)
    ensures Unique(pages) ==> Unique(pages[id := Some(q)])
  {
    var live, after := Live(pages[id].value.slots.value), pages[id := Some(q)];
    var back := (loc: Location) => RepackBack(live, id, loc);
    forall loc, r | NamesLive(after, loc, r) ensures NamesLive(pages, back(loc), r) {
      RepackTrace(schema, pages, id, q, loc, r);
    }
    forall a, b, r | NamesLive(after, a, r) && NamesLive(after, b, r) && back(a) == back(b) ensures a == b {
      RepackTrace(schema, pages, id, q, a, r);
      RepackTrace(schema, pages, id, q, b, r);
      RepackBackOnce(live, id, a, b);
    }
    UniqueMoved(pages, after, back);
  }

  lemma RepackBackOnce(live: seq<nat>, id: nat, a: Location, b: Location)
    requires forall j, k :: 0 <= j < k < |live| ==> live[j] < live[k]
    requires RepackBack(live, id, a) == RepackBack(live, id, b)
    requires (a.page == id ==> a.slot < |live|) && (b.page == id ==> b.slot < |live|)
    ensures a == b
  {
  }

  /** What repacking does to a map that was right: it stays right without a gap, and is lost
      with one. */
  lemma RepackDisturbs(schema: seq<Column>, pages: PageTable, rows: RowMap, id: nat, q: Page)
    requires GoodPages(schema, pages) && IsData(pages, id) && GoodPage(schema, pages[id].value)
    requires Selects(schema, pages[id].value, Live(pages[id].value.slots.value), q)
    ensures Undisturbed(pages, rows, pages[id := Some(q)], rows, id)
    ensures MapExact(pages, rows) ==>
      if NoGap(pages[id].value.slots.value) then MapExact(pages[id := Some(q)], rows) else Lost(pages[id := Some(q)],
        rows, {id})
  {
    DataPage(schema, pages, id);
    hide Unique, NoGap, MapSound, MapExact, Lost, Selects, GoodPage, GoodPages;
    RepackUnique(schema, pages, id, q);
    if MapExact(pages, rows) {
      if NoGap(pages[id].value.slots.value) {
        RepackExact(schema, pages, rows, id, q);
      } else {
        RepackLoses(schema, pages, rows, id, q);
      }
    }
  }

  lemma RepackExact(schema: seq<Column>, pages: PageTable, rows: RowMap, id: nat, q: Page)
    requires GoodPages(schema, pages) && IsData(pages, id) && GoodPage(schema, pages[id].value) && MapExact(pages, rows)
    requires Selects(schema, pages[id].value, Live(pages[id].value.slots.value), q)
             && NoGap(pages[id].value.slots.value)
    ensures MapExact(pages[id := Some(q)], rows)
  {
    RepackKeepsMapIff(schema, pages, rows, id, q);
    NoGapIffKept(pages[id].value.slots.value);
    var live, after := Live(pages[id].value.slots.value), pages[id := Some(q)];
    forall loc, r | NamesLive(after, loc, r) ensures r in rows && rows[r] == loc {
      RepackTrace(schema, pages, id, q, loc, r);
      assert RepackBack(live, id, loc) == loc;
    }
  }

  lemma RepackLoses(schema: seq<Column>, pages: PageTable, rows: RowMap, id: nat, q: Page)
    requires GoodPages(schema, pages) && IsData(pages, id) && GoodPage(schema, pages[id].value) && MapExact(pages, rows)
    requires Selects(schema, pages[id].value, Live(pages[id].value.slots.value), q)
             && !NoGap(pages[id].value.slots.value)
    ensures Lost(pages[id := Some(q)], rows, {id})
  {
    var slots, after := pages[id].value.slots.value, pages[id := Some(q)];
    var live := Live(slots);
    NoGapIffKept(slots);
    ExactIsUnique(pages, rows);
    RepackUnique(schema, pages, id, q);
    hide NoGap, Live, Unique;
    var k :| 0 <= k < |live| && live[k] != k;
    var r := slots[live[k]].rowId;
    assert NamesLive(pages, Location(id, live[k]), r);
    assert q.slots.value[k] == Moved(slots, live, 0)[k];
    assert NamesLive(after, Location(id, k), r);
    assert Misnamed(after, rows, {id}, r, k);
  }

  /** One integer column; the first of two rows is deleted, and what repacking makes of it. */
  function OneInt(): seq<Column> { [Column(IntKind, Plain)] }

  function HalfDead(): Page
  {
    Page(Data, Some([Cells(IntKind, Plain, [Int(1), Int(2)])]), Some([Slot(1, 0, 8, false), Slot(2, 1, 8, true)]))
  }

  function Renumbered(): Page { Page(Data, Some([Cells(IntKind, Plain, [Int(2)])]), Some([Slot(2, 0, 8, true)])) }

  function SecondOnly(): RowMap { map[2 := Location(0, 1)] }

  /** Repacking moves the second row to slot 0, while the map goes on saying slot 1. */
  lemma RepackCounterexample()
    ensures GoodPages(OneInt(), [Some(HalfDead())]) && MapExact([Some(HalfDead())], SecondOnly())
    ensures HalfDead().slots.Some? && Live(HalfDead().slots.value) == [1]
            && Selects(OneInt(), HalfDead(), [1], Renumbered())
    ensures !MapSound([Some(HalfDead())][0 := Some(Renumbered())], SecondOnly())
  {
    HalfDeadGood();
    HalfDeadMap();
    TwoLive(HalfDead().slots.value);
    assert Live(HalfDead().slots.value) == [1] by { hide LiveUpTo; }
    RenumberedSelects();
    assert [Some(HalfDead())][0 := Some(Renumbered())] == [Some(Renumbered())];
    assert 2 in SecondOnly() && !NamesLive([Some(Renumbered())], SecondOnly()[2], 2);
    hide *;
  }

  lemma HalfDeadGood()
    ensures GoodPages(OneInt(), [Some(HalfDead())])
  {
  }

  lemma HalfDeadMap()
    ensures MapExact([Some(HalfDead())], SecondOnly())
  {
  }

  lemma RenumberedSelects()
    ensures HalfDead().slots.Some? && |HalfDead().slots.value| == 2 && Selects(OneInt(), HalfDead(), [1], Renumbered())
  {
    assert Moved(HalfDead().slots.value, [1], 0) == Renumbered().slots.value;
    assert Pick([Int(1), Int(2)], [1]) == [Int(2)];
  }

  lemma TwoLive(slots: seq<Slot>)
    requires |slots| == 2 && !slots[0].live && slots[1].live
    ensures LiveUpTo(slots, 2) == [1]
  {
    assert LiveUpTo(slots, 1) == LiveUpTo(slots, 0) + [];
    assert LiveUpTo(slots, 2) == LiveUpTo(slots, 1) + [1];
  }

  /** Two inserts, a delete and a repack lose the map. */
  method RepackLosesMap() returns (db: Database)
    ensures fresh(db) && db.Valid() && !MapSound(db.pages, db.rowMap)
  {
    hide Good, MapSound, MapExact, RowPlaced, NewRow, Bag, Undisturbed, RowsWithout, Lost, NoGap, RepackDone, Selects,
         GoodPage;
    var schema := [Column(IntKind, Plain)];
    db := new Database(schema);
    var first := db.Insert([Null]);
    ghost var pages1, free1, space1, loc1 := db.pages, db.freeIds, db.space, db.rowMap[1];
    FirstPlaced(schema, [Null], 1, pages1, space1, loc1);
    var second := db.Insert([Null]);
    SecondPlaced(schema, [Null], 2, pages1, free1, space1, loc1, db.pages, db.space, db.rowMap[2]);
    db.DeleteRow(1);
    OnlySecond(db.pages, db.rowMap, 2);
    var id := db.rowMap[2].page;
    db.Repack(id);
    LostIsUnsound(db.pages, db.rowMap, {id});
  }

  lemma FirstPlaced(schema: seq<Column>, values: seq<Value>, r: nat, pages: PageTable, space: map<nat, nat>,
          loc: Location)
    requires schema == [Column(IntKind, Plain)] && |values| == 1 && r <= I64_MAX
    requires RowPlaced(schema, [], [], map[], values, r, pages, space, loc)
    ensures space == map[0 := 248] && loc.page == 0 && |pages| == 1 && IsData(pages, 0)
            && GoodPage(schema, pages[0].value)
    ensures |pages[0].value.slots.value| == 1
  {
    var before: PageTable, room: map<nat, nat> :|
      && PageChosen([], [], map[], NeedFor(schema), loc.page, before, room)
      && RowAppended(schema, before, pages, loc, r, values)
      && loc.page in room
      && space == room[loc.page := if room[loc.page] > NeedFor(schema) then room[loc.page] - NeedFor(schema) else 0];
    EightWide(schema);
    hide RowWidth;
  }

  lemma EightWide(schema: seq<Column>)
    requires schema == [Column(IntKind, Plain)]
    ensures NeedFor(schema) == 8
  {
    assert schema[..|schema| - 1] == [] && RowWidth([]) == 0;
  }

  lemma SecondPlaced(schema: seq<Column>, values: seq<Value>, r: nat, pages: PageTable, freeIds: seq<nat>,
          space: map<nat, nat>, loc1: Location, after: PageTable, left: map<nat, nat>, loc: Location)
    requires schema == [Column(IntKind, Plain)] && |values| == 1 && r <= I64_MAX
    requires space == map[0 := 248] && |pages| == 1 && IsData(pages, 0) && GoodPage(schema, pages[0].value)
    requires |pages[0].value.slots.value| == 1
    requires RowPlaced(schema, pages, freeIds, space, values, r, after, left, loc)
    ensures loc == Location(0, 1)
  {
    var before: PageTable, room: map<nat, nat> :|
      && PageChosen(pages, freeIds, space, NeedFor(schema), loc.page, before, room)
      && RowAppended(schema, before, after, loc, r, values)
      && loc.page in room
      && left == room[loc.page := if room[loc.page] > NeedFor(schema) then room[loc.page] - NeedFor(schema) else 0];
    EightWide(schema);
    hide RowWidth;
    assert 0 in space && space[0] >= 8;
  }

  lemma OnlySecond(pages: PageTable, rows: RowMap, r: nat)
    requires MapExact(pages, rows) && rows.Keys == {r} && rows[r] == Location(0, 1)
    ensures IsData(pages, 0) && pages[0].value.slots.Some? && !NoGap(pages[0].value.slots.value)
  {
    assert NamesLive(pages, rows[r], r);
    var slots := pages[0].value.slots.value;
    assert slots[1].live;
    if slots[0].live {
      assert NamesLive(pages, Location(0, 0), slots[0].rowId);
    }
  }

  /** A given id that is taken: the older row stays live, but the map no longer names it. */
  method TakenIdLosesRow() returns (db: Database)
    ensures fresh(db) && db.Valid() && MapSound(db.pages, db.rowMap) && !MapExact(db.pages, db.rowMap)
  {
    hide Good, MapSound, MapExact, RowPlaced, NewRow, Bag;
    db := new Database([Column(IntKind, Plain)]);
    ExactIsSound(db.pages, db.rowMap);
    var first := db.Insert([Int(1)]);
    var second := db.Insert([Int(1)]);
  }
}
