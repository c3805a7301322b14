/** Rewriting single cells of data pages (src/mutation.rs, lines 297-343). */
module CellUpdates {
  import opened Integers
  import opened Options
  import opened Values
  import opened Comparisons
  import opened Runs
  import opened Pages

  /** Lines 313-334: one cell of a region. */
  method SetCell(r: Region, slot: nat, v: Value, ghost col: Column) returns (s: Region)
    requires Fits(col, r) && (col.encoding.Rle? ==> KindMatches(col.kind, v) && |CellsOf(r)| <= U32_MAX)
    ensures Fits(col, s)
    ensures CellsOf(s) == if slot < |CellsOf(r)| then CellsOf(r)[slot := Kept(col, v)] else CellsOf(r)
  {
    match r {
      case Cells(kind, encoding, cells) =>
        s := if slot < |cells| then Cells(kind, encoding, cells[slot := Stored(kind, v)]) else r;
      case RunList(kind, runs) =>
        var flat := Materialize(runs);
        if slot < |flat| {
          flat := flat[slot := v];
        }
        FlatSingles(flat);
        FewAreCountable(Singles(flat));
        assert Positive(Singles(flat));
        var coalesced := Coalesce(Singles(flat));
        s := RunList(kind, coalesced);
    }
  }

  /** The page with one cell rewritten. */
  ghost predicate CellSet(p: Page, q: Page, slot: nat, col: nat, w: Value)
    requires p.body.Some?
  {
    && q.kind == p.kind && q.slots == p.slots && q.body.Some? && |q.body.value| == |p.body.value|
    && forall c :: 0 <= c < |p.body.value| ==>
      CellsOf(q.body.value[c]) ==
      if c == col && slot < |CellsOf(p.body.value[c])| then CellsOf(p.body.value[c])[slot := w]
      else CellsOf(p.body.value[c])
  }

  method RewriteRegion(schema: seq<Column>, p: Page, slot: nat, col: nat, v: Value) returns (q: Page)
    requires GoodPage(schema, p) && col < |schema| && (schema[col].encoding.Rle? ==> KindMatches(schema[col].kind, v))
    requires HasRle(schema) ==> |p.slots.value| <= U32_MAX
    ensures GoodPage(schema, q) && CellSet(p, q, slot, col, Kept(schema[col], v))
  {
    hide CellsOf, Fits;
    var body := p.body.value;
    var s := SetCell(body[col], slot, v, schema[col]);
    q := p.(body := Some(body[col := s]));
  }

  // ----- rows ----------------------------------------------------------------------------

  predicate RowMatches(row: Row, col: nat, op: CmpOp, target: Value)
  {
    col < |row.values| && Apply(op, row.values[col], target)
  }

  /** In a column of integers a row matches if the operator says so of the numbers. */
  lemma IntsMatch(col: nat, op: CmpOp, y: I64)
    ensures forall row: Row :: col < |row.values| && row.values[col].Int? ==>
              (RowMatches(row, col, op, Int(y)) <==> Says(op, row.values[col].i, y))
  {
    forall row: Row | col < |row.values| && row.values[col].Int?
      ensures RowMatches(row, col, op, Int(y)) <==> Says(op, row.values[col].i, y)
    {
      IntsCompare(row.values[col].i, y);
    }
  }

  function RowSet(row: Row, col: nat, w: Value): Row
  {
    if col < |row.values| then Row(row.id, row.values[col := w]) else row
  }

  /** The rows with column `col` of those that match set to `w`. */
  function Updated(rows: seq<Row>, col: nat, w: Value, tested: nat, op: CmpOp, target: Value): (r: seq<Row>)
    ensures |r| == |rows|
  {
    seq(|rows|, i requires 0 <= i < |rows| => if RowMatches(rows[i], tested, op, target) then RowSet(rows[i], col,
      w) else rows[i])
  }

  /** In a column of integers the rows set to `w` are those of whose numbers the operator says so. */
  ghost predicate IntsUpdated(rows: seq<Row>, after: seq<Row>, col: nat, w: Value, tested: nat, op: CmpOp, y: I64)
  {
    |after| == |rows| && forall k :: 0 <= k < |rows| && tested < |rows[k].values| && rows[k].values[tested].Int? ==>
      after[k] == if Says(op, rows[k].values[tested].i, y) then RowSet(rows[k], col, w) else rows[k]
  }

  lemma UpdatedInts(col: nat, w: Value, tested: nat, op: CmpOp, y: I64)
    ensures forall rows: seq<Row> :: IntsUpdated(rows, Updated(rows, col, w, tested, op, Int(y)), col, w, tested, op, y)
  {
    hide Says, RowMatches;
    IntsMatch(tested, op, y);
  }

  /** The page with column `col` of some slots set to `w`. */
  ghost predicate Rewritten(p: Page, q: Page, hits: set<nat>, col: nat, w: Value)
  {
    && p.body.Some? && q.kind == p.kind && q.slots == p.slots && q.body.Some? && |q.body.value| == |p.body.value|
    && forall c :: 0 <= c < |p.body.value| ==>
      ColumnRewritten(CellsOf(p.body.value[c]), CellsOf(q.body.value[c]), if c == col then hits else {}, w)
  }

  ghost predicate ColumnRewritten(cells: seq<Value>, after: seq<Value>, hits: set<nat>, w: Value)
  {
    |after| == |cells| && forall i :: 0 <= i < |cells| ==> after[i] == if i in hits then w else cells[i]
  }

  lemma NoneRewritten(p: Page, col: nat, w: Value)
    requires p.body.Some?
    ensures Rewritten(p, p, {}, col, w)
  {
  }

  lemma OneMoreRewritten(p: Page, q: Page, r: Page, hits: set<nat>, slot: nat, col: nat, w: Value)
    requires Rewritten(p, q, hits, col, w) && CellSet(q, r, slot, col, w)
    ensures Rewritten(p, r, hits + {slot}, col, w)
  {
    hide CellsOf;
  }

  /** The slots hit are those whose rows match. */
  ghost predicate HitsMatch(p: Page, hits: set<nat>, tested: nat, op: CmpOp, target: Value)
  {
    && p.body.Some? && p.slots.Some?
    && (forall c :: 0 <= c < |p.body.value| ==> |CellsOf(p.body.value[c])| == |p.slots.value|)
    && (forall i :: 0 <= i < |p.slots.value| && p.slots.value[i].live ==>
      (i in hits <==> RowMatches(RowAt(p, i), tested, op, target)))
  }

  /** ... so a scan reads the updated rows. */
  lemma {:induction false} RewrittenRows(p: Page, q: Page, hits: set<nat>, col: nat, w: Value, tested: nat, op: CmpOp,
          target: Value, n: nat)
    requires Rewritten(p, q, hits, col, w) && HitsMatch(p, hits, tested, op, target) && n <= |p.slots.value|
    ensures q.slots == p.slots && q.body.Some?
    ensures RowsUpTo(q, n) == Updated(RowsUpTo(p, n), col, w, tested, op, target)
  {
    if n > 0 {
      RewrittenRows(p, q, hits, col, w, tested, op, target, n - 1);
      NextRewritten(p, q, hits, col, w, tested, op, target, n - 1);
      hide Rewritten, HitsMatch, RowAt, Updated;
    } else {
      assert RowsUpTo(p, 0) == [] && RowsUpTo(q, 0) == [];
    }
  }

  lemma NextRewritten(p: Page, q: Page, hits: set<nat>, col: nat, w: Value, tested: nat, op: CmpOp, target: Value,
          i: nat)
    requires Rewritten(p, q, hits, col, w) && HitsMatch(p, hits, tested, op, target) && i < |p.slots.value|
    ensures q.slots == p.slots && q.body.Some?
    ensures p.slots.value[i].live ==> forall rows: seq<Row> ::
      Updated(rows + [RowAt(p, i)], col, w, tested, op, target)
        == Updated(rows, col, w, tested, op, target) + [RowAt(q, i)]
  {
    if p.slots.value[i].live {
      RewrittenRow(p, q, hits, col, w, i);
      hide RowAt, RowMatches, RowSet, Rewritten, CellsOf;
      var row, after := RowAt(p, i), RowAt(q, i);
      assert after == if RowMatches(row, tested, op, target) then RowSet(row, col, w) else row;
      hide HitsMatch;
      forall rows: seq<Row>
        ensures Updated(rows + [row], col, w, tested, op, target) == Updated(rows, col, w, tested, op, target) + [after]
      {
        UpdatedSnoc(rows, row, col, w, tested, op, target);
      }
    }
  }

  lemma UpdatedSnoc(rows: seq<Row>, row: Row, col: nat, w: Value, tested: nat, op: CmpOp, target: Value)
    ensures Updated(rows + [row], col, w, tested, op, target)
         == Updated(rows, col, w, tested, op, target)
           + [if RowMatches(row, tested, op, target) then RowSet(row, col, w) else row]
  {
    hide RowMatches, RowSet;
  }

  lemma RewrittenRow(p: Page, q: Page, hits: set<nat>, col: nat, w: Value, i: nat)
    requires Rewritten(p, q, hits, col, w) && p.slots.Some? && i < |p.slots.value|
    requires forall c :: 0 <= c < |p.body.value| ==> |CellsOf(p.body.value[c])| == |p.slots.value|
    ensures RowAt(q, i) == if i in hits then RowSet(RowAt(p, i), col, w) else RowAt(p, i)
  {
    hide CellsOf;
    var expected := if i in hits then RowSet(RowAt(p, i), col, w) else RowAt(p, i);
    forall c | 0 <= c < |p.body.value| ensures RowAt(q, i).values[c] == expected.values[c] {
      assert ColumnRewritten(CellsOf(p.body.value[c]), CellsOf(q.body.value[c]), if c == col then hits else {}, w);
    }
    assert RowAt(q, i).values == expected.values;
  }
}
