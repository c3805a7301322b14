/** Data pages: columnar regions with a slot directory (src/pager.rs, lines 88-208;
    src/format.rs, lines 58-193), and selecting rows of a page (src/compact.rs). */
module Pages {
  import opened Options
  import opened Doubles
  import opened Integers
  import opened Values
  import opened Runs

  datatype ColKind = BoolKind | IntKind | RealKind | TextKind

  datatype Encoding = Plain | Dictionary | Rle

  datatype Column = Column(kind: ColKind, encoding: Encoding)

  /** A column's region: its cells one by one, or its runs. */
  datatype Region =
    | Cells(kind: ColKind, encoding: Encoding, cells: seq<Value>)
    | RunList(kind: ColKind, runs: seq<Run>)

  datatype Slot = Slot(rowId: nat, off: nat, len: nat, live: bool)

  datatype PageKind = Data | Other

  /** A page; `body` is absent while its buffer is empty, `slots` before it has a
      directory. */
  datatype Page = Page(kind: PageKind, body: Option<seq<Region>>, slots: Option<seq<Slot>>)

  datatype Row = Row(id: nat, values: seq<Value>)

  // ----- cells -----------------------------------------------------------------------

  function CellWidth(kind: ColKind): nat
  {
    match kind
    case BoolKind => 1
    case IntKind => 8
    case RealKind => 8
    case TextKind => 4
  }

  function RunWidth(kind: ColKind): nat { CellWidth(kind) + 4 }

  function KindMatches(kind: ColKind, v: Value): bool
  {
    match kind
    case BoolKind => v.Bool?
    case IntKind => v.Int?
    case RealKind => v.Real?
    case TextKind => v.Text?
  }

  /** What a plain cell reads back as (src/format.rs, lines 94-108 and 119-137): nulls and
      values of another kind become zero, integers widen in real columns. */
  function Stored(kind: ColKind, v: Value): (r: Value)
    ensures KindMatches(kind, r) && (KindMatches(kind, v) ==> r == v)
  {
    match (kind, v)
    case (BoolKind, Bool(b)) => v
    case (BoolKind, _) => Bool(false)
    case (IntKind, Int(i)) => v
    case (IntKind, _) => Int(0)
    case (RealKind, Real(r)) => v
    case (RealKind, Int(i)) => Real(ToDouble(i))
    case (RealKind, _) => Real(0.0)
    case (TextKind, Text(id)) => v
    case (TextKind, _) => Text(0)
  }

  /** What a column keeps of an inserted value. */
  function Kept(col: Column, v: Value): Value
  {
    if col.encoding.Rle? then v else Stored(col.kind, v)
  }

  /** Some column keeps runs. */
  ghost predicate HasRle(schema: seq<Column>)
  {
    exists c :: 0 <= c < |schema| && schema[c].encoding.Rle?
  }

  function EmptyRegion(col: Column): Region
  {
    if col.encoding.Rle? then RunList(col.kind, []) else Cells(col.kind, col.encoding, [])
  }

  function FreshBody(schema: seq<Column>): seq<Region>
  {
    seq(|schema|, i requires 0 <= i < |schema| => EmptyRegion(schema[i]))
  }

  /** The column's values, slot by slot. */
  function CellsOf(r: Region): seq<Value>
  {
    match r
    case Cells(_, _, cells) => cells
    case RunList(_, runs) => Flat(runs)
  }

  /** A region of the column's kind and encoding, with values of that kind only and no
      empty run. */
  ghost predicate Fits(col: Column, r: Region)
  {
    && r.kind == col.kind
    && (r.Cells? ==> r.encoding == col.encoding && !r.encoding.Rle?)
    && (r.RunList? ==> col.encoding.Rle? && Positive(r.runs))
    && Typed(col.kind, CellsOf(r))
  }

  ghost predicate Typed(kind: ColKind, values: seq<Value>)
  {
    forall i :: 0 <= i < |values| ==> KindMatches(kind, values[i])
  }

  lemma TypedConcat(kind: ColKind, a: seq<Value>, b: seq<Value>)
    requires Typed(kind, a) && Typed(kind, b)
    ensures Typed(kind, a + b)
  {
  }

  /** Lines 112-152 of src/format.rs; past the end a cell reads as null. */
  method ReadCell(r: Region, slot: nat) returns (v: Value)
    ensures v == if slot < |CellsOf(r)| then CellsOf(r)[slot] else Null
  {
    match r {
      case Cells(_, _, cells) =>
        return if slot < |cells| then cells[slot] else Null;
      case RunList(_, runs) =>
        var pos: nat := 0;
        for i := 0 to |runs|
          invariant pos == |Flat(runs[..i])| <= slot
        {
          FlatTake(runs, i);
          if slot < pos + runs[i].count {
            FlatConcat(runs[..i + 1], runs[i + 1..]);
            assert runs[..i + 1] + runs[i + 1..] == runs;
            return runs[i].value;
          }
          pos := pos + runs[i].count;
        }
        assert runs[..|runs|] == runs;
        return Null;
    }
  }

  /** src/mutation.rs, lines 169-181. */
  method AppendCell(r: Region, v: Value, ghost col: Column) returns (s: Region)
    requires Fits(col, r) && (col.encoding.Rle? ==> KindMatches(col.kind, v) && |CellsOf(r)| < U32_MAX)
    ensures Fits(col, s) && CellsOf(s) == CellsOf(r) + [Kept(col, v)]
  {
    TypedConcat(col.kind, CellsOf(r), [Kept(col, v)]);
    match r {
      case Cells(kind, encoding, cells) =>
        s := Cells(kind, encoding, cells + [Stored(kind, v)]);
      case RunList(kind, runs) =>
        FlatSnoc(runs, Run(v, 1));
        assert Repeat(v, 1) == [v];
        assert Positive(runs + [Run(v, 1)]);
        FewAreCountable(runs + [Run(v, 1)]);
        var coalesced := Coalesce(runs + [Run(v, 1)]);
        s := RunList(kind, coalesced);
    }
  }

  /** The values at some slots. */
  function Pick(values: seq<Value>, indices: seq<nat>): (r: seq<Value>)
    ensures |r| == |indices|
    ensures forall k :: 0 <= k < |indices| ==> r[k] == if indices[k] < |values| then values[indices[k]] else Null
  {
    seq(|indices|, k requires 0 <= k < |indices| => if indices[k] < |values| then values[indices[k]] else Null)
  }

  /** src/compact.rs, lines 131-157 and 235-256: the region of the selected slots. */
  method SelectRegion(r: Region, indices: seq<nat>, ghost col: Column) returns (s: Region)
    requires Fits(col, r) && (forall k :: 0 <= k < |indices| ==> indices[k] < |CellsOf(r)|)
             && (col.encoding.Rle? ==> |indices| <= U32_MAX)
    ensures Fits(col, s) && CellsOf(s) == Pick(CellsOf(r), indices)
  {
    match r {
      case Cells(kind, encoding, cells) =>
        var kept := PickCells(cells, indices);
        PickTyped(kind, cells, indices);
        s := Cells(kind, encoding, kept);
      case RunList(kind, runs) =>
        var flat := Materialize(runs);
        var kept := PickValues(flat, indices);
        PickTyped(kind, flat, indices);
        FlatSingles(kept);
        FewAreCountable(Singles(kept));
        var coalesced := Coalesce(Singles(kept));
        s := RunList(kind, coalesced);
    }
  }

  method PickCells(cells: seq<Value>, indices: seq<nat>) returns (kept: seq<Value>)
    requires forall k :: 0 <= k < |indices| ==> indices[k] < |cells|
    ensures kept == Pick(cells, indices)
  {
    kept := [];
    for k := 0 to |indices|
      invariant kept == Pick(cells, indices[..k])
    {
      if indices[k] < |cells| {
        kept := kept + [cells[indices[k]]];
      }
    }
    assert indices[..|indices|] == indices;
  }

  method PickValues(flat: seq<Value>, indices: seq<nat>) returns (kept: seq<Value>)
    ensures kept == Pick(flat, indices)
  {
    kept := [];
    for k := 0 to |indices|
      invariant kept == Pick(flat, indices[..k])
    {
      kept := kept + [if indices[k] < |flat| then flat[indices[k]] else Null];
    }
    assert indices[..|indices|] == indices;
  }

  lemma PickTyped(kind: ColKind, values: seq<Value>, indices: seq<nat>)
    requires Typed(kind, values) && forall k :: 0 <= k < |indices| ==> indices[k] < |values|
    ensures Typed(kind, Pick(values, indices))
  {
  }

  /** src/compact.rs, lines 283-303: another region's selected cells after these. */
  method ExtendRegion(r: Region, src: Region, indices: seq<nat>, ghost col: Column) returns (s: Region)
    requires Fits(col, r) && Fits(col, src) && forall k :: 0 <= k < |indices| ==> indices[k] < |CellsOf(src)|
    requires col.encoding.Rle? ==> |CellsOf(r)| + |indices| <= U32_MAX
    ensures Fits(col, s) && CellsOf(s) == CellsOf(r) + Pick(CellsOf(src), indices)
  {
    var selected := SelectRegion(src, indices, col);
    TypedConcat(col.kind, CellsOf(r), CellsOf(selected));
    match selected {
      case Cells(kind, encoding, cells) =>
        s := Cells(kind, encoding, r.cells + cells);
      case RunList(kind, runs) =>
        var existing := Materialize(r.runs);
        var more := Materialize(runs);
        FlatSingles(existing + more);
        FewAreCountable(Singles(existing + more));
        assert Positive(Singles(existing + more));
        var coalesced := Coalesce(Singles(existing + more));
        s := RunList(kind, coalesced);
    }
  }

  /** The encoded length of a region's data, and of a page body (src/format.rs, lines
      155-166). */
  function RegionLen(r: Region): nat
  {
    match r
    case Cells(kind, _, cells) => |cells| * CellWidth(kind)
    case RunList(kind, runs) => |runs| * RunWidth(kind)
  }

  function BodyLen(body: seq<Region>): nat
  {
    if body == [] then 8 else BodyLen(body[..|body| - 1]) + 6 + RegionLen(body[|body| - 1])
  }

  // ----- pages -----------------------------------------------------------------------

  /** A data page in order: regions for the schema's columns, each with one cell for
      every slot, and every slot at its own offset. */
  ghost predicate GoodPage(schema: seq<Column>, p: Page)
  {
    && p.kind.Data? && p.body.Some? && p.slots.Some? && |p.body.value| == |schema|
    && (forall c :: 0 <= c < |schema| ==>
      Fits(schema[c], p.body.value[c]) && |CellsOf(p.body.value[c])| == |p.slots.value|)
    && (forall i :: 0 <= i < |p.slots.value| ==> p.slots.value[i].off == i)
  }

  /** The row at a slot. */
  ghost function RowAt(p: Page, i: nat): Row
    requires p.body.Some? && p.slots.Some? && i < |p.slots.value|
  {
    var body := p.body.value;
    Row(p.slots.value[i].rowId, seq(|body|,
      c requires 0 <= c < |body| => if i < |CellsOf(body[c])| then CellsOf(body[c])[i] else Null))
  }

  /** The live rows among the first `n` slots, in slot order. */
  ghost function RowsUpTo(p: Page, n: nat): seq<Row>
    requires p.body.Some? && p.slots.Some? && n <= |p.slots.value|
  {
    if n == 0 then []
    else RowsUpTo(p, n - 1) + if p.slots.value[n - 1].live then [RowAt(p, n - 1)] else []
  }

  /** What a scan reads from a page (src/query.rs, lines 53-75). */
  ghost function PageRows(p: Page): seq<Row>
  {
    if p.kind.Data? && p.body.Some? && p.slots.Some? then RowsUpTo(p, |p.slots.value|) else []
  }

  ghost function RowsAt(p: Page, indices: seq<nat>): (r: seq<Row>)
    requires p.body.Some? && p.slots.Some? && forall k :: 0 <= k < |indices| ==> indices[k] < |p.slots.value|
    ensures |r| == |indices| && forall k :: 0 <= k < |indices| ==> r[k] == RowAt(p, indices[k])
  {
    seq(|indices|, k requires 0 <= k < |indices| => RowAt(p, indices[k]))
  }

  /** The positions of the live slots among the first `n`, ascending. */
  function LiveUpTo(slots: seq<Slot>, n: nat): (r: seq<nat>)
    requires n <= |slots|
    ensures forall k :: 0 <= k < |r| ==> r[k] < n && slots[r[k]].live
    ensures forall j, k :: 0 <= j < k < |r| ==> r[j] < r[k]
    ensures forall i :: 0 <= i < n && slots[i].live ==> i in r
    ensures |r| <= n
  {
    if n == 0 then []
    else LiveUpTo(slots, n - 1) + if slots[n - 1].live then [n - 1] else []
  }

  function Live(slots: seq<Slot>): (r: seq<nat>)
    ensures forall k :: 0 <= k < |r| ==> r[k] < |slots| && slots[r[k]].live
    ensures forall j, k :: 0 <= j < k < |r| ==> r[j] < r[k]
    ensures forall i :: 0 <= i < |slots| && slots[i].live ==> i in r
    ensures |r| <= |slots|
  {
    LiveUpTo(slots, |slots|)
  }

  lemma {:induction false} RowsUpToLive(p: Page, n: nat)
    requires p.body.Some? && p.slots.Some? && n <= |p.slots.value|
    ensures RowsUpTo(p, n) == RowsAt(p, LiveUpTo(p.slots.value, n))
  {
    if n > 0 {
      RowsUpToLive(p, n - 1);
    }
  }

  /** Every slot is live: every position is. */
  lemma {:induction false} AllLive(slots: seq<Slot>, n: nat)
    requires n <= |slots| && forall i :: 0 <= i < n ==> slots[i].live
    ensures |LiveUpTo(slots, n)| == n && forall k :: 0 <= k < n ==> LiveUpTo(slots, n)[k] == k
  {
    if n > 0 {
      AllLive(slots, n - 1);
    }
  }

  /** Slots for the selected rows, moved to positions from `start` on. */
  function Moved(slots: seq<Slot>, indices: seq<nat>, start: nat): (r: seq<Slot>)
    requires forall k :: 0 <= k < |indices| ==> indices[k] < |slots|
    ensures |r| == |indices|
    ensures forall k :: 0 <= k < |r| ==> r[k] == Slot(slots[indices[k]].rowId, start + k, slots[indices[k]].len, true)
  {
    seq(|indices|, k requires 0 <= k < |indices| => Slot(slots[indices[k]].rowId, start + k,
      slots[indices[k]].len, true))
  }

  /** `q` holds the rows of `p` at the given slots, all live, in order. */
  ghost predicate Selects(schema: seq<Column>, p: Page, indices: seq<nat>, q: Page)
    requires p.body.Some? && p.slots.Some? && forall k :: 0 <= k < |indices| ==> indices[k] < |p.slots.value|
  {
    GoodPage(schema, q) && q.slots.value == Moved(p.slots.value, indices, 0)
    && forall c :: 0 <= c < |schema| && c < |p.body.value| ==>
      CellsOf(q.body.value[c]) == Pick(CellsOf(p.body.value[c]), indices)
  }

  method SelectBody(schema: seq<Column>, body: seq<Region>, indices: seq<nat>, ghost n: nat) returns (out: seq<Region>)
    requires |body| == |schema| && forall c :: 0 <= c < |schema| ==> Fits(schema[c], body[c]) && |CellsOf(body[c])| == n
    requires (forall k :: 0 <= k < |indices| ==> indices[k] < n) && (HasRle(schema) ==> |indices| <= U32_MAX)
    ensures |out| == |schema|
    ensures forall c :: 0 <= c < |schema| ==>
            Fits(schema[c], out[c]) && CellsOf(out[c]) == Pick(CellsOf(body[c]), indices)
  {
    hide Fits, CellsOf, Pick;
    out := [];
    for c := 0 to |body|
      invariant |out| == c
      invariant forall d :: 0 <= d < c ==> Fits(schema[d], out[d]) && CellsOf(out[d]) == Pick(CellsOf(body[d]), indices)
    {
      var s := SelectRegion(body[c], indices, schema[c]);
      out := out + [s];
    }
  }

  /** A page of selected rows scans as those rows. */
  lemma SelectedRows(schema: seq<Column>, p: Page, indices: seq<nat>, q: Page)
    requires GoodPage(schema, p) && (forall k :: 0 <= k < |indices| ==> indices[k] < |p.slots.value|)
    requires Selects(schema, p, indices, q)
    ensures PageRows(q) == RowsAt(p, indices)
  {
    var n := |q.slots.value|;
    AllLive(q.slots.value, n);
    RowsUpToLive(q, n);
    var rows := RowsAt(q, LiveUpTo(q.slots.value, n));
    forall k | 0 <= k < n ensures rows[k] == RowAt(p, indices[k]) {
      assert RowAt(q, k).values == RowAt(p, indices[k]).values;
    }
  }

  /** Keeping all the live rows keeps what a scan reads. */
  lemma CompactedRows(schema: seq<Column>, p: Page, q: Page)
    requires GoodPage(schema, p) && Selects(schema, p, Live(p.slots.value), q)
    ensures PageRows(q) == PageRows(p)
  {
    SelectedRows(schema, p, Live(p.slots.value), q);
    RowsUpToLive(p, |p.slots.value|);
  }

  lemma RowsAtConcat(p: Page, a: seq<nat>, b: seq<nat>)
    requires p.body.Some? && p.slots.Some?
    requires forall k :: 0 <= k < |a| ==> a[k] < |p.slots.value|
    requires forall k :: 0 <= k < |b| ==> b[k] < |p.slots.value|
    ensures RowsAt(p, a + b) == RowsAt(p, a) + RowsAt(p, b)
  {
  }

  /** The two halves of a split scan as the whole page did. */
  lemma SplitRows(schema: seq<Column>, p: Page, mid: nat, left: Page, right: Page)
    requires GoodPage(schema, p) && mid <= |Live(p.slots.value)|
    requires Selects(schema, p, Live(p.slots.value)[..mid], left)
             && Selects(schema, p, Live(p.slots.value)[mid..], right)
    ensures PageRows(left) + PageRows(right) == PageRows(p)
  {
    hide *;
    LiveRows(schema, p);
    var live := Live(p.slots.value);
    SelectedRows(schema, p, live[..mid], left);
    SelectedRows(schema, p, live[mid..], right);
    RowsAtConcat(p, live[..mid], live[mid..]);
    assert live[..mid] + live[mid..] == live;
  }

  lemma LiveRows(schema: seq<Column>, p: Page)
    requires GoodPage(schema, p)
    ensures p.body.Some? && p.slots.Some? && PageRows(p) == RowsAt(p, Live(p.slots.value))
  {
    RowsUpToLive(p, |p.slots.value|);
  }

  /** `q` is `p` with the selected rows of `src` after its own. */
  ghost predicate Extends(schema: seq<Column>, p: Page, src: Page, indices: seq<nat>, q: Page)
    requires GoodPage(schema, p) && GoodPage(schema, src) && forall k :: 0 <= k < |indices| ==>
             indices[k] < |src.slots.value|
  {
    && GoodPage(schema, q) && q.slots.value == p.slots.value + Moved(src.slots.value, indices, |p.slots.value|)
    && forall c :: 0 <= c < |schema| ==>
      CellsOf(q.body.value[c]) == CellsOf(p.body.value[c]) + Pick(CellsOf(src.body.value[c]), indices)
  }

  lemma {:induction false} PrefixRows(p: Page, q: Page, n: nat)
    requires p.body.Some? && p.slots.Some? && q.body.Some? && q.slots.Some? && n <= |p.slots.value|
             && n <= |q.slots.value|
    requires forall i :: 0 <= i < n ==> q.slots.value[i].live == p.slots.value[i].live && RowAt(q, i) == RowAt(p, i)
    ensures RowsUpTo(q, n) == RowsUpTo(p, n)
  {
    if n > 0 {
      PrefixRows(p, q, n - 1);
    }
  }

  ghost predicate HasRow(q: Page, i: nat, row: Row)
  {
    q.body.Some? && q.slots.Some? && i < |q.slots.value| && q.slots.value[i].live && RowAt(q, i) == row
  }

  lemma {:induction false} SuffixRows(q: Page, start: nat, rows: seq<Row>, n: nat)
    requires q.body.Some? && q.slots.Some? && start + n <= |q.slots.value| && n <= |rows|
    requires forall k {:trigger rows[k]} :: 0 <= k < n ==> HasRow(q, start + k, rows[k])
    ensures RowsUpTo(q, start + n) == RowsUpTo(q, start) + rows[..n]
  {
    if n > 0 {
      SuffixRows(q, start, rows, n - 1);
      assert HasRow(q, start + (n - 1), rows[n - 1]);
      assert rows[..n] == rows[..n - 1] + [rows[n - 1]];
    }
  }

  /** A merged page scans as its own rows and then the moved ones. */
  lemma ExtendedRows(schema: seq<Column>, p: Page, src: Page, indices: seq<nat>, q: Page)
    requires GoodPage(schema, p) && GoodPage(schema, src)
             && (forall k :: 0 <= k < |indices| ==> indices[k] < |src.slots.value|)
    requires Extends(schema, p, src, indices, q)
    ensures PageRows(q) == PageRows(p) + RowsAt(src, indices)
  {
    hide GoodPage, Extends, RowAt, CellsOf, Fits, RowsUpTo;
    ExtendedParts(schema, p, src, indices, q);
    var n, rows := |p.slots.value|, RowsAt(src, indices);
    forall i | 0 <= i < n ensures q.slots.value[i].live == p.slots.value[i].live && RowAt(q, i) == RowAt(p, i) {
      ExtendedOld(schema, p, src, indices, q, i);
    }
    PrefixRows(p, q, n);
    forall k | 0 <= k < |rows| ensures HasRow(q, n + k, rows[k]) {
      ExtendedNew(schema, p, src, indices, q, k);
    }
    SuffixRows(q, n, rows, |rows|);
    assert rows[..|rows|] == rows;
  }

  lemma ExtendedParts(schema: seq<Column>, p: Page, src: Page, indices: seq<nat>, q: Page)
    requires GoodPage(schema, p) && GoodPage(schema, src)
             && (forall k :: 0 <= k < |indices| ==> indices[k] < |src.slots.value|)
    requires Extends(schema, p, src, indices, q)
    ensures p.body.Some? && p.slots.Some? && src.body.Some? && src.slots.Some? && q.body.Some? && q.slots.Some?
    ensures |q.slots.value| == |p.slots.value| + |indices|
    ensures PageRows(p) == RowsUpTo(p, |p.slots.value|) && PageRows(q) == RowsUpTo(q, |q.slots.value|)
  {
    hide RowsUpTo;
  }

  lemma ExtendedOld(schema: seq<Column>, p: Page, src: Page, indices: seq<nat>, q: Page, i: nat)
    requires GoodPage(schema, p) && GoodPage(schema, src)
             && (forall k :: 0 <= k < |indices| ==> indices[k] < |src.slots.value|)
    requires Extends(schema, p, src, indices, q) && i < |p.slots.value|
    ensures q.slots.value[i] == p.slots.value[i] && RowAt(q, i) == RowAt(p, i)
  {
    assert RowAt(q, i).values == RowAt(p, i).values;
  }

  lemma ExtendedNew(schema: seq<Column>, p: Page, src: Page, indices: seq<nat>, q: Page, k: nat)
    requires GoodPage(schema, p) && GoodPage(schema, src)
             && (forall j :: 0 <= j < |indices| ==> indices[j] < |src.slots.value|)
    requires Extends(schema, p, src, indices, q) && k < |indices|
    ensures var n := |p.slots.value|;
            n + k < |q.slots.value| && q.slots.value[n + k].live && RowAt(q, n + k) == RowAt(src, indices[k])
  {
    var n := |p.slots.value|;
    assert q.slots.value[n + k] == Moved(src.slots.value, indices, n)[k];
    assert RowAt(q, n + k).values == RowAt(src, indices[k]).values;
  }

  // ----- slots that keep their numbers --------------------------------------------------

  /** No live slot follows a tombstone. */
  ghost predicate NoGap(slots: seq<Slot>)
  {
    forall i, j :: 0 <= i < j < |slots| && slots[j].live ==> slots[i].live
  }

  /** Compacting leaves every live slot its number exactly when no live slot follows a
      tombstone. */
  lemma NoGapIffKept(slots: seq<Slot>)
    ensures NoGap(slots) <==> forall k :: 0 <= k < |Live(slots)| ==> Live(slots)[k] == k
  {
    var live := Live(slots);
    if NoGap(slots) {
      KeptUpTo(slots, |slots|);
    }
    if forall k :: 0 <= k < |live| ==> live[k] == k {
      forall i, j | 0 <= i < j < |slots| && slots[j].live ensures slots[i].live {
        var k :| 0 <= k < |live| && live[k] == j;
        assert live[i] == i;
      }
    }
  }

  lemma {:induction false} KeptUpTo(slots: seq<Slot>, n: nat)
    requires NoGap(slots) && n <= |slots|
    ensures forall k :: 0 <= k < |LiveUpTo(slots, n)| ==> LiveUpTo(slots, n)[k] == k
  {
    if n > 0 {
      KeptUpTo(slots, n - 1);
      if slots[n - 1].live {
        AllLive(slots, n - 1);
      }
    }
  }
}
