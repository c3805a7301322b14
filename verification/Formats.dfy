/** The bytes of data pages: cells, runs, page bodies and slot directories (src/format.rs,
    lines 84-228; src/rle.rs, lines 31-91). Storage works on the decoded forms. */
module Formats {
  import opened Integers
  import opened Options
  import opened Values
  import opened Doubles
  import opened Bytes
  import opened Runs
  import opened Pages

  datatype DecodeError = Truncated | BadSchema | BadEncoding

  // ----- values ------------------------------------------------------------------------

  /** Which bits stand for which real is left open. */
  datatype DoubleBits = DoubleBits(bits: real -> U64, value: U64 -> real)
  {
    /** The real is a double: its bits stand for it. */
    predicate IsDouble(r: real)
    {
      value(bits(r)) == r
    }
  }

  /** Text values are 32-bit dictionary ids, and reals are doubles. */
  predicate Storable(f: DoubleBits, kind: ColKind, v: Value)
  {
    KindMatches(kind, v) && (v.Real? ==> f.IsDouble(v.r)) && (v.Text? ==> v.id < U32_LIMIT)
  }

  /** The bytes of a value of the column's kind. */
  function ValueBytes(f: DoubleBits, v: Value): Buffer
  {
    match v
    case Bool(b) => [if b then 1 else 0]
    case Int(i) => LeI64(i)
    case Real(r) => Le(f.bits(r), 8)
    case Text(id) => Le(id, 4)
    case _ => Le(0, 8)
  }

  function FromLe8(b: Buffer): U64
  {
    FromLe(b) % U64_LIMIT
  }

  function ValueOf(f: DoubleBits, kind: ColKind, b: Buffer): Value
  {
    match kind
    case BoolKind => Bool(b != [] && b[0] != 0)
    case IntKind => Int(FromLeI64(b))
    case TextKind => Text(FromLe(b))
    case RealKind => Real(f.value(FromLe8(b)))
  }

  lemma ValueRoundTrip(f: DoubleBits, kind: ColKind, v: Value)
    requires Storable(f, kind, v)
    ensures |ValueBytes(f, v)| == CellWidth(kind) && ValueOf(f, kind, ValueBytes(f, v)) == v
  {
    Pow256Is64();
    match v
    case Bool(_) =>
    case Int(i) => FromLeI64OfLe(i);
    case Real(r) => FromLeOfLe(f.bits(r), 8);
    case Text(id) => FromLeOfLe(id, 4);
  }

  // ----- plain cells -------------------------------------------------------------------

  /** Lines 95-108: the bytes a plain column stores for a value. */
  function CellBytes(f: DoubleBits, kind: ColKind, v: Value): Buffer
  {
    match (kind, v)
    case (BoolKind, Bool(b)) => [if b then 1 else 0]
    case (IntKind, Int(i)) => LeI64(i)
    case (RealKind, Real(r)) => Le(f.bits(r), 8)
    case (RealKind, Int(i)) => Le(f.bits(ToDouble(i)), 8)
    case (RealKind, Null) => Le(f.bits(0.0), 8)
    case (TextKind, Text(id)) => Le(id, 4)
    case _ => Le(0, CellWidth(kind))
  }

  /** A plain region's data. */
  function CellsBytes(f: DoubleBits, kind: ColKind, values: seq<Value>): Buffer
  {
    if values == [] then [] else CellsBytes(f, kind, values[..|values| - 1]) + CellBytes(f, kind, values[|values| - 1])
  }

  function Offset(slot: nat, w: nat): nat { slot * w }

  lemma OffsetOrder(slot: nat, n: nat, w: nat)
    ensures slot < n ==> Offset(slot, w) + w <= Offset(n, w)
    ensures slot >= n ==> Offset(slot, w) >= Offset(n, w)
    ensures Offset(n + 1, w) == Offset(n, w) + w && Offset(0, w) == 0
  {
    if slot < n {
      assert (slot + 1) * w <= n * w;
    } else {
      assert slot * w >= n * w;
    }
  }

  /** Lines 112-152: the cell at a slot, null past the end. */
  function CellOf(f: DoubleBits, kind: ColKind, data: Buffer, slot: nat): Value
  {
    var w := CellWidth(kind);
    var off := Offset(slot, w);
    if off + w > |data| then Null else ValueOf(f, kind, data[off..off + w])
  }

  /** In a real column zero is a double, that of the zero bits. */
  predicate StorableCell(f: DoubleBits, kind: ColKind, v: Value)
  {
    && (kind.RealKind? ==> f.IsDouble(Stored(kind, v).r) && f.IsDouble(0.0) && f.bits(0.0) == 0)
    && (v.Text? ==> v.id < U32_LIMIT)
  }

  lemma {:induction false} CellsLength(f: DoubleBits, kind: ColKind, values: seq<Value>)
    requires forall i :: 0 <= i < |values| ==> StorableCell(f, kind, values[i])
    ensures |CellsBytes(f, kind, values)| == Offset(|values|, CellWidth(kind))
  {
    OffsetOrder(0, if values == [] then 0 else |values| - 1, CellWidth(kind));
    if values != [] {
      CellsLength(f, kind, values[..|values| - 1]);
      CellFits(f, kind, values[|values| - 1]);
    }
  }

  /** Reading a slot of a plain region gives the value as its column keeps it; past the end
      it gives null. */
  lemma {:induction false} CellRoundTrip(f: DoubleBits, kind: ColKind, values: seq<Value>, slot: nat)
    requires forall i :: 0 <= i < |values| ==> StorableCell(f, kind, values[i])
    ensures CellOf(f, kind, CellsBytes(f, kind, values), slot)
            == if slot < |values| then Stored(kind, values[slot]) else Null
  {
    hide Offset, ValueBytes, ValueOf, Stored, KindMatches, CellBytes, StorableCell;
    var w, data := CellWidth(kind), CellsBytes(f, kind, values);
    CellsLength(f, kind, values);
    OffsetOrder(slot, |values|, w);
    if slot < |values| {
      var n := |values| - 1;
      CellsLength(f, kind, values[..n]);
      CellFits(f, kind, values[n]);
      OffsetOrder(slot, n, w);
      var front, off := CellsBytes(f, kind, values[..n]), Offset(slot, w);
      assert data == front + CellBytes(f, kind, values[n]);
      if slot < n {
        CellRoundTrip(f, kind, values[..n], slot);
        Within(front, CellBytes(f, kind, values[n]), off, w);
      } else {
        Behind(front, CellBytes(f, kind, values[n]));
      }
    }
  }

  lemma Within(front: Buffer, last: Buffer, off: nat, w: nat)
    requires off + w <= |front|
    ensures (front + last)[off..off + w] == front[off..off + w]
  {
  }

  lemma Behind(front: Buffer, last: Buffer)
    ensures (front + last)[|front|..|front| + |last|] == last
  {
  }

  /** The bytes of a cell are those of the value that the column keeps. */
  lemma CellFits(f: DoubleBits, kind: ColKind, v: Value)
    requires StorableCell(f, kind, v)
    ensures |CellBytes(f, kind, v)| == CellWidth(kind) && ValueOf(f, kind, CellBytes(f, kind, v)) == Stored(kind, v)
  {
    hide FromLe, Le, Signed, Unsigned;
    ValueRoundTrip(f, kind, Stored(kind, v));
    if !KindMatches(kind, v) {
      ZeroBytes();
      assert CellBytes(f, kind, v) == ValueBytes(f, Stored(kind, v));
    }
  }

  lemma ZeroBytes()
    ensures Le(0, 1) == [0] && LeI64(0) == Le(0, 8)
  {
  }

  // ----- runs ----------------------------------------------------------------------------

  function RunBytes(f: DoubleBits, r: Run): Buffer
  {
    ValueBytes(f, r.value) + Le(r.count, 4)
  }

  /** src/rle.rs, lines 41-68. */
  function EncodeRuns(f: DoubleBits, runs: seq<Run>): Buffer
  {
    if runs == [] then [] else EncodeRuns(f, runs[..|runs| - 1]) + RunBytes(f, runs[|runs| - 1])
  }

  function RunAt(f: DoubleBits, kind: ColKind, b: Buffer): Run
    requires |b| == RunWidth(kind)
  {
    FromLeBound(b[CellWidth(kind)..]);
    Pow256Is64();
    Run(ValueOf(f, kind, b[..CellWidth(kind)]), FromLe(b[CellWidth(kind)..]))
  }

  /** The buffer is a whole number of runs long. */
  predicate Whole(kind: ColKind, b: Buffer)
  {
    |b| % RunWidth(kind) == 0
  }

  lemma WholeSteps(kind: ColKind, b: Buffer, last: Buffer)
    ensures Whole(kind, b) && b != [] ==> |b| >= RunWidth(kind) && Whole(kind, b[RunWidth(kind)..])
    ensures Whole(kind, b) && |last| == RunWidth(kind) ==> Whole(kind, b + last)
  {
    if Whole(kind, b) {
      Multiples(|b|, RunWidth(kind));
    }
  }

  lemma Multiples(n: nat, w: nat)
    requires w in {5, 8, 12} && n % w == 0
    ensures (n + w) % w == 0 && (n > 0 ==> n >= w && (n - w) % w == 0)
  {
    var q := n / w;
    if w == 5 {
      assert n == 5 * q;
    } else if w == 8 {
      assert n == 8 * q;
    } else {
      assert n == 12 * q;
    }
  }

  function RunsFrom(f: DoubleBits, kind: ColKind, b: Buffer): seq<Run>
    requires Whole(kind, b)
  {
    if b == [] then []
    else
      WholeSteps(kind, b, []);
      [RunAt(f, kind, b[..RunWidth(kind)])] + RunsFrom(f, kind, b[RunWidth(kind)..])
  }

  /** src/rle.rs, lines 71-91. */
  function DecodeRuns(f: DoubleBits, kind: ColKind, b: Buffer): Result<seq<Run>, DecodeError>
  {
    if !Whole(kind, b) then Err(BadEncoding) else Ok(RunsFrom(f, kind, b))
  }

  predicate StorableRun(f: DoubleBits, kind: ColKind, r: Run)
  {
    Storable(f, kind, r.value)
  }

  lemma RunRoundTrip(f: DoubleBits, kind: ColKind, r: Run)
    requires StorableRun(f, kind, r)
    ensures |RunBytes(f, r)| == RunWidth(kind) && RunAt(f, kind, RunBytes(f, r)) == r
  {
    ValueRoundTrip(f, kind, r.value);
    Pow256Is64();
    FromLeOfLe(r.count, 4);
    assert RunBytes(f, r)[..CellWidth(kind)] == ValueBytes(f, r.value)
      && RunBytes(f, r)[CellWidth(kind)..] == Le(r.count, 4);
  }

  lemma {:induction false} RunsSnoc(f: DoubleBits, kind: ColKind, b: Buffer, last: Buffer)
    requires Whole(kind, b) && |last| == RunWidth(kind)
    ensures Whole(kind, b + last) && RunsFrom(f, kind, b + last) == RunsFrom(f, kind, b) + [RunAt(f, kind, last)]
    decreases |b|
  {
    hide Whole, RunAt, RunWidth;
    var w := RunWidth(kind);
    WholeSteps(kind, b, last);
    OneRun(f, kind, last);
    if b == [] {
      assert b + last == last;
    } else {
      assert (b + last)[..w] == b[..w] && (b + last)[w..] == b[w..] + last;
      RunsSnoc(f, kind, b[w..], last);
    }
  }

  lemma OneRun(f: DoubleBits, kind: ColKind, last: Buffer)
    requires |last| == RunWidth(kind)
    ensures Whole(kind, last) && RunsFrom(f, kind, last) == [RunAt(f, kind, last)]
  {
    assert last[..RunWidth(kind)] == last && last[RunWidth(kind)..] == [];
    assert RunsFrom(f, kind, []) == [];
  }

  /** Runs of the column's kind are decoded back. */
  lemma {:induction false} RunsRoundTrip(f: DoubleBits, kind: ColKind, runs: seq<Run>)
    requires forall i :: 0 <= i < |runs| ==> StorableRun(f, kind, runs[i])
    ensures DecodeRuns(f, kind, EncodeRuns(f, runs)) == Ok(runs)
  {
    if runs != [] {
      var front, last := runs[..|runs| - 1], runs[|runs| - 1];
      RunsRoundTrip(f, kind, front);
      RunRoundTrip(f, kind, last);
      RunsSnoc(f, kind, EncodeRuns(f, front), RunBytes(f, last));
      assert runs == front + [last];
    }
  }

  /** Whatever is written with each run fits its width. */
  predicate Writable(f: DoubleBits, r: Run)
  {
    (r.value.Real? ==> f.IsDouble(r.value.r)) && (r.value.Text? ==> r.value.id < U32_LIMIT)
  }

  /** Runs come back exactly when all their values are of the column's kind: a null among
      them is written in eight bytes whatever the kind, and never comes back. */
  lemma RunsComeBackIff(f: DoubleBits, kind: ColKind, runs: seq<Run>)
    requires forall i :: 0 <= i < |runs| ==> Writable(f, runs[i])
    ensures DecodeRuns(f, kind, EncodeRuns(f, runs)) == Ok(runs) <==> forall i :: 0 <= i < |runs| ==>
            KindMatches(kind, runs[i].value)
  {
    if forall i :: 0 <= i < |runs| ==> KindMatches(kind, runs[i].value) {
      RunsRoundTrip(f, kind, runs);
    }
    OtherKind(f, kind, EncodeRuns(f, runs));
  }

  /** A null run takes twelve bytes: a boolean column cannot decode them, and an integer
      column reads a zero. */
  lemma NullRunCounterexample(f: DoubleBits)
    ensures var b := EncodeRuns(f, [Run(Null, 1)]);
            DecodeRuns(f, BoolKind, b) == Err(BadEncoding) && DecodeRuns(f, IntKind, b) == Ok([Run(Int(0), 1)])
  {
    NullRunBytes(f);
    var b := EncodeRuns(f, [Run(Null, 1)]);
    assert !Whole(BoolKind, b);
    OneRun(f, IntKind, b);
    NullRunAt(f, b);
    hide *;
  }

  lemma NullRunAt(f: DoubleBits, b: Buffer)
    requires b == Le(0, 8) + Le(1, 4) && |b| == 12
    ensures RunAt(f, IntKind, b) == Run(Int(0), 1)
  {
    assert b[..8] == Le(0, 8) && b[8..] == Le(1, 4);
    Pow256Is64();
    FromLeOfLe(1, 4);
    assert LeI64(0) == Le(0, 8);
    FromLeI64OfLe(0);
    hide Le, FromLe, FromLeI64, LeI64;
  }

  lemma NullRunBytes(f: DoubleBits)
    ensures EncodeRuns(f, [Run(Null, 1)]) == Le(0, 8) + Le(1, 4)
    ensures Le(0, 8) == [0, 0, 0, 0, 0, 0, 0, 0] && Le(1, 4) == [1, 0, 0, 0]
  {
    assert [Run(Null, 1)][..0] == [];
    assert Le(0, 1) == [0] && Le(0, 2) == [0, 0] && Le(0, 3) == [0, 0, 0] && Le(0, 4) == [0, 0, 0, 0];
    assert Le(0, 5) == [0, 0, 0, 0, 0] && Le(0, 6) == [0, 0, 0, 0, 0, 0] && Le(0, 7) == [0, 0, 0, 0, 0, 0, 0];
  }

  /** Decoded runs hold values of the column's kind. */
  lemma OtherKind(f: DoubleBits, kind: ColKind, b: Buffer)
    ensures DecodeRuns(f, kind, b).Ok? ==> forall i :: 0 <= i < |DecodeRuns(f, kind, b).value| ==>
            KindMatches(kind, DecodeRuns(f, kind, b).value[i].value)
  {
    if Whole(kind, b) {
      AllOfKind(f, kind, b);
    }
  }

  lemma {:induction false} AllOfKind(f: DoubleBits, kind: ColKind, b: Buffer)
    requires Whole(kind, b)
    ensures forall i :: 0 <= i < |RunsFrom(f, kind, b)| ==> KindMatches(kind, RunsFrom(f, kind, b)[i].value)
    decreases |b|
  {
    if b != [] {
      WholeSteps(kind, b, []);
      AllOfKind(f, kind, b[RunWidth(kind)..]);
    }
  }

  lemma FirstRun(f: DoubleBits, kind: ColKind, b: Buffer)
    requires Whole(kind, b)
    ensures if b == [] then RunsFrom(f, kind, b) == [] else
              && |b| >= RunWidth(kind) && Whole(kind, b[RunWidth(kind)..])
              && RunsFrom(f, kind, b) == [RunAt(f, kind, b[..RunWidth(kind)])] + RunsFrom(f, kind, b[RunWidth(kind)..])
  {
    WholeSteps(kind, b, []);
  }

  method EncodeRunsLoop(f: DoubleBits, runs: seq<Run>) returns (out: Buffer)
    ensures out == EncodeRuns(f, runs)
  {
    out := [];
    for i := 0 to |runs|
      invariant out == EncodeRuns(f, runs[..i])
    {
      assert runs[..i + 1][..i] == runs[..i];
      out := out + RunBytes(f, runs[i]);
    }
    assert runs[..|runs|] == runs;
  }

  method DecodeRunsLoop(f: DoubleBits, kind: ColKind, b: Buffer) returns (r: Result<seq<Run>, DecodeError>)
    ensures r == DecodeRuns(f, kind, b)
  {
    hide Whole, RunAt, RunWidth, RunsFrom;
    var w := RunWidth(kind);
    if !Whole(kind, b) {
      return Err(BadEncoding);
    }
    var runs: seq<Run>, pos: nat := [], 0;
    assert b[0..] == b;
    SomeWidth(kind);
    while pos < |b|
      invariant pos <= |b| && Whole(kind, b[pos..]) && RunsFrom(f, kind, b) == runs + RunsFrom(f, kind, b[pos..])
      decreases |b| - pos
    {
      var rest := b[pos..];
      FirstRun(f, kind, rest);
      assert rest[..w] == b[pos..pos + w] && rest[w..] == b[pos + w..];
      runs := runs + [RunAt(f, kind, b[pos..pos + w])];
      pos := pos + w;
    }
    assert b[pos..] == [];
    FirstRun(f, kind, []);
    assert runs + [] == runs;
    return Ok(runs);
  }

  lemma SomeWidth(kind: ColKind)
    ensures RunWidth(kind) > 0
  {
  }

  // ----- page bodies ---------------------------------------------------------------------

  datatype RawRegion = RawRegion(kind: ColKind, encoding: Encoding, data: Buffer)

  datatype Body = Body(numRows: nat, regions: seq<RawRegion>)

  function KindTag(kind: ColKind): Byte
  {
    match kind
    case BoolKind => 0
    case IntKind => 1
    case RealKind => 2
    case TextKind => 3
  }

  function KindOfTag(b: Byte): Option<ColKind>
  {
    if b == 0 then Some(BoolKind) else if b == 1 then Some(IntKind) else if b == 2 then Some(RealKind)
    else if b == 3 then Some(TextKind) else None
  }

  function EncodingTag(e: Encoding): Byte
  {
    match e
    case Plain => 0
    case Dictionary => 1
    case Rle => 2
  }

  function EncodingOfTag(b: Byte): Option<Encoding>
  {
    if b == 0 then Some(Plain) else if b == 1 then Some(Dictionary) else if b == 2 then Some(Rle) else None
  }

  function RegionBytes(r: RawRegion): Buffer
  {
    [KindTag(r.kind), EncodingTag(r.encoding)] + Le(|r.data|, 4) + r.data
  }

  function RegionsBytes(regions: seq<RawRegion>): Buffer
  {
    if regions == [] then [] else RegionBytes(regions[0]) + RegionsBytes(regions[1..])
  }

  /** Lines 155-166. */
  function EncodeBody(body: Body): Buffer
  {
    Le(body.numRows, 4) + Le(|body.regions|, 4) + RegionsBytes(body.regions)
  }

  /** Lines 177-191, from `b` on. */
  function DecodeRegions(b: Buffer, n: nat): Result<seq<RawRegion>, DecodeError>
  {
    if n == 0 then Ok([])
    else if |b| < 6 then Err(Truncated)
    else
      var kind, encoding, length := KindOfTag(b[0]), EncodingOfTag(b[1]), FromLe(b[2..6]);
      if kind.None? then Err(BadSchema)
      else if encoding.None? then Err(BadEncoding)
      else if 6 + length > |b| then Err(Truncated)
      else
        var rest := DecodeRegions(b[6 + length..], n - 1);
        if rest.Err? then rest else Ok([RawRegion(kind.value, encoding.value, b[6..6 + length])] + rest.value)
  }

  /** Lines 169-193. */
  function DecodeBody(b: Buffer): Result<Body, DecodeError>
  {
    if |b| < 8 then Err(Truncated)
    else
      var regions := DecodeRegions(b[8..], FromLe(b[4..8]));
      if regions.Err? then Err(regions.error) else Ok(Body(FromLe(b[0..4]), regions.value))
  }

  lemma {:induction false} RegionsRoundTrip(regions: seq<RawRegion>, rest: Buffer)
    requires forall i :: 0 <= i < |regions| ==> |regions[i].data| < U32_LIMIT
    ensures DecodeRegions(RegionsBytes(regions) + rest, |regions|) == Ok(regions)
  {
    hide RegionBytes, FromLe, KindTag, KindOfTag, EncodingTag, EncodingOfTag;
    if regions != [] {
      var r, b, tail := regions[0], RegionsBytes(regions) + rest, RegionsBytes(regions[1..]) + rest;
      RegionsRoundTrip(regions[1..], rest);
      assert b == RegionBytes(r) + tail;
      RegionParts(r, tail);
      assert regions == [r] + regions[1..];
    }
  }

  lemma RegionParts(r: RawRegion, tail: Buffer)
    requires |r.data| < U32_LIMIT
    ensures var b, n := RegionBytes(r) + tail, |r.data|;
            |b| >= 6 + n && KindOfTag(b[0]) == Some(r.kind) && EncodingOfTag(b[1]) == Some(r.encoding)
            && FromLe(b[2..6]) == n && b[6..6 + n] == r.data && b[6 + n..] == tail
  {
    var b, n := RegionBytes(r) + tail, |r.data|;
    Pow256Is64();
    FromLeOfLe(n, 4);
    assert b[2..6] == Le(n, 4);
    hide FromLe, Le;
  }

  /** A page body is decoded back from its bytes. */
  lemma BodyRoundTrip(body: Body)
    requires body.numRows < U32_LIMIT && |body.regions| < U32_LIMIT
    requires forall i :: 0 <= i < |body.regions| ==> |body.regions[i].data| < U32_LIMIT
    ensures DecodeBody(EncodeBody(body)) == Ok(body)
  {
    var b := EncodeBody(body);
    Pow256Is64();
    FromLeOfLe(body.numRows, 4);
    FromLeOfLe(|body.regions|, 4);
    RegionsRoundTrip(body.regions, []);
    assert b[0..4] == Le(body.numRows, 4) && b[4..8] == Le(|body.regions|, 4)
      && b[8..] == RegionsBytes(body.regions) + [];
  }

  /** An empty buffer is no body, which is why a new page is treated apart. */
  lemma EmptyIsTruncated()
    ensures DecodeBody([]) == Err(Truncated)
  {
  }

  // ----- slot directories ------------------------------------------------------------------

  function SlotBytes(s: Slot): Buffer
  {
    Le(s.rowId, 8) + Le(s.off, 4) + Le(s.len, 4) + [if s.live then 1 else 0]
  }

  function SlotsBytes(slots: seq<Slot>): Buffer
  {
    if slots == [] then [] else SlotBytes(slots[0]) + SlotsBytes(slots[1..])
  }

  /** Lines 196-206. */
  function EncodeSlots(slots: seq<Slot>): Buffer
  {
    Le(|slots|, 4) + SlotsBytes(slots)
  }

  function DecodeSlotsFrom(b: Buffer, n: nat): Result<seq<Slot>, DecodeError>
  {
    if n == 0 then Ok([])
    else if |b| < 17 then Err(Truncated)
    else
      var rest := DecodeSlotsFrom(b[17..], n - 1);
      if rest.Err? then rest
      else Ok([Slot(FromLe(b[0..8]), FromLe(b[8..12]), FromLe(b[12..16]), b[16] != 0)] + rest.value)
  }

  /** Lines 209-228. */
  function DecodeSlots(b: Buffer): Result<seq<Slot>, DecodeError>
  {
    if |b| < 4 then Err(Truncated) else DecodeSlotsFrom(b[4..], FromLe(b[0..4]))
  }

  predicate StorableSlot(s: Slot)
  {
    s.rowId < U64_LIMIT && s.off < U32_LIMIT && s.len < U32_LIMIT
  }

  lemma {:induction false} SlotsFromRoundTrip(slots: seq<Slot>, rest: Buffer)
    requires forall i :: 0 <= i < |slots| ==> StorableSlot(slots[i])
    ensures DecodeSlotsFrom(SlotsBytes(slots) + rest, |slots|) == Ok(slots)
  {
    hide SlotBytes, FromLe;
    if slots != [] {
      var s, b, tail := slots[0], SlotsBytes(slots) + rest, SlotsBytes(slots[1..]) + rest;
      SlotsFromRoundTrip(slots[1..], rest);
      assert b == SlotBytes(s) + tail;
      SlotParts(s, tail);
      assert slots == [s] + slots[1..];
    }
  }

  lemma SlotParts(s: Slot, tail: Buffer)
    requires StorableSlot(s)
    ensures var b := SlotBytes(s) + tail;
            |b| >= 17 && FromLe(b[0..8]) == s.rowId && FromLe(b[8..12]) == s.off && FromLe(b[12..16]) == s.len
            && (b[16] != 0 <==> s.live) && b[17..] == tail
  {
    var b := SlotBytes(s) + tail;
    Pow256Is64();
    FromLeOfLe(s.rowId, 8);
    FromLeOfLe(s.off, 4);
    FromLeOfLe(s.len, 4);
    assert b[0..8] == Le(s.rowId, 8) && b[8..12] == Le(s.off, 4) && b[12..16] == Le(s.len, 4);
    hide FromLe, Le;
  }

  /** A slot directory is decoded back from its bytes, tombstones included. */
  lemma SlotsRoundTrip(slots: seq<Slot>)
    requires |slots| < U32_LIMIT && forall i :: 0 <= i < |slots| ==> StorableSlot(slots[i])
    ensures DecodeSlots(EncodeSlots(slots)) == Ok(slots)
  {
    Pow256Is64();
    FromLeOfLe(|slots|, 4);
    SlotsFromRoundTrip(slots, []);
    var b := EncodeSlots(slots);
    assert b[0..4] == Le(|slots|, 4) && b[4..] == SlotsBytes(slots) + [];
  }

  // ----- the forms Storage works on ----------------------------------------------------------

  /** The bytes of a region of a page. */
  function DataOf(f: DoubleBits, r: Region): Buffer
  {
    match r
    case Cells(kind, _, cells) => CellsBytes(f, kind, cells)
    case RunList(_, runs) => EncodeRuns(f, runs)
  }

  /** Cells and runs fit their fixed widths. */
  predicate StorableRegion(f: DoubleBits, r: Region)
  {
    match r
    case Cells(kind, _, cells) => forall i :: 0 <= i < |cells| ==> StorableCell(f, kind, cells[i])
    case RunList(kind, runs) => forall i :: 0 <= i < |runs| ==> Writable(f, runs[i])
  }

  /** A region of a page in order loses nothing in its bytes: plain cells read back slot by
      slot, and runs are decoded back. */
  lemma RegionSurvives(f: DoubleBits, col: Column, r: Region, slot: nat)
    requires Fits(col, r) && StorableRegion(f, r)
    ensures r.Cells? ==> CellOf(f, r.kind, DataOf(f, r), slot) == if slot < |CellsOf(r)| then CellsOf(r)[slot] else Null
    ensures r.RunList? ==> DecodeRuns(f, r.kind, DataOf(f, r)) == Ok(r.runs)
  {
    match r
    case Cells(kind, _, cells) =>
      CellRoundTrip(f, kind, cells, slot);
      CellsLength(f, kind, cells);
    case RunList(kind, runs) =>
      forall i | 0 <= i < |runs| ensures StorableRun(f, kind, runs[i]) {
        RunValue(runs, i);
      }
      RunsRoundTrip(f, kind, runs);
  }

  // ----- how many bytes a page takes -----------------------------------------------------------

  lemma {:induction false} RunsLength(f: DoubleBits, kind: ColKind, runs: seq<Run>)
    requires forall i :: 0 <= i < |runs| ==> StorableRun(f, kind, runs[i])
    ensures |EncodeRuns(f, runs)| == |runs| * RunWidth(kind)
  {
    hide RunBytes, RunAt, StorableRun, RunWidth;
    if runs != [] {
      var front := runs[..|runs| - 1];
      RunsLength(f, kind, front);
      RunRoundTrip(f, kind, runs[|runs| - 1]);
      assert |runs| * RunWidth(kind) == |front| * RunWidth(kind) + RunWidth(kind);
    }
  }

  lemma RegionLength(f: DoubleBits, col: Column, r: Region)
    requires Fits(col, r) && StorableRegion(f, r)
    ensures |DataOf(f, r)| == RegionLen(r)
  {
    match r
    case Cells(kind, _, cells) =>
      CellsLength(f, kind, cells);
    case RunList(kind, runs) =>
      forall i | 0 <= i < |runs| ensures StorableRun(f, kind, runs[i]) {
        RunValue(runs, i);
      }
      RunsLength(f, kind, runs);
  }

  /** The regions of a page, as they are written. */
  function RawOf(f: DoubleBits, body: seq<Region>): seq<RawRegion>
  {
    if body == [] then []
    else
      var r := body[|body| - 1];
      RawOf(f, body[..|body| - 1])
      + [RawRegion(r.kind, if r.Cells? then r.encoding else Rle, DataOf(f, r))]
  }

  lemma {:induction false} RegionsSnoc(regions: seq<RawRegion>, r: RawRegion)
    ensures RegionsBytes(regions + [r]) == RegionsBytes(regions) + RegionBytes(r)
  {
    hide RegionBytes;
    if regions != [] {
      RegionsSnoc(regions[1..], r);
      assert (regions + [r])[1..] == regions[1..] + [r];
    } else {
      assert (regions + [r])[1..] == [];
    }
  }

  /** The room a page takes, which decides when it is split and which pages have space, is the number
      of bytes that are written for it. */
  lemma {:induction false} BodyLenIsSize(f: DoubleBits, schema: seq<Column>, body: seq<Region>, numRows: nat)
    requires |schema| == |body|
    requires forall c :: 0 <= c < |body| ==> Fits(schema[c], body[c]) && StorableRegion(f, body[c])
    ensures |EncodeBody(Body(numRows, RawOf(f, body)))| == BodyLen(body)
  {
    hide Fits, StorableRegion, DataOf, RegionLen;
    if body != [] {
      var n := |body| - 1;
      var raw := RawOf(f, body);
      assert raw == raw[..|raw| - 1] + [raw[|raw| - 1]];
      BodyLenIsSize(f, schema[..n], body[..n], numRows);
      RegionsSnoc(RawOf(f, body[..n]), raw[|raw| - 1]);
      RegionLength(f, schema[n], body[n]);
    }
  }
}
