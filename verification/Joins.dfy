/** Hash, nested-loop and sort-merge join (src/join.rs, lines 37-201), for all six kinds. Each is
    proved to return the bag of rows that its way of matching keys stands for. */
module Joins {
  import opened Values
  import opened Comparisons
  import opened JoinBags

  // ----- nested loops ------------------------------------------------------------------------

  /** The left rows that have a match, or those that have none. */
  ghost function Picked(left: Rows, right: Rows, on: On, keep: bool): multiset<Row>
  {
    if left == [] then multiset{}
    else
      var front, l := Picked(left[..|left| - 1], right, on, keep), left[|left| - 1];
      if Matched(l, right, on) == keep then front + multiset{l} else front
  }

  /** What the nested loops return: right rows are never padded. */
  ghost function NestedBag(left: Rows, right: Rows, on: On, kind: JoinKind): multiset<Row>
  {
    if kind.LeftOnly() then Picked(left, right, on, kind.Semi?)
    else LeftBag(left, right, on, kind, WidthOf(right))
  }

  /** Lines 88-132. */
  method NestedLoopJoin(left: Rows, right: Rows, lc: nat, rc: nat, op: CmpOp, kind: JoinKind) returns (out: Rows)
    ensures multiset(out) == NestedBag(left, right, On(lc, rc, Compared(op)), kind)
  {
    hide LeftBag, Matched, Picked, RowBag, Contribution, Nulls;
    var width, on := WidthOf(right), On(lc, rc, Compared(op));
    out := [];
    var matched := seq(|left|, _ => false);
    NoRows(left, right, on, kind, width);
    for i := 0 to |left|
      invariant |matched| == |left| && forall k :: 0 <= k < i ==> matched[k] == Matched(left[k], right, on)
      invariant multiset(out) == if kind.LeftOnly() then multiset{} else LeftBag(left[..i], right, on, kind, width)
    {
      LeftTake(left, right, on, kind, width, i);
      var rows, any := JoinRow(left[i], right, lc, rc, op, kind);
      matched := matched[i := any];
      if !any && kind.KeepsLeft() {
        rows := rows + [left[i] + Nulls(width)];
      }
      if !kind.LeftOnly() {
        Contributed(left[i], right, on, kind, width, rows, any);
      }
      out := out + rows;
    }
    assert left[..|left|] == left;
    if kind.LeftOnly() {
      out := PickRows(left, right, on, matched, kind.Semi?);
    }
  }

  lemma Contributed(l: Row, right: Rows, on: On, kind: JoinKind, width: nat, rows: Rows, any: bool)
    requires any == Matched(l, right, on) && !kind.LeftOnly()
    requires if !any && kind.KeepsLeft() then rows == [l + Nulls(width)]
             else multiset(rows) == RowBag(l, right, on, kind)
    ensures multiset(rows) == Contribution(l, right, on, kind, width)
  {
    hide Matched, RowBag;
  }

  /** The inner loop of lines 101-111. */
  method JoinRow(l: Row, right: Rows, lc: nat, rc: nat, op: CmpOp, kind: JoinKind) returns (out: Rows, any: bool)
    ensures var on := On(lc, rc, Compared(op));
            && any == Matched(l, right, on) && (!any ==> out == [])
            && multiset(out) == if kind.LeftOnly() then multiset{} else RowBag(l, right, on, kind)
  {
    hide RowBag, Matched, Apply;
    var on := On(lc, rc, Compared(op));
    out, any := [], false;
    NoMatches(l, right, on, kind);
    for j := 0 to |right|
      invariant any == Matched(l, right[..j], on) && (!any ==> out == [])
      invariant multiset(out) == if kind.LeftOnly() then multiset{} else RowBag(l, right[..j], on, kind)
    {
      RowTake(l, right, on, kind, j);
      MatchedTake(l, right, on, j);
      var lv, rv := KeyOf(l, lc), KeyOf(right[j], rc);
      if Apply(op, lv, rv) {
        any := true;
        if !kind.LeftOnly() {
          out := out + [Emitted(l, right[j], kind)];
        }
      }
    }
    assert right[..|right|] == right;
  }

  /** Lines 118-130. */
  method PickRows(left: Rows, right: Rows, on: On, matched: seq<bool>, keep: bool) returns (out: Rows)
    requires |matched| == |left| && forall i :: 0 <= i < |left| ==> matched[i] == Matched(left[i], right, on)
    ensures multiset(out) == Picked(left, right, on, keep)
  {
    hide Matched;
    out := [];
    for i := 0 to |left|
      invariant multiset(out) == Picked(left[..i], right, on, keep)
    {
      assert left[..i + 1][..i] == left[..i];
      if matched[i] == keep {
        out := out + [left[i]];
      }
    }
    assert left[..|left|] == left;
  }

  // ----- hash join ---------------------------------------------------------------------------

  /** One right row with every left row that it matches. */
  ghost function ColBag(left: Rows, r: Row, on: On, kind: JoinKind): multiset<Row>
  {
    if left == [] then multiset{}
    else
      var front, l := ColBag(left[..|left| - 1], r, on, kind), left[|left| - 1];
      if Matches(l, r, on) then front + multiset{Emitted(l, r, kind)} else front
  }

  /** The matching pairs only. */
  ghost function PairBag(left: Rows, right: Rows, on: On, kind: JoinKind): multiset<Row>
  {
    if left == [] then multiset{}
    else PairBag(left[..|left| - 1], right, on, kind) + RowBag(left[|left| - 1], right, on, kind)
  }

  /** The left rows without a match, padded. */
  ghost function LeftPads(left: Rows, right: Rows, on: On, width: nat): multiset<Row>
  {
    if left == [] then multiset{}
    else
      var front, l := LeftPads(left[..|left| - 1], right, on, width), left[|left| - 1];
      if Matched(l, right, on) then front else front + multiset{l + Nulls(width)}
  }

  /** Pairs by left rows are pairs by right rows. */
  lemma {:induction false} PairsByRight(left: Rows, right: Rows, on: On, kind: JoinKind, j: nat)
    requires j < |right|
    ensures PairBag(left, right[..j + 1], on, kind)
            == PairBag(left, right[..j], on, kind) + ColBag(left, right[j], on, kind)
  {
    if left != [] {
      var front, l := left[..|left| - 1], left[|left| - 1];
      PairsByRight(front, right, on, kind, j);
      RowTake(l, right, on, kind, j);
      hide RowBag, Matches, Emitted;
    }
  }

  lemma {:induction false} NoPairs(left: Rows, right: Rows, on: On, kind: JoinKind)
    ensures PairBag(left, right[..0], on, kind) == multiset{}
  {
    if left != [] {
      NoPairs(left[..|left| - 1], right, on, kind);
    }
  }

  /** The left rows' part of a join is its pairs and, when it keeps left rows, the padded ones. */
  lemma {:induction false} LeftParts(left: Rows, right: Rows, on: On, kind: JoinKind, width: nat)
    ensures LeftBag(left, right, on, kind, width)
         == PairBag(left, right, on, kind) + if kind.KeepsLeft() then LeftPads(left, right, on, width) else multiset{}
  {
    if left != [] {
      var front, l := left[..|left| - 1], left[|left| - 1];
      LeftParts(front, right, on, kind, width);
      if !Matched(l, right, on) {
        UnmatchedRow(l, right, on, kind);
      }
      hide Matched, RowBag;
    }
  }

  /** The positions of a key, ascending. */
  ghost predicate Indexed(build: map<Value, seq<nat>>, left: Rows, lc: nat)
  {
    && (forall k :: k in build ==> build[k] == Positions(left, lc, k) && build[k] != [])
    && (forall k :: k !in build ==> Positions(left, lc, k) == [])
  }

  function Positions(left: Rows, lc: nat, k: Value): (r: seq<nat>)
    ensures forall n :: 0 <= n < |r| ==> r[n] < |left|
  {
    if left == [] then []
    else
      var front := Positions(left[..|left| - 1], lc, k);
      if KeyOf(left[|left| - 1], lc) == k then front + [|left| - 1] else front
  }

  lemma PositionsTake(left: Rows, lc: nat, i: nat, k: Value)
    requires i < |left|
    ensures Positions(left[..i + 1], lc, k) == Positions(left[..i], lc, k) + if KeyOf(left[i], lc) == k then [i] else []
  {
    assert left[..i + 1][..i] == left[..i];
  }

  /** Lines 44-48: the build side. A key's bytes stand for the key. */
  method BuildTable(left: Rows, lc: nat) returns (build: map<Value, seq<nat>>)
    ensures Indexed(build, left, lc)
  {
    build := map[];
    for i := 0 to |left|
      invariant Indexed(build, left[..i], lc)
    {
      var k := KeyOf(left[i], lc);
      forall m ensures Positions(left[..i + 1], lc, m) == Positions(left[..i], lc, m) + if k == m then [i] else [] {
        PositionsTake(left, lc, i, m);
      }
      build := build[k := (if k in build then build[k] else []) + [i]];
      hide Positions;
    }
    assert left[..|left|] == left;
  }

  /** The rows at the positions, each with `r`. */
  ghost function AtPositions(left: Rows, positions: seq<nat>, r: Row, kind: JoinKind): multiset<Row>
    requires forall n :: 0 <= n < |positions| ==> positions[n] < |left|
  {
    if positions == [] then multiset{}
    else AtPositions(left, positions[..|positions| - 1], r, kind)
         + multiset{Emitted(left[positions[|positions| - 1]], r, kind)}
  }

  lemma {:induction false} PositionsBag(left: Rows, r: Row, on: On, kind: JoinKind)
    requires on.how.SameKeys?
    ensures AtPositions(left, Positions(left, on.lc, KeyOf(r, on.rc)), r, kind) == ColBag(left, r, on, kind)
  {
    if left != [] {
      var front, k := left[..|left| - 1], KeyOf(r, on.rc);
      PositionsBag(front, r, on, kind);
      SamePrefix(front, left, Positions(front, on.lc, k), r, kind);
      var ps := Positions(left, on.lc, k);
      if KeyOf(left[|left| - 1], on.lc) == k {
        assert ps[..|ps| - 1] == Positions(front, on.lc, k);
      }
    }
  }

  lemma {:induction false} SamePrefix(front: Rows, left: Rows, positions: seq<nat>, r: Row, kind: JoinKind)
    requires |front| <= |left| && front == left[..|front|] && forall n :: 0 <= n < |positions| ==>
             positions[n] < |front|
    ensures AtPositions(left, positions, r, kind) == AtPositions(front, positions, r, kind)
  {
    if positions != [] {
      SamePrefix(front, left, positions[..|positions| - 1], r, kind);
    }
  }

  /** Lines 37-72: the left side is hashed, the right side probes. Nulls match nulls. */
  method HashJoin(left: Rows, right: Rows, lc: nat, rc: nat, kind: JoinKind) returns (out: Rows)
    ensures multiset(out) == JoinBag(left, right, On(lc, rc, SameKeys), kind)
  {
    hide RowBag, LeftBag, RightPart, Matched, KeyOf, PairBag, LeftPads, Positions;
    var on := On(lc, rc, SameKeys);
    var build := BuildTable(left, lc);
    var matched;
    out, matched := ProbeAll(left, right, on, kind, build);
    LeftParts(left, right, on, kind, WidthOf(right));
    if kind.KeepsLeft() {
      var padded := PadUnmatched(left, right, on, matched);
      out := out + padded;
    }
  }

  /** Lines 50-62. */
  method ProbeAll(left: Rows, right: Rows, on: On, kind: JoinKind, build: map<Value, seq<nat>>)
    returns (out: Rows, matched: seq<bool>)
    requires on.how.SameKeys? && Indexed(build, left, on.lc)
    ensures multiset(out) == PairBag(left, right, on, kind) + RightPart(left, right, on, kind, WidthOf(left))
    ensures |matched| == |left| && forall i :: 0 <= i < |left| ==> matched[i] == Matched(left[i], right, on)
  {
    hide RightPart, Matched, PairBag, Indexed;
    out, matched := [], seq(|left|, _ => false);
    NothingProbed(left, right, on, kind);
    for j := 0 to |right|
      invariant multiset(out) == PairBag(left, right[..j], on, kind)
                + RightPart(left, right[..j], on, kind, WidthOf(left))
      invariant |matched| == |left| && forall i :: 0 <= i < |left| ==> matched[i] == Matched(left[i], right[..j], on)
    {
      var rows, any;
      rows, any, matched := Probe(left, right, on, kind, build, matched, j);
      if !any && kind.KeepsRight() {
        rows := rows + [Nulls(WidthOf(left)) + right[j]];
      }
      ProbedNext(left, right, on, kind, WidthOf(left), j, rows, any);
      out := out + rows;
    }
    assert right[..|right|] == right;
  }

  lemma NothingProbed(left: Rows, right: Rows, on: On, kind: JoinKind)
    ensures PairBag(left, right[..0], on, kind) == multiset{}
    ensures RightPart(left, right[..0], on, kind, WidthOf(left)) == multiset{}
    ensures forall i :: 0 <= i < |left| ==> !Matched(left[i], right[..0], on)
  {
    NoPairs(left, right, on, kind);
    NoRows(left, right, on, kind, WidthOf(left));
  }

  lemma ProbedNext(left: Rows, right: Rows, on: On, kind: JoinKind, width: nat, j: nat, rows: Rows, any: bool)
    requires j < |right| && any == Matched(right[j], left, Flip(on))
    requires if !any && kind.KeepsRight()
             then rows == [Nulls(width) + right[j]] && ColBag(left, right[j], on, kind) == multiset{}
             else multiset(rows) == ColBag(left, right[j], on, kind)
    ensures PairBag(left, right[..j + 1], on, kind) + RightPart(left, right[..j + 1], on, kind, width)
         == PairBag(left, right[..j], on, kind) + RightPart(left, right[..j], on, kind, width) + multiset(rows)
  {
    PairsByRight(left, right, on, kind, j);
    PadsTake(left, right, on, width, j);
    hide PairBag, RightPads, Matched, ColBag, Nulls;
  }

  /** Lines 52-57, for one right row. */
  method Probe(left: Rows, right: Rows, on: On, kind: JoinKind, build: map<Value, seq<nat>>, matched0: seq<bool>,
          j: nat) returns (out: Rows, any: bool, matched: seq<bool>)
    requires j < |right| && on.how.SameKeys? && Indexed(build, left, on.lc) && |matched0| == |left|
    requires forall i :: 0 <= i < |left| ==> matched0[i] == Matched(left[i], right[..j], on)
    ensures multiset(out) == ColBag(left, right[j], on, kind) && any == Matched(right[j], left, Flip(on))
            && (!any ==> out == [])
    ensures |matched| == |left| && forall i :: 0 <= i < |left| ==> matched[i] == Matched(left[i], right[..j + 1], on)
  {
    hide Matched, ColBag, AtPositions, KeyOf, Emitted;
    var r, k := right[j], KeyOf(right[j], on.rc);
    PositionsBag(left, r, on, kind);
    PositionsNext(left, right, on, matched0, j);
    AnyPosition(left, r, on);
    hide Positions;
    out, matched := [], matched0;
    var positions := if k in build then build[k] else [];
    any := k in build;
    NoPositions(left, r, kind);
    for n := 0 to |positions|
      invariant multiset(out) == AtPositions(left, positions[..n], r, kind)
      invariant |matched| == |left| && forall i :: 0 <= i < |left| ==>
                (matched[i] <==> matched0[i] || i in positions[..n])
    {
      AtNext(left, positions, r, kind, n);
      assert positions[..n + 1] == positions[..n] + [positions[n]];
      matched := matched[positions[n] := true];
      out := out + [Emitted(left[positions[n]], r, kind)];
    }
    assert positions[..|positions|] == positions;
  }

  lemma PositionsNext(left: Rows, right: Rows, on: On, matched: seq<bool>, j: nat)
    requires j < |right| && on.how.SameKeys? && |matched| == |left|
    requires forall i :: 0 <= i < |left| ==> matched[i] == Matched(left[i], right[..j], on)
    ensures forall i :: 0 <= i < |left| ==>
              (Matched(left[i], right[..j + 1], on) <==>
                matched[i] || i in Positions(left, on.lc, KeyOf(right[j], on.rc)))
  {
    hide Matched, Positions;
    forall i | 0 <= i < |left|
      ensures Matched(left[i], right[..j + 1], on) <==>
              matched[i] || i in Positions(left, on.lc, KeyOf(right[j], on.rc))
    {
      MatchedTake(left[i], right, on, j);
      InPositions(left, on.lc, KeyOf(right[j], on.rc), i);
    }
  }

  lemma AnyPosition(left: Rows, r: Row, on: On)
    requires on.how.SameKeys?
    ensures Matched(r, left, Flip(on)) <==> Positions(left, on.lc, KeyOf(r, on.rc)) != []
  {
    hide Positions;
    var ps := Positions(left, on.lc, KeyOf(r, on.rc));
    if Matched(r, left, Flip(on)) {
      var i :| 0 <= i < |left| && Matches(r, left[i], Flip(on));
      InPositions(left, on.lc, KeyOf(r, on.rc), i);
    }
    if ps != [] {
      InPositions(left, on.lc, KeyOf(r, on.rc), ps[0]);
      assert ps[0] in ps;
      assert Matches(r, left[ps[0]], Flip(on));
    }
  }

  lemma NoPositions(left: Rows, r: Row, kind: JoinKind)
    ensures AtPositions(left, [], r, kind) == multiset{}
  {
  }

  lemma AtNext(left: Rows, positions: seq<nat>, r: Row, kind: JoinKind, n: nat)
    requires n < |positions| && forall m :: 0 <= m < |positions| ==> positions[m] < |left|
    ensures AtPositions(left, positions[..n + 1], r, kind)
         == AtPositions(left, positions[..n], r, kind) + multiset{Emitted(left[positions[n]], r, kind)}
  {
    assert positions[..n + 1][..n] == positions[..n];
    hide Emitted;
  }

  lemma {:induction false} InPositions(left: Rows, lc: nat, k: Value, i: nat)
    requires i < |left|
    ensures i in Positions(left, lc, k) <==> KeyOf(left[i], lc) == k
  {
    var n := |left| - 1;
    if i < n {
      InPositions(left[..n], lc, k, i);
    }
  }

  /** Lines 63-70. */
  method PadUnmatched(left: Rows, right: Rows, on: On, matched: seq<bool>) returns (out: Rows)
    requires |matched| == |left| && forall i :: 0 <= i < |left| ==> matched[i] == Matched(left[i], right, on)
    ensures multiset(out) == LeftPads(left, right, on, WidthOf(right))
  {
    hide Matched;
    out := [];
    for i := 0 to |left|
      invariant multiset(out) == LeftPads(left[..i], right, on, WidthOf(right))
    {
      assert left[..i + 1][..i] == left[..i];
      if !matched[i] {
        out := out + [left[i] + Nulls(WidthOf(right))];
      }
    }
    assert left[..|left|] == left;
  }
}
