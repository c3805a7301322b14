/** What a join of two lists of rows returns, as a bag (src/join.rs, lines 14-35). Rows match on one
    column each, and it is for the algorithm to say which keys match. */
module JoinBags {
  import opened Values
  import opened Comparisons

  type Row = seq<Value>
  type Rows = seq<Row>

  datatype JoinKind = Inner | LeftOuter | RightOuter | FullOuter | Semi | Anti
  {
    predicate KeepsLeft() { LeftOuter? || FullOuter? }

    predicate KeepsRight() { RightOuter? || FullOuter? }

    predicate LeftOnly() { Semi? || Anti? }
  }

  /** Either the same keys match, nulls included, or a comparison decides. */
  datatype How = SameKeys | Compared(op: CmpOp)

  /** The join columns, and which keys match. */
  datatype On = On(lc: nat, rc: nat, how: How)

  /** A column that a row does not have reads as null. */
  function KeyOf(row: Row, col: nat): Value
  {
    if col < |row| then row[col] else Null
  }

  predicate Matches(l: Row, r: Row, on: On)
  {
    match on.how
    case SameKeys => KeyOf(l, on.lc) == KeyOf(r, on.rc)
    case Compared(op) => Apply(op, KeyOf(l, on.lc), KeyOf(r, on.rc))
  }

  /** Lines 74-84. */
  function Emitted(l: Row, r: Row, kind: JoinKind): Row
  {
    if kind.LeftOnly() then l else l + r
  }

  function Nulls(n: nat): Row
  {
    seq(n, _ => Null)
  }

  /** The width of the null padding: that of the first row. */
  function WidthOf(rows: Rows): nat
  {
    if rows == [] then 0 else |rows[0]|
  }

  ghost predicate Uniform(rows: Rows)
  {
    forall i :: 0 <= i < |rows| ==> |rows[i]| == |rows[0]|
  }

  function FlipOp(op: CmpOp): CmpOp
  {
    match op
    case Lt => Gt
    case Le => Ge
    case Gt => Lt
    case Ge => Le
    case _ => op
  }

  /** The same match, seen from the other side. */
  function Flip(on: On): On
  {
    On(on.rc, on.lc, match on.how case SameKeys => SameKeys case Compared(op) => Compared(FlipOp(op)))
  }

  // ----- the bag of a join -------------------------------------------------------------------

  /** One left row with every right row that it matches. */
  ghost function RowBag(l: Row, right: Rows, on: On, kind: JoinKind): multiset<Row>
  {
    if right == [] then multiset{}
    else
      var front, r := RowBag(l, right[..|right| - 1], on, kind), right[|right| - 1];
      if Matches(l, r, on) then front + multiset{Emitted(l, r, kind)} else front
  }

  ghost predicate Matched(l: Row, right: Rows, on: On)
  {
    exists j :: 0 <= j < |right| && Matches(l, right[j], on)
  }

  /** What a left row contributes. */
  ghost function Contribution(l: Row, right: Rows, on: On, kind: JoinKind, width: nat): multiset<Row>
  {
    if kind.KeepsLeft() && !Matched(l, right, on) then multiset{l + Nulls(width)} else RowBag(l, right, on, kind)
  }

  /** Every left row's contribution. */
  ghost function LeftBag(left: Rows, right: Rows, on: On, kind: JoinKind, width: nat): multiset<Row>
  {
    if left == [] then multiset{}
    else LeftBag(left[..|left| - 1], right, on, kind, width) + Contribution(left[|left| - 1], right, on, kind, width)
  }

  /** The right rows without a match, padded. */
  ghost function RightPads(left: Rows, right: Rows, on: On, width: nat): multiset<Row>
  {
    if right == [] then multiset{}
    else
      var front, r := RightPads(left, right[..|right| - 1], on, width), right[|right| - 1];
      if Matched(r, left, Flip(on)) then front else front + multiset{Nulls(width) + r}
  }

  /** The padded right rows of a join that keeps them. */
  ghost function RightPart(left: Rows, right: Rows, on: On, kind: JoinKind, width: nat): multiset<Row>
  {
    if kind.KeepsRight() then RightPads(left, right, on, width) else multiset{}
  }

  /** The whole join. */
  ghost function JoinBag(left: Rows, right: Rows, on: On, kind: JoinKind): multiset<Row>
  {
    LeftBag(left, right, on, kind, WidthOf(right)) + RightPart(left, right, on, kind, WidthOf(left))
  }

  // ----- taking one row more -----------------------------------------------------------------

  lemma LeftTake(left: Rows, right: Rows, on: On, kind: JoinKind, width: nat, i: nat)
    requires i < |left|
    ensures LeftBag(left[..i + 1], right, on, kind, width)
         == LeftBag(left[..i], right, on, kind, width) + Contribution(left[i], right, on, kind, width)
  {
    assert left[..i + 1][..i] == left[..i];
    hide Contribution;
  }

  lemma PadsTake(left: Rows, right: Rows, on: On, width: nat, j: nat)
    requires j < |right|
    ensures RightPads(left, right[..j + 1], on, width) == RightPads(left, right[..j], on, width)
              + if Matched(right[j], left, Flip(on)) then multiset{} else multiset{Nulls(width) + right[j]}
  {
    assert right[..j + 1][..j] == right[..j];
    hide Matched, Nulls;
  }

  lemma RowTake(l: Row, right: Rows, on: On, kind: JoinKind, j: nat)
    requires j < |right|
    ensures RowBag(l, right[..j + 1], on, kind)
         == RowBag(l, right[..j], on, kind)
           + if Matches(l, right[j], on) then multiset{Emitted(l, right[j], kind)} else multiset{}
  {
    assert right[..j + 1][..j] == right[..j];
    hide Matches, Emitted;
  }

  lemma MatchedTake(l: Row, right: Rows, on: On, j: nat)
    requires j < |right|
    ensures Matched(l, right[..j + 1], on) <==> Matched(l, right[..j], on) || Matches(l, right[j], on)
  {
    hide Matches;
    var less, more := right[..j], right[..j + 1];
    if Matched(l, less, on) {
      var k :| 0 <= k < j && Matches(l, less[k], on);
      assert more[k] == less[k];
    }
    if Matched(l, more, on) {
      var k :| 0 <= k < j + 1 && Matches(l, more[k], on);
      assert k < j ==> less[k] == more[k];
    }
    assert more[j] == right[j];
  }

  lemma {:induction false} UnmatchedRow(l: Row, right: Rows, on: On, kind: JoinKind)
    requires !Matched(l, right, on)
    ensures RowBag(l, right, on, kind) == multiset{}
  {
    if right != [] {
      var n := |right| - 1;
      assert right[..n + 1] == right;
      MatchedTake(l, right, on, n);
      RowTake(l, right, on, kind, n);
      hide Matched, Matches;
      UnmatchedRow(l, right[..n], on, kind);
    }
  }

  lemma NoRows(left: Rows, right: Rows, on: On, kind: JoinKind, width: nat)
    ensures LeftBag(left[..0], right, on, kind, width) == multiset{}
            && RightPads(left, right[..0], on, width) == multiset{}
  {
  }

  lemma NoMatches(l: Row, right: Rows, on: On, kind: JoinKind)
    ensures RowBag(l, right[..0], on, kind) == multiset{} && !Matched(l, right[..0], on)
  {
  }

  lemma FlipMatches(l: Row, r: Row, on: On)
    ensures Matches(l, r, on) == Matches(r, l, Flip(on))
  {
    TotalCmpOrders(KeyOf(l, on.lc), KeyOf(r, on.rc), Null);
    hide TotalCmp;
  }

  // ----- the order of the rows does not matter -----------------------------------------------

  function Dropped(rows: Rows, i: nat): Rows
    requires i < |rows|
  {
    rows[..i] + rows[i + 1..]
  }

  lemma DroppedBag(rows: Rows, i: nat)
    requires i < |rows|
    ensures multiset(rows) == multiset(Dropped(rows, i)) + multiset{rows[i]}
  {
    assert rows == rows[..i] + ([rows[i]] + rows[i + 1..]);
  }

  lemma DroppedLast(rows: Rows, i: nat)
    requires i < |rows| - 1
    ensures |Dropped(rows, i)| == |rows| - 1
    ensures Dropped(rows, i)[..|rows| - 2] == Dropped(rows[..|rows| - 1], i)
            && Dropped(rows, i)[|rows| - 2] == rows[|rows| - 1]
  {
  }

  lemma {:induction false} LeftDropped(left: Rows, right: Rows, on: On, kind: JoinKind, width: nat, i: nat)
    requires i < |left|
    ensures LeftBag(left, right, on, kind, width)
         == LeftBag(Dropped(left, i), right, on, kind, width) + Contribution(left[i], right, on, kind, width)
  {
    hide Contribution;
    if i == |left| - 1 {
      assert Dropped(left, i) == left[..i];
    } else {
      DroppedLast(left, i);
      LeftDropped(left[..|left| - 1], right, on, kind, width, i);
    }
  }

  lemma {:induction false} RowDropped(l: Row, right: Rows, on: On, kind: JoinKind, i: nat)
    requires i < |right|
    ensures RowBag(l, right, on, kind)
         == RowBag(l, Dropped(right, i), on, kind)
           + if Matches(l, right[i], on) then multiset{Emitted(l, right[i], kind)} else multiset{}
  {
    hide Matches, Emitted;
    if i == |right| - 1 {
      assert Dropped(right, i) == right[..i];
    } else {
      DroppedLast(right, i);
      RowDropped(l, right[..|right| - 1], on, kind, i);
    }
  }

  lemma {:induction false} PadsDropped(left: Rows, right: Rows, on: On, width: nat, i: nat)
    requires i < |right|
    ensures RightPads(left, right, on, width) == RightPads(left, Dropped(right, i), on, width)
              + if Matched(right[i], left, Flip(on)) then multiset{} else multiset{Nulls(width) + right[i]}
  {
    hide Matched, Nulls, Dropped;
    if i == |right| - 1 {
      LastDropped(right);
    } else {
      DroppedLast(right, i);
      PadsDropped(left, right[..|right| - 1], on, width, i);
    }
  }

  lemma LastDropped(rows: Rows)
    requires rows != []
    ensures Dropped(rows, |rows| - 1) == rows[..|rows| - 1]
  {
  }

  /** The last row of one list, found in a permutation of it. */
  lemma Found(rows: Rows, other: Rows) returns (i: nat)
    requires multiset(rows) == multiset(other) && rows != []
    ensures i < |other| && other[i] == rows[|rows| - 1] && multiset(rows[..|rows| - 1]) == multiset(Dropped(other, i))
  {
    var n := |rows| - 1;
    assert rows == rows[..n] + [rows[n]];
    assert rows[n] in multiset(other);
    i :| 0 <= i < |other| && other[i] == rows[n];
    DroppedBag(other, i);
    Cancel(multiset(rows[..n]), multiset(Dropped(other, i)), multiset{rows[n]});
  }

  lemma Cancel(a: multiset<Row>, b: multiset<Row>, c: multiset<Row>)
    requires a + c == b + c
    ensures a == b
  {
    forall row: Row ensures a[row] == b[row] {
      assert (a + c)[row] == (b + c)[row];
    }
  }

  lemma {:induction false} LeftPermuted(left: Rows, other: Rows, right: Rows, on: On, kind: JoinKind, width: nat)
    requires multiset(left) == multiset(other)
    ensures LeftBag(left, right, on, kind, width) == LeftBag(other, right, on, kind, width)
    decreases |left|
  {
    hide Contribution, Dropped;
    if left == [] {
      assert multiset(other) == multiset{};
      assert other == [];
    } else {
      var i := Found(left, other);
      LeftDropped(other, right, on, kind, width, i);
      LeftPermuted(left[..|left| - 1], Dropped(other, i), right, on, kind, width);
    }
  }

  lemma {:induction false} RowPermuted(l: Row, right: Rows, other: Rows, on: On, kind: JoinKind)
    requires multiset(right) == multiset(other)
    ensures RowBag(l, right, on, kind) == RowBag(l, other, on, kind)
    decreases |right|
  {
    hide Dropped;
    if right == [] {
      assert multiset(other) == multiset{};
      assert other == [];
    } else {
      var i := Found(right, other);
      RowDropped(l, other, on, kind, i);
      RowPermuted(l, right[..|right| - 1], Dropped(other, i), on, kind);
    }
  }

  lemma MatchedPermuted(l: Row, right: Rows, other: Rows, on: On)
    requires multiset(right) == multiset(other)
    ensures Matched(l, right, on) == Matched(l, other, on)
  {
    hide Matches;
    if Matched(l, right, on) {
      var j :| 0 <= j < |right| && Matches(l, right[j], on);
      assert right[j] in multiset(other);
    }
    if Matched(l, other, on) {
      var j :| 0 <= j < |other| && Matches(l, other[j], on);
      assert other[j] in multiset(right);
    }
  }

  lemma {:induction false} RightPermuted(left: Rows, right: Rows, other: Rows, on: On, kind: JoinKind, width: nat)
    requires multiset(right) == multiset(other)
    ensures LeftBag(left, right, on, kind, width) == LeftBag(left, other, on, kind, width)
  {
    hide Matched, RowBag;
    if left != [] {
      var l := left[|left| - 1];
      RightPermuted(left[..|left| - 1], right, other, on, kind, width);
      RowPermuted(l, right, other, on, kind);
      MatchedPermuted(l, right, other, on);
    }
  }

  lemma {:induction false} PadsPermuted(left: Rows, left': Rows, right: Rows, right': Rows, on: On, width: nat)
    requires multiset(left) == multiset(left') && multiset(right) == multiset(right')
    ensures RightPads(left, right, on, width) == RightPads(left', right', on, width)
    decreases |right|
  {
    hide Dropped, Matched, Nulls;
    if right == [] {
      assert multiset(right') == multiset{};
      assert right' == [];
    } else {
      var i := Found(right, right');
      PadsDropped(left', right', on, width, i);
      PadsPermuted(left, left', right[..|right| - 1], Dropped(right', i), on, width);
      MatchedPermuted(right'[i], left, left', Flip(on));
    }
  }

  lemma SameWidth(rows: Rows, other: Rows)
    requires multiset(rows) == multiset(other) && Uniform(rows)
    ensures WidthOf(rows) == WidthOf(other)
  {
    assert |rows| == |multiset(rows)| == |other|;
    if other != [] {
      assert other[0] in multiset(rows);
    }
  }

  /** Without padding the width is not used. */
  lemma {:induction false} WidthUnused(left: Rows, right: Rows, on: On, kind: JoinKind, width: nat, width': nat)
    requires !kind.KeepsLeft()
    ensures LeftBag(left, right, on, kind, width) == LeftBag(left, right, on, kind, width')
  {
    if left != [] {
      WidthUnused(left[..|left| - 1], right, on, kind, width, width');
    }
  }

  /** The rows that a join pads with are of one width. */
  ghost predicate Paddable(left: Rows, right: Rows, kind: JoinKind)
  {
    (kind.KeepsLeft() ==> Uniform(right)) && (kind.KeepsRight() ==> Uniform(left))
  }

  /** A join of permuted lists. */
  lemma JoinPermuted(left: Rows, left': Rows, right: Rows, right': Rows, on: On, kind: JoinKind)
    requires multiset(left) == multiset(left') && multiset(right) == multiset(right') && Paddable(left, right, kind)
    ensures JoinBag(left, right, on, kind) == JoinBag(left', right', on, kind)
  {
    hide LeftBag, RightPads, Uniform;
    LeftPermuted(left, left', right, on, kind, WidthOf(right));
    RightPermuted(left', right, right', on, kind, WidthOf(right));
    PadsPermuted(left, left', right, right', on, WidthOf(left));
    if kind.KeepsLeft() {
      SameWidth(right, right');
    } else {
      WidthUnused(left', right', on, kind, WidthOf(right), WidthOf(right'));
    }
    if kind.KeepsRight() {
      SameWidth(left, left');
    }
  }
}
