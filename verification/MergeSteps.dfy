/** What a merge of two sorted sides returns (src/join.rs, lines 147-199), and when that is their
    join by equal keys. The merge pairs runs of one key each, as long as they compare equal. */
module MergeSteps {
  import opened Values
  import opened JoinBags
  import opened Joins
  import opened KeyOrders

  // ----- what is still to come ---------------------------------------------------------------

  /** The rows of one key from a place on, up to the first that has another. */
  predicate IsRun(rows: Rows, col: nat, start: nat, end: nat)
  {
    && start < end <= |rows|
    && (forall x :: start <= x < end ==> KeyOf(rows[x], col) == KeyOf(rows[start], col))
    && (end < |rows| ==> KeyOf(rows[end], col) != KeyOf(rows[start], col))
  }

  function EndFrom(rows: Rows, col: nat, start: nat, at: nat): (end: nat)
    requires start < at <= |rows|
    requires forall x :: start <= x < at ==> KeyOf(rows[x], col) == KeyOf(rows[start], col)
    ensures IsRun(rows, col, start, end)
    decreases |rows| - at
  {
    if at < |rows| && KeyOf(rows[at], col) == KeyOf(rows[start], col) then EndFrom(rows, col, start, at + 1) else at
  }

  function RunEndOf(rows: Rows, col: nat, start: nat): (end: nat)
    requires start < |rows|
    ensures IsRun(rows, col, start, end)
  {
    EndFrom(rows, col, start, start + 1)
  }

  lemma OneEnd(rows: Rows, col: nat, start: nat, a: nat, b: nat)
    requires IsRun(rows, col, start, a) && IsRun(rows, col, start, b)
    ensures a == b
  {
  }

  ghost function WithEach(l: Row, right: Rows, kind: JoinKind): multiset<Row>
  {
    if right == [] then multiset{}
    else WithEach(l, right[..|right| - 1], kind) + multiset{Emitted(l, right[|right| - 1], kind)}
  }

  /** Every left row with every right row. */
  ghost function AllPairs(left: Rows, right: Rows, kind: JoinKind): multiset<Row>
  {
    if left == [] then multiset{}
    else AllPairs(left[..|left| - 1], right, kind) + WithEach(left[|left| - 1], right, kind)
  }

  ghost function LeftPad(left: Rows, right: Rows, kind: JoinKind, i: nat): multiset<Row>
    requires i < |left|
  {
    if kind.KeepsLeft() then multiset{left[i] + Nulls(WidthOf(right))} else multiset{}
  }

  ghost function RightPad(left: Rows, right: Rows, kind: JoinKind, j: nat): multiset<Row>
    requires j < |right|
  {
    if kind.KeepsRight() then multiset{Nulls(WidthOf(left)) + right[j]} else multiset{}
  }

  /** Which side is behind; a side that is done is behind no more. */
  function Behind(left: Rows, right: Rows, on: On, i: nat, j: nat): Ordering
    requires i <= |left| && j <= |right|
  {
    if i == |left| then Greater
    else if j == |right| then Less
    else TotalCmp(KeyOf(left[i], on.lc), KeyOf(right[j], on.rc))
  }

  /** What the merge emits from two places on. */
  ghost function Rest(left: Rows, right: Rows, on: On, kind: JoinKind, i: nat, j: nat): multiset<Row>
    requires i <= |left| && j <= |right|
    decreases |left| - i + |right| - j
  {
    if i == |left| && j == |right| then multiset{}
    else
      match Behind(left, right, on, i, j)
      case Less => LeftPad(left, right, kind, i) + Rest(left, right, on, kind, i + 1, j)
      case Greater => RightPad(left, right, kind, j) + Rest(left, right, on, kind, i, j + 1)
      case Equal =>
        var e, f := RunEndOf(left, on.lc, i), RunEndOf(right, on.rc, j);
        AllPairs(left[i..e], right[j..f], kind) + Rest(left, right, on, kind, e, f)
  }

  // ----- aligned sides -----------------------------------------------------------------------

  /** Both sides are sorted. */
  ghost predicate Ready(left: Rows, right: Rows, on: On, vs: set<Value>)
  {
    && on.how.SameKeys? && Ordered(vs) && Within(left, on.lc, vs) && Within(right, on.rc, vs)
    && SortedBy(left, on.lc) && SortedBy(right, on.rc)
  }

  /** No row that is done matches one of the other side that is not. */
  ghost predicate NoCross(left: Rows, right: Rows, on: On, i: nat, j: nat)
  {
    && (forall x, y :: i <= x < |left| && 0 <= y < j && y < |right| ==> !Matches(left[x], right[y], on))
    && (forall x, y :: 0 <= x < i && x < |left| && j <= y < |right| ==> !Matches(left[x], right[y], on))
  }

  /** What is out once the left rows before `i` and the right rows before `j` are done. */
  ghost function Merged(left: Rows, right: Rows, on: On, kind: JoinKind, i: nat, j: nat): multiset<Row>
    requires i <= |left| && j <= |right|
  {
    LeftBag(left[..i], right, on, kind, WidthOf(right)) + RightPart(left, right[..j], on, kind, WidthOf(left))
  }

  /** The key behind is on neither what is left of the other side. */
  lemma NoneFrom(rows: Rows, col: nat, j: nat, k: Value, vs: set<Value>)
    requires SortedBy(rows, col) && Within(rows, col, vs) && Ordered(vs) && k in vs && j <= |rows|
    requires j < |rows| ==> TotalCmp(k, KeyOf(rows[j], col)).Less?
    ensures forall y :: j <= y < |rows| ==> KeyOf(rows[y], col) != k
  {
    hide Ordered, KeyOf, TotalCmp;
    forall y | j <= y < |rows| ensures KeyOf(rows[y], col) != k {
      OrderLaws(vs, KeyOf(rows[j], col), KeyOf(rows[y], col), k);
      OrderLaws(vs, k, KeyOf(rows[j], col), KeyOf(rows[y], col));
      OrderLaws(vs, k, KeyOf(rows[y], col), k);
    }
  }

  /** A left row behind what is left of the right side has no match. */
  lemma LeftStep(left: Rows, right: Rows, on: On, kind: JoinKind, i: nat, j: nat, vs: set<Value>)
    requires Ready(left, right, on, vs) && i < |left| && j <= |right| && NoCross(left, right, on, i, j)
             && Behind(left, right, on, i, j).Less?
    ensures NoCross(left, right, on, i + 1, j)
    ensures Merged(left, right, on, kind, i + 1, j)
         == Merged(left, right, on, kind, i, j) + LeftPad(left, right, kind, i)
  {
    hide Ready, NoCross, LeftBag, RightPart, RowBag, Nulls, Matches, Matched, TotalCmp;
    LeftAlone(left, right, on, i, j, vs);
    UnmatchedRow(left[i], right, on, kind);
    LeftTake(left, right, on, kind, WidthOf(right), i);
  }

  lemma LeftAlone(left: Rows, right: Rows, on: On, i: nat, j: nat, vs: set<Value>)
    requires Ready(left, right, on, vs) && i < |left| && j <= |right| && NoCross(left, right, on, i, j)
             && Behind(left, right, on, i, j).Less?
    ensures NoCross(left, right, on, i + 1, j) && !Matched(left[i], right, on)
  {
    hide KeyOf, TotalCmp, Ordered;
    NoneFrom(right, on.rc, j, KeyOf(left[i], on.lc), vs);
    assert forall y :: 0 <= y < |right| ==> !Matches(left[i], right[y], on);
  }

  /** ... and the other way round. */
  lemma RightStep(left: Rows, right: Rows, on: On, kind: JoinKind, i: nat, j: nat, vs: set<Value>)
    requires Ready(left, right, on, vs) && i <= |left| && j < |right| && NoCross(left, right, on, i, j)
             && Behind(left, right, on, i, j).Greater?
    ensures NoCross(left, right, on, i, j + 1)
    ensures Merged(left, right, on, kind, i, j + 1)
         == Merged(left, right, on, kind, i, j) + RightPad(left, right, kind, j)
  {
    hide Ready, NoCross, LeftBag, RightPads, Nulls, Matches, Matched, TotalCmp;
    RightAlone(left, right, on, i, j, vs);
    PadsTake(left, right, on, WidthOf(left), j);
  }

  lemma RightAlone(left: Rows, right: Rows, on: On, i: nat, j: nat, vs: set<Value>)
    requires Ready(left, right, on, vs) && i <= |left| && j < |right| && NoCross(left, right, on, i, j)
             && Behind(left, right, on, i, j).Greater?
    ensures NoCross(left, right, on, i, j + 1) && !Matched(right[j], left, Flip(on))
  {
    hide KeyOf, TotalCmp, Ordered;
    if i < |left| {
      OrderLaws(vs, KeyOf(left[i], on.lc), KeyOf(right[j], on.rc), KeyOf(left[i], on.lc));
      OrderLaws(vs, KeyOf(right[j], on.rc), KeyOf(left[i], on.lc), KeyOf(left[i], on.lc));
    }
    NoneFrom(left, on.lc, i, KeyOf(right[j], on.rc), vs);
    assert forall x :: 0 <= x < |left| ==> !Matches(left[x], right[j], on);
  }

  /** In aligned sides two runs that meet have the same key, and no more rows have it. */
  lemma RunsMeet(left: Rows, right: Rows, on: On, i: nat, j: nat, vs: set<Value>)
    requires Ready(left, right, on, vs) && Aligned(left, right, on.lc, on.rc)
    requires i < |left| && j < |right| && NoCross(left, right, on, i, j) && Behind(left, right, on, i, j).Equal?
    ensures KeyOf(left[i], on.lc) == KeyOf(right[j], on.rc)
    ensures forall x :: RunEndOf(left, on.lc, i) <= x < |left| ==> KeyOf(left[x], on.lc) != KeyOf(left[i], on.lc)
    ensures forall y :: RunEndOf(right, on.rc, j) <= y < |right| ==> KeyOf(right[y], on.rc) != KeyOf(right[j], on.rc)
  {
    hide KeyOf, Ordered, TotalCmp, ClassOf, Grouped, SortedBy, Aligned, EndFrom;
    var k, m := KeyOf(left[i], on.lc), KeyOf(right[j], on.rc);
    OrderLaws(vs, k, m, k);
    var a, b := SegmentOf(left, on.lc, k, vs);
    var c, d := SegmentOf(right, on.rc, k, vs);
    TidyAt(left, right, on.lc, on.rc, i);
    OrderLaws(vs, k, k, k);
    InSegment(left, on.lc, k, a, b, i);
    InSegment(right, on.rc, k, c, d, j);
    var first := KeyOf(left[a], on.lc);
    OrderLaws(vs, first, k, m);
    assert Matches(left[i], right[c], on) <==> k == first;
    assert Matches(left[a], right[j], on) <==> m == first;
    if k != m {
      TwoAlike(first, k, m);
    }
    NoneLater(left, on.lc, k, a, b, i, RunEndOf(left, on.lc, i), vs);
    NoneLater(right, on.rc, k, c, d, j, RunEndOf(right, on.rc, j), vs);
  }

  lemma TidyAt(left: Rows, right: Rows, lc: nat, rc: nat, i: nat)
    requires Aligned(left, right, lc, rc) && i < |left|
    ensures Tidy(left, right, lc, rc, KeyOf(left[i], lc))
  {
  }

  lemma InSegment(rows: Rows, col: nat, k: Value, from: nat, to: nat, i: nat)
    requires Segment(rows, col, k, from, to) && i < |rows| && Alike(KeyOf(rows[i], col), k)
    ensures from <= i < to && ClassOf(rows, col, k) != [] && KeyOf(rows[i], col) == ClassOf(rows, col, k)[i - from]
    ensures KeyOf(rows[from], col) == ClassOf(rows, col, k)[0] && Alike(KeyOf(rows[from], col), k)
  {
  }

  lemma NoneLater(rows: Rows, col: nat, k: Value, from: nat, to: nat, i: nat, end: nat, vs: set<Value>)
    requires Segment(rows, col, k, from, to) && Grouped(ClassOf(rows, col, k)) && from <= i < to
    requires IsRun(rows, col, i, end) && Ordered(vs) && Within(rows, col, vs) && k in vs
    ensures forall x :: end <= x < |rows| ==> KeyOf(rows[x], col) != KeyOf(rows[i], col)
  {
    hide KeyOf, Ordered, TotalCmp, ClassOf;
    var keys := ClassOf(rows, col, k);
    forall x | end <= x < |rows| ensures KeyOf(rows[x], col) != KeyOf(rows[i], col) {
      if end < x < to {
        assert keys[i - from] == KeyOf(rows[i], col) && keys[end - from] == KeyOf(rows[end], col);
        assert keys[x - from] == KeyOf(rows[x], col);
      }
    }
  }

  /** A row that matches exactly one stretch. */
  lemma {:induction false} StretchBag(l: Row, right: Rows, on: On, kind: JoinKind, from: nat, to: nat, n: nat)
    requires from <= to <= |right| && n <= |right|
    requires forall y :: 0 <= y < |right| ==> (Matches(l, right[y], on) <==> from <= y < to)
    ensures n <= from ==> RowBag(l, right[..n], on, kind) == multiset{}
    ensures from <= n <= to ==> RowBag(l, right[..n], on, kind) == WithEach(l, right[from..n], kind)
    ensures n >= to ==> RowBag(l, right[..n], on, kind) == WithEach(l, right[from..to], kind)
  {
    hide Matches, Emitted, RowBag, WithEach;
    NoneEach(l, right, kind, from);
    if n > 0 {
      StretchBag(l, right, on, kind, from, to, n - 1);
      RowTake(l, right, on, kind, n - 1);
      if from < n {
        EachTake(l, right, kind, from, n - 1);
      }
    } else {
      NoMatches(l, right, on, kind);
    }
  }

  lemma EachTake(l: Row, right: Rows, kind: JoinKind, from: nat, n: nat)
    requires from <= n < |right|
    ensures WithEach(l, right[from..n + 1], kind)
         == WithEach(l, right[from..n], kind) + multiset{Emitted(l, right[n], kind)}
  {
    hide Emitted;
    var more := right[from..n + 1];
    assert more[..|more| - 1] == right[from..n] && more[|more| - 1] == right[n];
  }

  lemma NoneEach(l: Row, right: Rows, kind: JoinKind, from: nat)
    requires from <= |right|
    ensures WithEach(l, right[from..from], kind) == multiset{}
  {
  }

  lemma StretchContribution(l: Row, right: Rows, on: On, kind: JoinKind, width: nat, from: nat, to: nat)
    requires from < to <= |right| && forall y :: 0 <= y < |right| ==> (Matches(l, right[y], on) <==> from <= y < to)
    ensures Contribution(l, right, on, kind, width) == WithEach(l, right[from..to], kind)
  {
    hide Matches, RowBag, WithEach;
    StretchBag(l, right, on, kind, from, to, |right|);
    assert right[..|right|] == right;
    assert Matches(l, right[from], on);
  }

  /** The left rows of a run. */
  lemma {:induction false} RunContributions(left: Rows, right: Rows, on: On, kind: JoinKind, width: nat, i: nat, e: nat,
          j: nat, f: nat)
    requires i <= e <= |left| && j < f <= |right|
    requires forall x, y :: i <= x < e && 0 <= y < |right| ==> (Matches(left[x], right[y], on) <==> j <= y < f)
    ensures LeftBag(left[..e], right, on, kind, width)
         == LeftBag(left[..i], right, on, kind, width) + AllPairs(left[i..e], right[j..f], kind)
  {
    hide Matches, LeftBag, WithEach, Contribution;
    if i < e {
      RunContributions(left, right, on, kind, width, i, e - 1, j, f);
      LeftTake(left, right, on, kind, width, e - 1);
      StretchContribution(left[e - 1], right, on, kind, width, j, f);
      assert left[i..e][..e - i - 1] == left[i..e - 1];
    }
  }

  /** Right rows that have a match are not padded. */
  lemma {:induction false} MatchedRun(left: Rows, right: Rows, on: On, width: nat, from: nat, to: nat)
    requires from <= to <= |right| && forall y :: from <= y < to ==> Matched(right[y], left, Flip(on))
    ensures RightPads(left, right[..to], on, width) == RightPads(left, right[..from], on, width)
  {
    if from < to {
      MatchedRun(left, right, on, width, from, to - 1);
      PadsTake(left, right, on, width, to - 1);
    }
  }

  lemma RunStep(left: Rows, right: Rows, on: On, kind: JoinKind, i: nat, j: nat, vs: set<Value>)
    requires Ready(left, right, on, vs) && Aligned(left, right, on.lc, on.rc)
    requires i < |left| && j < |right| && NoCross(left, right, on, i, j) && Behind(left, right, on, i, j).Equal?
    ensures var e, f := RunEndOf(left, on.lc, i), RunEndOf(right, on.rc, j);
            NoCross(left, right, on, e, f)
            && Merged(left, right, on, kind, e, f)
               == Merged(left, right, on, kind, i, j) + AllPairs(left[i..e], right[j..f], kind)
  {
    hide Ready, Aligned, TotalCmp, RunEndOf, LeftBag, RightPads, AllPairs, Nulls, KeyOf;
    var e, f := RunEndOf(left, on.lc, i), RunEndOf(right, on.rc, j);
    RunsMeet(left, right, on, i, j, vs);
    SameHow(left, right, on, vs);
    CrossRun(left, right, on, i, e, j, f);
    RunContributions(left, right, on, kind, WidthOf(right), i, e, j, f);
    MatchedRun(left, right, on, WidthOf(left), j, f);
  }

  lemma SameHow(left: Rows, right: Rows, on: On, vs: set<Value>)
    requires Ready(left, right, on, vs)
    ensures on.how.SameKeys?
  {
  }

  lemma CrossRun(left: Rows, right: Rows, on: On, i: nat, e: nat, j: nat, f: nat)
    requires on.how.SameKeys? && NoCross(left, right, on, i, j) && IsRun(left, on.lc, i, e) && IsRun(right, on.rc, j, f)
    requires KeyOf(left[i], on.lc) == KeyOf(right[j], on.rc)
    requires forall x :: e <= x < |left| ==> KeyOf(left[x], on.lc) != KeyOf(left[i], on.lc)
    requires forall y :: f <= y < |right| ==> KeyOf(right[y], on.rc) != KeyOf(right[j], on.rc)
    ensures NoCross(left, right, on, e, f)
    ensures forall x, y :: i <= x < e && 0 <= y < |right| ==> (Matches(left[x], right[y], on) <==> j <= y < f)
    ensures forall y :: j <= y < f ==> Matched(right[y], left, Flip(on))
  {
    hide KeyOf;
    forall y | j <= y < f ensures Matched(right[y], left, Flip(on)) {
      assert Matches(right[y], left[i], Flip(on));
    }
  }

  /** Of aligned sides the merge returns the join. */
  lemma {:induction false} RestJoins(left: Rows, right: Rows, on: On, kind: JoinKind, i: nat, j: nat, vs: set<Value>)
    requires Ready(left, right, on, vs) && Aligned(left, right, on.lc, on.rc)
    requires i <= |left| && j <= |right| && NoCross(left, right, on, i, j)
    ensures Merged(left, right, on, kind, i, j) + Rest(left, right, on, kind, i, j) == JoinBag(left, right, on, kind)
    decreases |left| - i + |right| - j
  {
    hide Ready, Aligned, NoCross, Merged, LeftPad, RightPad, JoinBag, RunEndOf, AllPairs, TotalCmp, KeyOf;
    if i == |left| && j == |right| {
      EndMerged(left, right, on, kind);
    } else {
      match Behind(left, right, on, i, j) {
        case Less =>
          LeftStep(left, right, on, kind, i, j, vs);
          RestJoins(left, right, on, kind, i + 1, j, vs);
        case Greater =>
          RightStep(left, right, on, kind, i, j, vs);
          RestJoins(left, right, on, kind, i, j + 1, vs);
        case Equal =>
          RunStep(left, right, on, kind, i, j, vs);
          RestJoins(left, right, on, kind, RunEndOf(left, on.lc, i), RunEndOf(right, on.rc, j), vs);
      }
    }
  }

  lemma EndMerged(left: Rows, right: Rows, on: On, kind: JoinKind)
    ensures Merged(left, right, on, kind, |left|, |right|) == JoinBag(left, right, on, kind)
  {
    assert left[..|left|] == left && right[..|right|] == right;
  }

  lemma AlignedJoins(left: Rows, right: Rows, on: On, kind: JoinKind, vs: set<Value>)
    requires Ready(left, right, on, vs) && Aligned(left, right, on.lc, on.rc)
    ensures Rest(left, right, on, kind, 0, 0) == JoinBag(left, right, on, kind)
  {
    hide Ready, Aligned, Rest, JoinBag;
    NoRows(left, right, on, kind, WidthOf(right));
    NoRows(left, right, on, kind, WidthOf(left));
    RestJoins(left, right, on, kind, 0, 0, vs);
  }
}
