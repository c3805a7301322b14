/** Sort-merge join (src/join.rs, lines 136-201), for all six kinds. */
module MergeJoins {
  import opened Values
  import opened JoinBags
  import opened KeyOrders
  import opened MergeSteps
  import opened MixedKeys

  /** Lines 136-201. It returns the join by equal keys of aligned sides; when it returns pairs, of
      these only. */
  method SortMergeJoin(left0: Rows, right0: Rows, lc: nat, rc: nat, kind: JoinKind) returns (out: Rows)
    requires Orderable(left0, right0, lc, rc) && Paddable(left0, right0, kind)
    ensures Aligned(left0, right0, lc, rc) ==> multiset(out) == JoinBag(left0, right0, On(lc, rc, SameKeys), kind)
    ensures !kind.LeftOnly() && Uniform(left0) ==>
              (multiset(out) == JoinBag(left0, right0, On(lc, rc, SameKeys), kind) ==> Aligned(left0, right0, lc, rc))
  {
    hide Aligned, JoinBag, Uniform, Paddable, Rest;
    ghost var on, vs := On(lc, rc, SameKeys), KeysOf(left0, lc) + KeysOf(right0, rc);
    var left, right := SortRows(left0, lc), SortRows(right0, rc);
    SortedReady(left0, right0, on, vs);
    AlignedSorted(left0, right0, lc, rc, vs);
    MergeIff(left, right, on, kind, vs);
    JoinPermuted(left0, left, right0, right, on, kind);
    SameUniform(left0, left);
    out := MergeRows(left, right, lc, rc, kind);
  }

  lemma SortedReady(left: Rows, right: Rows, on: On, vs: set<Value>)
    requires on.how.SameKeys? && Orderable(left, right, on.lc, on.rc)
    requires vs == KeysOf(left, on.lc) + KeysOf(right, on.rc)
    ensures Ready(SortRows(left, on.lc), SortRows(right, on.rc), on, vs)
    ensures Within(left, on.lc, vs) && Within(right, on.rc, vs)
  {
    hide KeyOf, SortRows, NoneBlurred, Ordered, SortedBy;
    OrderedIffNoneBlurred(vs);
    assert forall i :: 0 <= i < |left| ==> left[i] in left;
    assert forall i :: 0 <= i < |right| ==> right[i] in right;
    RowsSorted(left, on.lc, vs);
    RowsSorted(right, on.rc, vs);
  }

  lemma SameUniform(rows: Rows, other: Rows)
    requires multiset(rows) == multiset(other)
    ensures Uniform(rows) ==> Uniform(other)
  {
    if Uniform(rows) {
      forall i | 0 <= i < |other| ensures |other[i]| == |other[0]| {
        var x := PlaceOf(other, rows, i);
        var y := PlaceOf(other, rows, 0);
        assert |rows[x]| == |rows[0]| == |rows[y]|;
      }
    }
  }

  /** The merge of lines 147-199. */
  method MergeRows(left: Rows, right: Rows, lc: nat, rc: nat, kind: JoinKind) returns (out: Rows)
    ensures multiset(out) == Rest(left, right, On(lc, rc, SameKeys), kind, 0, 0)
  {
    hide KeyOf, TotalCmp, Nulls, AllPairs, RunEndOf, Rest, WidthOf, Gives;
    ghost var on := On(lc, rc, SameKeys);
    out := [];
    var i: nat, j: nat := 0, 0;
    GivesAll(left, right, on, kind);
    while i < |left| && j < |right|
      invariant i <= |left| && j <= |right| && Gives(left, right, on, kind, i, j, out)
      decreases |left| - i + |right| - j
    {
      ghost var before := out;
      match TotalCmp(KeyOf(left[i], lc), KeyOf(right[j], rc)) {
        case Less =>
          if kind.KeepsLeft() {
            out := out + [left[i] + Nulls(WidthOf(right))];
          }
          GivesLeft(left, right, on, kind, i, j, before, out);
          i := i + 1;
        case Greater =>
          if kind.KeepsRight() {
            out := out + [Nulls(WidthOf(left)) + right[j]];
          }
          GivesRight(left, right, on, kind, i, j, before, out);
          j := j + 1;
        case Equal =>
          var iend := RunEnd(left, lc, i);
          var jend := RunEnd(right, rc, j);
          var pairs := EmitRuns(left[i..iend], right[j..jend], kind);
          out := out + pairs;
          GivesRuns(left, right, on, kind, i, j, before, pairs);
          i, j := iend, jend;
      }
    }
    while i < |left|
      invariant i <= |left| && j <= |right| && (i < |left| ==> j == |right|)
      invariant Gives(left, right, on, kind, i, j, out)
    {
      ghost var before := out;
      if kind.KeepsLeft() {
        out := out + [left[i] + Nulls(WidthOf(right))];
      }
      GivesLeft(left, right, on, kind, i, j, before, out);
      i := i + 1;
    }
    while j < |right|
      invariant Gives(left, right, on, kind, i, j, out) && i == |left| && j <= |right|
    {
      ghost var before := out;
      if kind.KeepsRight() {
        out := out + [Nulls(WidthOf(left)) + right[j]];
      }
      GivesRight(left, right, on, kind, i, j, before, out);
      j := j + 1;
    }
    GaveAll(left, right, on, kind, out);
  }

  /** What is out and what is still to come make up the whole. */
  ghost predicate Gives(left: Rows, right: Rows, on: On, kind: JoinKind, i: nat, j: nat, out: Rows)
  {
    && i <= |left| && j <= |right|
    && multiset(out) + Rest(left, right, on, kind, i, j) == Rest(left, right, on, kind, 0, 0)
  }

  lemma GivesAll(left: Rows, right: Rows, on: On, kind: JoinKind)
    ensures Gives(left, right, on, kind, 0, 0, [])
  {
    hide Rest;
  }

  lemma GaveAll(left: Rows, right: Rows, on: On, kind: JoinKind, out: Rows)
    requires Gives(left, right, on, kind, |left|, |right|, out)
    ensures multiset(out) == Rest(left, right, on, kind, 0, 0)
  {
    NoRest(left, right, on, kind);
    hide Rest;
  }

  lemma NoRest(left: Rows, right: Rows, on: On, kind: JoinKind)
    ensures Rest(left, right, on, kind, |left|, |right|) == multiset{}
  {
  }

  lemma GivesLeft(left: Rows, right: Rows, on: On, kind: JoinKind, i: nat, j: nat, out: Rows, next: Rows)
    requires Gives(left, right, on, kind, i, j, out) && i < |left| && Behind(left, right, on, i, j).Less?
    requires next == if kind.KeepsLeft() then out + [left[i] + Nulls(WidthOf(right))] else out
    ensures Gives(left, right, on, kind, i + 1, j, next)
  {
    hide Behind, Nulls, WidthOf, AllPairs, RunEndOf;
    var rest := Rest(left, right, on, kind, i + 1, j);
    assert Rest(left, right, on, kind, i, j) == LeftPad(left, right, kind, i) + rest;
    hide Rest;
  }

  lemma GivesRight(left: Rows, right: Rows, on: On, kind: JoinKind, i: nat, j: nat, out: Rows, next: Rows)
    requires Gives(left, right, on, kind, i, j, out) && j < |right| && Behind(left, right, on, i, j).Greater?
    requires next == if kind.KeepsRight() then out + [Nulls(WidthOf(left)) + right[j]] else out
    ensures Gives(left, right, on, kind, i, j + 1, next)
  {
    hide Behind, Nulls, WidthOf, AllPairs, RunEndOf;
    var rest := Rest(left, right, on, kind, i, j + 1);
    assert Rest(left, right, on, kind, i, j) == RightPad(left, right, kind, j) + rest;
    hide Rest;
  }

  lemma GivesRuns(left: Rows, right: Rows, on: On, kind: JoinKind, i: nat, j: nat, out: Rows, pairs: Rows)
    requires Gives(left, right, on, kind, i, j, out) && i < |left| && j < |right|
             && Behind(left, right, on, i, j).Equal?
    requires var e, f := RunEndOf(left, on.lc, i), RunEndOf(right, on.rc, j);
             multiset(pairs) == AllPairs(left[i..e], right[j..f], kind)
    ensures Gives(left, right, on, kind, RunEndOf(left, on.lc, i), RunEndOf(right, on.rc, j), out + pairs)
  {
    hide Behind, Nulls, WidthOf, AllPairs, RunEndOf;
    var e, f := RunEndOf(left, on.lc, i), RunEndOf(right, on.rc, j);
    assert Rest(left, right, on, kind, i, j)
        == AllPairs(left[i..e], right[j..f], kind) + Rest(left, right, on, kind, e, f);
    hide Rest;
  }

  /** Where the run of equal keys ends (lines 170-177). */
  method RunEnd(rows: Rows, col: nat, start: nat) returns (end: nat)
    requires start < |rows|
    ensures IsRun(rows, col, start, end) && end == RunEndOf(rows, col, start)
  {
    hide KeyOf, RunEndOf;
    end := start;
    while end < |rows| && KeyOf(rows[end], col) == KeyOf(rows[start], col)
      invariant start <= end <= |rows|
      invariant forall x :: start <= x < end ==> KeyOf(rows[x], col) == KeyOf(rows[start], col)
    {
      end := end + 1;
    }
    OneEnd(rows, col, start, end, RunEndOf(rows, col, start));
  }

  /** Lines 178-182: every pair of two runs. */
  method EmitRuns(left: Rows, right: Rows, kind: JoinKind) returns (pairs: Rows)
    ensures multiset(pairs) == AllPairs(left, right, kind)
  {
    hide WithEach;
    pairs := [];
    for a := 0 to |left|
      invariant multiset(pairs) == AllPairs(left[..a], right, kind)
    {
      assert left[..a + 1][..a] == left[..a];
      var row := EmitRow(left[a], right, kind);
      pairs := pairs + row;
    }
    assert left[..|left|] == left;
  }

  method EmitRow(l: Row, right: Rows, kind: JoinKind) returns (pairs: Rows)
    ensures multiset(pairs) == WithEach(l, right, kind)
  {
    hide Emitted;
    pairs := [];
    for b := 0 to |right|
      invariant multiset(pairs) == WithEach(l, right[..b], kind)
    {
      assert right[..b + 1][..b] == right[..b];
      pairs := pairs + [Emitted(l, right[b], kind)];
    }
    assert right[..|right|] == right;
  }
}
