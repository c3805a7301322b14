/** When the three join algorithms of src/join.rs return the same bag of rows. The hash join and the
    merge do when no integer meets a real that compares equal, or such keys are aligned; the nested
    loops do not match nulls, do not pad right rows, and alone pick every left row once for a semi or
    anti join. */
module JoinsAgree {
  import opened Doubles
  import opened Values
  import opened Comparisons
  import opened JoinBags
  import opened Joins
  import opened KeyOrders
  import opened MergeSteps
  import opened MixedKeys
  import opened MergeJoins

  function OnNulls(lc: nat, rc: nat): On { On(lc, rc, SameKeys) }

  function OnKeys(lc: nat, rc: nat): On { On(lc, rc, Compared(Eq)) }

  // ----- counting ----------------------------------------------------------------------------

  function NullCount(rows: Rows, col: nat): nat
  {
    if rows == [] then 0
    else NullCount(rows[..|rows| - 1], col) + if KeyOf(rows[|rows| - 1], col).Null? then 1 else 0
  }

  function MatchCount(l: Row, right: Rows, on: On): nat
  {
    if right == [] then 0
    else MatchCount(l, right[..|right| - 1], on) + if Matches(l, right[|right| - 1], on) then 1 else 0
  }

  lemma {:induction false} NullsThere(rows: Rows, col: nat)
    ensures NullCount(rows, col) > 0 <==> exists i :: 0 <= i < |rows| && KeyOf(rows[i], col).Null?
  {
    hide KeyOf;
    if rows != [] {
      var n := |rows| - 1;
      NullsThere(rows[..n], col);
      if i :| 0 <= i < |rows| && KeyOf(rows[i], col).Null? && i < n {
        assert rows[..n][i] == rows[i];
      }
    }
  }

  lemma {:induction false} CountsThere(l: Row, right: Rows, on: On)
    ensures MatchCount(l, right, on) > 0 <==> Matched(l, right, on)
  {
    hide Matches;
    if right != [] {
      var n := |right| - 1;
      assert right[..n + 1] == right;
      CountsThere(l, right[..n], on);
      MatchedTake(l, right, on, n);
      hide Matched;
    }
  }

  /** A null matches as many rows as there are nulls, and any other key the same rows either way. */
  lemma {:induction false} CountCases(l: Row, right: Rows, lc: nat, rc: nat)
    ensures KeyOf(l, lc).Null? ==>
            MatchCount(l, right, OnNulls(lc, rc)) == NullCount(right, rc) && MatchCount(l, right, OnKeys(lc, rc)) == 0
    ensures !KeyOf(l, lc).Null? ==> MatchCount(l, right, OnNulls(lc, rc)) == MatchCount(l, right, OnKeys(lc, rc))
  {
    if right != [] {
      CountCases(l, right[..|right| - 1], lc, rc);
    }
  }

  // ----- semi and anti joins -----------------------------------------------------------------

  lemma {:induction false} CopiesOfRow(l: Row, right: Rows, on: On, kind: JoinKind, x: Row)
    requires kind.LeftOnly()
    ensures RowBag(l, right, on, kind)[x] == if x == l then MatchCount(l, right, on) else 0
  {
    hide Matches;
    if right != [] {
      CopiesOfRow(l, right[..|right| - 1], on, kind, x);
    }
  }

  lemma {:induction false} CopiesOfLeft(left: Rows, right: Rows, on: On, kind: JoinKind, width: nat, x: Row)
    requires kind.LeftOnly()
    ensures LeftBag(left, right, on, kind, width)[x] == multiset(left)[x] * MatchCount(x, right, on)
  {
    if left != [] {
      CopiesNext(left, right, on, kind, width, x);
      hide MatchCount, LeftBag;
      var front := left[..|left| - 1];
      CopiesOfLeft(front, right, on, kind, width, x);
      OneMoreTime(multiset(front)[x], MatchCount(x, right, on));
    }
  }

  lemma CopiesNext(left: Rows, right: Rows, on: On, kind: JoinKind, width: nat, x: Row)
    requires kind.LeftOnly() && left != []
    ensures var front, l := left[..|left| - 1], left[|left| - 1];
            LeftBag(left, right, on, kind, width)[x]
              == LeftBag(front, right, on, kind, width)[x] + (if x == l then MatchCount(x, right, on) else 0)
            && multiset(left)[x] == multiset(front)[x] + if x == l then 1 else 0
  {
    hide MatchCount, RowBag;
    var front, l := left[..|left| - 1], left[|left| - 1];
    CopiesOfRow(l, right, on, kind, x);
    assert left == front + [l];
  }

  lemma OneMoreTime(n: nat, c: nat)
    ensures (n + 1) * c == n * c + c
  {
  }

  lemma {:induction false} CopiesPicked(left: Rows, right: Rows, on: On, keep: bool, x: Row)
    ensures Picked(left, right, on, keep)[x] == if Matched(x, right, on) == keep then multiset(left)[x] else 0
  {
    if left != [] {
      var front, l := left[..|left| - 1], left[|left| - 1];
      CopiesPicked(front, right, on, keep, x);
      assert left == front + [l];
      hide Matched;
    }
  }

  /** A row of a list as often as it matches, against once if it is picked. */
  ghost predicate PickedOnce(left: Rows, right: Rows, on: On, other: On, keep: bool)
  {
    forall i :: 0 <= i < |left| ==>
      MatchCount(left[i], right, on) == if Matched(left[i], right, other) == keep then 1 else 0
  }

  lemma PickedIff(left: Rows, right: Rows, on: On, other: On, kind: JoinKind, width: nat, keep: bool)
    requires kind.LeftOnly()
    ensures LeftBag(left, right, on, kind, width) == Picked(left, right, other, keep) <==>
            PickedOnce(left, right, on, other, keep)
  {
    hide LeftBag, Picked, MatchCount, Matched;
    var a, b := LeftBag(left, right, on, kind, width), Picked(left, right, other, keep);
    if a == b {
      forall i | 0 <= i < |left|
        ensures MatchCount(left[i], right, on) == if Matched(left[i], right, other) == keep then 1 else 0
      {
        CopiesOfLeft(left, right, on, kind, width, left[i]);
        CopiesPicked(left, right, other, keep, left[i]);
        assert left[i] in multiset(left);
        SameFactor(multiset(left)[left[i]], MatchCount(left[i], right, on),
          if Matched(left[i], right, other) == keep then 1 else 0);
      }
    }
    if PickedOnce(left, right, on, other, keep) {
      forall x: Row ensures a[x] == b[x] {
        CopiesOfLeft(left, right, on, kind, width, x);
        CopiesPicked(left, right, other, keep, x);
        if x in multiset(left) {
          var i :| 0 <= i < |left| && left[i] == x;
        }
      }
    }
  }

  lemma SameFactor(n: nat, a: nat, b: nat)
    requires n > 0 && n * a == n * b
    ensures a == b
  {
    assert n * (a - b) == n * a - n * b;
  }

  // ----- null keys ---------------------------------------------------------------------------

  /** The pairs of rows that both have a null key. */
  ghost function NullPairs(left: Rows, right: Rows, lc: nat, rc: nat, kind: JoinKind): multiset<Row>
  {
    if left == [] then multiset{}
    else
      var front, l := NullPairs(left[..|left| - 1], right, lc, rc, kind), left[|left| - 1];
      if KeyOf(l, lc).Null? then front + RowBag(l, right, OnNulls(lc, rc), kind) else front
  }

  /** The left rows with a null key, padded. */
  ghost function NullPads(left: Rows, lc: nat, width: nat): multiset<Row>
  {
    if left == [] then multiset{}
    else
      var front, l := NullPads(left[..|left| - 1], lc, width), left[|left| - 1];
      if KeyOf(l, lc).Null? then front + multiset{l + Nulls(width)} else front
  }

  /** ... which the nested loops have in place of those pairs. */
  ghost function Instead(left: Rows, right: Rows, lc: nat, rc: nat, kind: JoinKind, width: nat): multiset<Row>
  {
    if kind.KeepsLeft() && NullCount(right, rc) > 0 then NullPads(left, lc, width) else multiset{}
  }

  ghost function PadInstead(l: Row, right: Rows, rc: nat, kind: JoinKind, width: nat): multiset<Row>
  {
    if kind.KeepsLeft() && NullCount(right, rc) > 0 then multiset{l + Nulls(width)} else multiset{}
  }

  /** What a left row contributes when nulls match and when they do not. */
  lemma ContributionCases(l: Row, right: Rows, lc: nat, rc: nat, kind: JoinKind, width: nat)
    ensures var all, keys := Contribution(l, right, OnNulls(lc, rc), kind, width),
            Contribution(l, right, OnKeys(lc, rc), kind, width);
            if KeyOf(l, lc).Null? then all + PadInstead(l, right, rc, kind, width)
              == keys + RowBag(l, right, OnNulls(lc, rc), kind)
            else all == keys
  {
    CountCases(l, right, lc, rc);
    CountsThere(l, right, OnNulls(lc, rc));
    CountsThere(l, right, OnKeys(lc, rc));
    if !KeyOf(l, lc).Null? {
      SameRowBag(l, right, lc, rc, kind);
    } else {
      UnmatchedRow(l, right, OnKeys(lc, rc), kind);
      if NullCount(right, rc) == 0 {
        UnmatchedRow(l, right, OnNulls(lc, rc), kind);
      }
    }
    hide MatchCount, Matched, RowBag, NullCount, Nulls;
  }

  lemma {:induction false} SameRowBag(l: Row, right: Rows, lc: nat, rc: nat, kind: JoinKind)
    requires !KeyOf(l, lc).Null?
    ensures RowBag(l, right, OnNulls(lc, rc), kind) == RowBag(l, right, OnKeys(lc, rc), kind)
  {
    if right != [] {
      SameRowBag(l, right[..|right| - 1], lc, rc, kind);
    }
  }

  lemma {:induction false} NullsDiffer(left: Rows, right: Rows, lc: nat, rc: nat, kind: JoinKind, width: nat)
    ensures LeftBag(left, right, OnNulls(lc, rc), kind, width) + Instead(left, right, lc, rc, kind, width)
         == LeftBag(left, right, OnKeys(lc, rc), kind, width) + NullPairs(left, right, lc, rc, kind)
  {
    if left != [] {
      var front, l := left[..|left| - 1], left[|left| - 1];
      NullsDiffer(front, right, lc, rc, kind, width);
      ContributionCases(l, right, lc, rc, kind, width);
      InsteadNext(left, right, lc, rc, kind, width);
      hide Contribution, RowBag, KeyOf, NullCount, Nulls, Instead, PadInstead, NullPads;
      var isNull := KeyOf(l, lc).Null?;
      AddBoth(LeftBag(front, right, OnNulls(lc, rc), kind, width), Instead(front, right, lc, rc, kind, width),
              LeftBag(front, right, OnKeys(lc, rc), kind, width), NullPairs(front, right, lc, rc, kind),
              Contribution(l, right, OnNulls(lc, rc), kind, width),
                if isNull then PadInstead(l, right, rc, kind, width) else multiset{},
              Contribution(l, right, OnKeys(lc, rc), kind, width),
                if isNull then RowBag(l, right, OnNulls(lc, rc), kind) else multiset{});
    }
  }

  lemma InsteadNext(left: Rows, right: Rows, lc: nat, rc: nat, kind: JoinKind, width: nat)
    requires left != []
    ensures var l := left[|left| - 1];
            Instead(left, right, lc, rc, kind, width) == Instead(left[..|left| - 1], right, lc, rc, kind, width)
              + if KeyOf(l, lc).Null? then PadInstead(l, right, rc, kind, width) else multiset{}
  {
    hide Nulls, KeyOf, NullCount;
  }

  lemma AddBoth(a: multiset<Row>, b: multiset<Row>, c: multiset<Row>, d: multiset<Row>, a': multiset<Row>,
          b': multiset<Row>, c': multiset<Row>, d': multiset<Row>)
    requires a + b == c + d && a' + b' == c' + d'
    ensures (a + a') + (b + b') == (c + c') + (d + d')
  {
    assert (a + a') + (b + b') == (a + b) + (a' + b');
    assert (c + c') + (d + d') == (c + d) + (c' + d');
  }

  lemma {:induction false} RowSize(l: Row, right: Rows, on: On, kind: JoinKind)
    ensures |RowBag(l, right, on, kind)| == MatchCount(l, right, on)
  {
    hide Matches, Emitted;
    if right != [] {
      RowSize(l, right[..|right| - 1], on, kind);
    }
  }

  lemma {:induction false} NullSizes(left: Rows, right: Rows, lc: nat, rc: nat, kind: JoinKind, width: nat)
    ensures |NullPairs(left, right, lc, rc, kind)| == NullCount(left, lc) * NullCount(right, rc)
    ensures |NullPads(left, lc, width)| == NullCount(left, lc)
  {
    if left != [] {
      var front, l := left[..|left| - 1], left[|left| - 1];
      NullSizes(front, right, lc, rc, kind, width);
      RowSize(l, right, OnNulls(lc, rc), kind);
      CountCases(l, right, lc, rc);
      OneMoreTime(NullCount(front, lc), NullCount(right, rc));
      hide RowBag, MatchCount, KeyOf, Nulls;
    }
  }

  /** Every right row has a match. */
  ghost predicate AllRightMatched(left: Rows, right: Rows, lc: nat, rc: nat)
  {
    forall j :: 0 <= j < |right| ==> Matched(right[j], left, Flip(OnNulls(lc, rc)))
  }

  lemma {:induction false} NoPadsIff(left: Rows, right: Rows, on: On, width: nat)
    ensures |RightPads(left, right, on, width)| == 0 <==> forall j :: 0 <= j < |right| ==>
            Matched(right[j], left, Flip(on))
  {
    hide Matched, Nulls;
    if right != [] {
      var n := |right| - 1;
      NoPadsIff(left, right[..n], on, width);
      assert forall j :: 0 <= j < n ==> right[..n][j] == right[j];
    }
  }

  /** Only one right row has a null key, and it holds nothing but nulls. */
  ghost predicate LoneNulls(right: Rows, rc: nat)
  {
    NullCount(right, rc) == 1 && exists j ::
      0 <= j < |right| && KeyOf(right[j], rc).Null? && right[j] == Nulls(WidthOf(right))
  }

  /** A null key meets the only right row with one. */
  lemma {:induction false} LoneRow(l: Row, right: Rows, lc: nat, rc: nat, kind: JoinKind, j: nat)
    requires NullCount(right, rc) == 1 && j < |right| && KeyOf(right[j], rc).Null? && KeyOf(l, lc).Null?
             && !kind.LeftOnly()
    ensures RowBag(l, right, OnNulls(lc, rc), kind) == multiset{l + right[j]}
  {
    var n := |right| - 1;
    if j < n {
      NullsThere(right[..n], rc);
      assert KeyOf(right[..n][j], rc).Null?;
      LoneRow(l, right[..n], lc, rc, kind, j);
    } else {
      CountCases(l, right[..n], lc, rc);
      CountsThere(l, right[..n], OnNulls(lc, rc));
      UnmatchedRow(l, right[..n], OnNulls(lc, rc), kind);
    }
  }

  lemma {:induction false} LonePads(left: Rows, right: Rows, lc: nat, rc: nat, kind: JoinKind, j: nat)
    requires NullCount(right, rc) == 1 && j < |right| && KeyOf(right[j], rc).Null? && !kind.LeftOnly()
    requires right[j] == Nulls(WidthOf(right))
    ensures NullPairs(left, right, lc, rc, kind) == NullPads(left, lc, WidthOf(right))
  {
    if left != [] {
      var front, l := left[..|left| - 1], left[|left| - 1];
      LonePads(front, right, lc, rc, kind, j);
      if KeyOf(l, lc).Null? {
        LoneRow(l, right, lc, rc, kind, j);
      }
      hide RowBag, NullCount, KeyOf, Nulls;
    }
  }

  lemma {:induction false} PadMember(left: Rows, lc: nat, width: nat, x: Row) returns (i: nat)
    requires x in NullPads(left, lc, width)
    ensures i < |left| && x == left[i] + Nulls(width)
  {
    var n := |left| - 1;
    if KeyOf(left[n], lc).Null? && x == left[n] + Nulls(width) {
      i := n;
    } else {
      i := PadMember(left[..n], lc, width, x);
    }
  }

  lemma {:induction false} PairMember(left: Rows, right: Rows, lc: nat, rc: nat, kind: JoinKind, i: nat, x: Row)
    requires i < |left| && KeyOf(left[i], lc).Null? && x in RowBag(left[i], right, OnNulls(lc, rc), kind)
    ensures x in NullPairs(left, right, lc, rc, kind)
  {
    hide RowBag;
    if i < |left| - 1 {
      PairMember(left[..|left| - 1], right, lc, rc, kind, i, x);
    }
  }

  /** The pairs of nulls are the padded rows if and only if the nulls paired with are padding. */
  lemma PairsArePads(left: Rows, right: Rows, lc: nat, rc: nat, kind: JoinKind)
    requires Uniform(left) && NullCount(left, lc) > 0 && NullCount(right, rc) > 0 && !kind.LeftOnly()
    ensures NullPairs(left, right, lc, rc, kind) == NullPads(left, lc, WidthOf(right)) <==> LoneNulls(right, rc)
    ensures NullPairs(left, right, lc, rc, kind) == NullPads(left, lc, WidthOf(right)) ==> NullCount(right, rc) == 1
  {
    hide NullPairs, NullPads, NullCount, KeyOf, Nulls, RowBag;
    NullSizes(left, right, lc, rc, kind, WidthOf(right));
    NullsThere(left, lc);
    NullsThere(right, rc);
    if LoneNulls(right, rc) {
      var j :| 0 <= j < |right| && KeyOf(right[j], rc).Null? && right[j] == Nulls(WidthOf(right));
      LonePads(left, right, lc, rc, kind, j);
    }
    if NullPairs(left, right, lc, rc, kind) == NullPads(left, lc, WidthOf(right)) {
      SameFactor(NullCount(left, lc), NullCount(right, rc), 1);
      var i :| 0 <= i < |left| && KeyOf(left[i], lc).Null?;
      var j :| 0 <= j < |right| && KeyOf(right[j], rc).Null?;
      LoneRow(left[i], right, lc, rc, kind, j);
      PairMember(left, right, lc, rc, kind, i, left[i] + right[j]);
      var k := PadMember(left, lc, WidthOf(right), left[i] + right[j]);
      SameTail(left[i], right[j], left[k], Nulls(WidthOf(right)));
    }
  }

  lemma SameTail(a: Row, b: Row, c: Row, d: Row)
    requires a + b == c + d && |a| == |c|
    ensures b == d
  {
    assert b == (a + b)[|a|..] && d == (c + d)[|c|..];
  }

  // ----- agreement ---------------------------------------------------------------------------

  ghost predicate BothNull(left: Rows, right: Rows, lc: nat, rc: nat)
  {
    NullCount(left, lc) > 0 && NullCount(right, rc) > 0
  }

  /** When the nested loops return what the other two return. */
  ghost predicate NestedAgrees(left: Rows, right: Rows, lc: nat, rc: nat, kind: JoinKind)
  {
    match kind
    case Inner => !BothNull(left, right, lc, rc)
    case LeftOuter => !BothNull(left, right, lc, rc) || LoneNulls(right, rc)
    case RightOuter => !BothNull(left, right, lc, rc) && AllRightMatched(left, right, lc, rc)
    case FullOuter => (!BothNull(left, right, lc, rc) || LoneNulls(right, rc)) && AllRightMatched(left, right, lc, rc)
    case Semi =>
      !BothNull(left, right, lc, rc) && forall i :: 0 <= i < |left| ==> MatchCount(left[i], right, OnNulls(lc, rc)) <= 1
    case Anti =>
      forall i :: 0 <= i < |left| ==> KeyOf(left[i], lc).Null? && NullCount(right, rc) == 1
  }

  lemma PairKinds(left: Rows, right: Rows, lc: nat, rc: nat, kind: JoinKind)
    requires !kind.LeftOnly() && (kind.KeepsLeft() ==> Uniform(left))
    ensures JoinBag(left, right, OnNulls(lc, rc), kind) == NestedBag(left, right, OnKeys(lc, rc), kind) <==>
            NestedAgrees(left, right, lc, rc, kind)
  {
    hide LeftBag, NullPairs, NullPads, NullCount, RightPads, Uniform, LoneNulls, Matched;
    var w := WidthOf(right);
    var all, keys := LeftBag(left, right, OnNulls(lc, rc), kind, w), LeftBag(left, right, OnKeys(lc, rc), kind, w);
    var pairs, pads := NullPairs(left, right, lc, rc, kind), Instead(left, right, lc, rc, kind, w);
    var more := RightPart(left, right, OnNulls(lc, rc), kind, WidthOf(left));
    NullsDiffer(left, right, lc, rc, kind, w);
    SumsIff(all, keys, pairs, pads, more);
    NullSizes(left, right, lc, rc, kind, w);
    NoPadsIff(left, right, OnNulls(lc, rc), WidthOf(left));
    if BothNull(left, right, lc, rc) {
      AtLeastOnce(NullCount(left, lc), NullCount(right, rc));
      if kind.KeepsLeft() {
        PairsArePads(left, right, lc, rc, kind);
        BagSum(pairs, more, pads);
      }
    } else {
      NoPairsNoPads(left, right, lc, rc, kind, w);
    }
  }

  /** With nulls on one side at most there is nothing to differ in. */
  lemma NoPairsNoPads(left: Rows, right: Rows, lc: nat, rc: nat, kind: JoinKind, width: nat)
    requires !BothNull(left, right, lc, rc)
    ensures NullPairs(left, right, lc, rc, kind) == multiset{}
            && Instead(left, right, lc, rc, kind, width) == multiset{}
  {
    hide NullPairs, NullPads, NullCount;
    NullSizes(left, right, lc, rc, kind, width);
  }

  lemma AtLeastOnce(n: nat, m: nat)
    requires n > 0 && m > 0
    ensures n * m >= n && (n * m == n <==> m == 1)
  {
    if m > 1 {
      assert n * m == n + n * (m - 1);
    }
  }

  lemma SumsIff(all: multiset<Row>, keys: multiset<Row>, pairs: multiset<Row>, pads: multiset<Row>, more: multiset<Row>)
    requires all + pads == keys + pairs
    ensures all + more == keys <==> pairs + more == pads
  {
    if all + more == keys {
      forall row: Row ensures (pairs + more)[row] == pads[row] {
        assert (all + pads)[row] == (keys + pairs)[row] && (all + more)[row] == keys[row];
      }
    }
    if pairs + more == pads {
      forall row: Row ensures (all + more)[row] == keys[row] {
        assert (all + pads)[row] == (keys + pairs)[row] && (pairs + more)[row] == pads[row];
      }
    }
  }

  /** Bags that are as large as needed for a sum leave nothing for the other summand. */
  lemma BagSum(a: multiset<Row>, more: multiset<Row>, b: multiset<Row>)
    requires |a| >= |b|
    ensures a + more == b <==> a == b && |more| == 0
  {
    if a + more == b {
      assert |a + more| == |a| + |more|;
      assert more == multiset{};
    }
    if |more| == 0 {
      assert more == multiset{};
    }
  }

  lemma LeftOnlyKinds(left: Rows, right: Rows, lc: nat, rc: nat, kind: JoinKind)
    requires kind.LeftOnly()
    ensures JoinBag(left, right, OnNulls(lc, rc), kind) == NestedBag(left, right, OnKeys(lc, rc), kind) <==>
            NestedAgrees(left, right, lc, rc, kind)
  {
    hide LeftBag, Picked, NullCount, MatchCount, Matched, KeyOf;
    PickedIff(left, right, OnNulls(lc, rc), OnKeys(lc, rc), kind, WidthOf(right), kind.Semi?);
    NullsThere(left, lc);
    forall i | 0 <= i < |left| ensures OnceCases(left[i], right, lc, rc) {
      CountCases(left[i], right, lc, rc);
      CountsThere(left[i], right, OnKeys(lc, rc));
    }
  }

  ghost predicate OnceCases(l: Row, right: Rows, lc: nat, rc: nat)
  {
    && (KeyOf(l, lc).Null? ==>
      MatchCount(l, right, OnNulls(lc, rc)) == NullCount(right, rc) && !Matched(l, right, OnKeys(lc, rc)))
    && (!KeyOf(l, lc).Null? ==> (Matched(l, right, OnKeys(lc, rc)) <==> MatchCount(l, right, OnNulls(lc, rc)) > 0))
  }

  /** The hash join and the merge return the same bag of rows if both sides are aligned, and when
      they return pairs, only then; the nested loops do if and only if their condition holds. */
  method AllAgree(left: Rows, right: Rows, lc: nat, rc: nat, kind: JoinKind)
    returns (hash: Rows, nested: Rows, merge: Rows)
    requires Orderable(left, right, lc, rc) && Paddable(left, right, kind)
    ensures Aligned(left, right, lc, rc) ==> multiset(hash) == multiset(merge)
    ensures !kind.LeftOnly() && Uniform(left) && multiset(hash) == multiset(merge) ==> Aligned(left, right, lc, rc)
    ensures (kind.KeepsLeft() ==> Uniform(left)) ==>
              (multiset(nested) == multiset(hash) <==> NestedAgrees(left, right, lc, rc, kind))
  {
    hide JoinBag, NestedBag, Uniform, NestedAgrees, Aligned, Paddable, Orderable;
    hash := HashJoin(left, right, lc, rc, kind);
    nested := NestedLoopJoin(left, right, lc, rc, Eq, kind);
    merge := SortMergeJoin(left, right, lc, rc, kind);
    if kind.LeftOnly() {
      LeftOnlyKinds(left, right, lc, rc, kind);
    } else if kind.KeepsLeft() ==> Uniform(left) {
      PairKinds(left, right, lc, rc, kind);
    }
  }

  // ----- what the kinds are for --------------------------------------------------------------

  /** A hash join or a merge for Semi keeps the left rows with a match if and only if none of them
      has more than one; for Anti it keeps those without a match only if there are no rows. */
  lemma LeftOnlyPromise(left: Rows, right: Rows, lc: nat, rc: nat, kind: JoinKind)
    requires kind.LeftOnly()
    ensures JoinBag(left, right, OnNulls(lc, rc), kind) == Picked(left, right, OnNulls(lc, rc), kind.Semi?)
       <==> if kind.Semi? then forall i :: 0 <= i < |left| ==>
         MatchCount(left[i], right, OnNulls(lc, rc)) <= 1 else left == []
  {
    hide LeftBag, Picked, MatchCount, Matched;
    var on := OnNulls(lc, rc);
    PickedIff(left, right, on, on, kind, WidthOf(right), kind.Semi?);
    forall i | 0 <= i < |left| ensures MatchCount(left[i], right, on) > 0 <==> Matched(left[i], right, on) {
      CountsThere(left[i], right, on);
    }
    assert left != [] ==> 0 < |left|;
  }

  /** The nested loops return every right row, or its pairs, if and only if all have a match. */
  lemma RightRowsKept(left: Rows, right: Rows, on: On, kind: JoinKind)
    requires kind.KeepsRight()
    ensures NestedBag(left, right, on, kind) == JoinBag(left, right, on, kind)
       <==> forall j :: 0 <= j < |right| ==> Matched(right[j], left, Flip(on))
  {
    hide LeftBag, RightPads, Matched;
    var a, more := NestedBag(left, right, on, kind), RightPads(left, right, on, WidthOf(left));
    NoPadsIff(left, right, on, WidthOf(left));
    if a == a + more {
      assert |a + more| == |a| + |more|;
    }
    if |more| == 0 {
      assert more == multiset{};
    }
  }

  /** Whatever the comparison, a semi join and an anti join by nested loops share out the left rows. */
  lemma {:induction false} SemiOrAnti(left: Rows, right: Rows, on: On)
    ensures NestedBag(left, right, on, Semi) + NestedBag(left, right, on, Anti) == multiset(left)
  {
    hide Matched;
    if left != [] {
      var front, l := left[..|left| - 1], left[|left| - 1];
      SemiOrAnti(front, right, on);
      assert left == front + [l];
    }
  }

  /** Joining where keys are equal and where they are not gives every pair, nulls included. */
  lemma {:induction false} EqualOrNot(left: Rows, right: Rows, lc: nat, rc: nat, width: nat)
    ensures LeftBag(left, right, On(lc, rc, Compared(Eq)), Inner, width)
            + LeftBag(left, right, On(lc, rc, Compared(Ne)), Inner, width)
         == AllPairs(left, right, Inner)
  {
    hide RowBag, WithEach;
    if left != [] {
      EqualOrNot(left[..|left| - 1], right, lc, rc, width);
      RowEqualOrNot(left[|left| - 1], right, lc, rc);
    }
  }

  lemma {:induction false} RowEqualOrNot(l: Row, right: Rows, lc: nat, rc: nat)
    ensures RowBag(l, right, On(lc, rc, Compared(Eq)), Inner) + RowBag(l, right, On(lc, rc, Compared(Ne)), Inner)
         == WithEach(l, right, Inner)
  {
    hide KeyOf;
    if right != [] {
      RowEqualOrNot(l, right[..|right| - 1], lc, rc);
    }
  }

  /** One null against one null: the hash join has a row, the nested loops none. */
  lemma NullsCounterexample()
    ensures JoinBag([[Null]], [[Null]], OnNulls(0, 0), Inner) == multiset{[Null, Null]}
    ensures NestedBag([[Null]], [[Null]], OnKeys(0, 0), Inner) == multiset{}
  {
    var l: Row, right: Rows := [Null], [[Null]];
    assert right[..0] == [] && [l][..0] == [];
    assert l + l == [Null, Null];
    assert RowBag(l, right, OnNulls(0, 0), Inner) == multiset{l + l};
    assert RowBag(l, right, OnKeys(0, 0), Inner) == multiset{};
  }

  /** An anti join by hashing returns the row that has a match, and a semi join returns it twice for
      two matches. */
  lemma LeftOnlyCounterexample()
    ensures JoinBag([[Int(1)]], [[Int(1)]], OnNulls(0, 0), Anti) == multiset{[Int(1)]}
    ensures JoinBag([[Int(1)]], [[Int(1)], [Int(1)]], OnNulls(0, 0), Semi) == multiset{[Int(1)], [Int(1)]}
  {
    var l: Row := [Int(1)];
    OneContribution(l, [l], OnNulls(0, 0), Anti);
    OneContribution(l, [l, l], OnNulls(0, 0), Semi);
    TwoMatches(l, l, OnNulls(0, 0), Anti);
    TwoMatches(l, l, OnNulls(0, 0), Semi);
    hide JoinBag, RowBag;
  }

  lemma TwoMatches(l: Row, r: Row, on: On, kind: JoinKind)
    requires Matches(l, r, on) && kind.LeftOnly()
    ensures RowBag(l, [r], on, kind) == multiset{l} && RowBag(l, [r, r], on, kind) == multiset{l, l}
  {
    hide Matches, RowBag;
    var two := [r, r];
    NoMatches(l, two, on, kind);
    RowTake(l, two, on, kind, 0);
    RowTake(l, two, on, kind, 1);
    assert two[..1] == [r] && two[..2] == two;
  }

  lemma OneContribution(l: Row, right: Rows, on: On, kind: JoinKind)
    requires kind.LeftOnly()
    ensures JoinBag([l], right, on, kind) == RowBag(l, right, on, kind)
  {
    var left := [l];
    NoRows(left, right, on, kind, WidthOf(right));
    LeftTake(left, right, on, kind, WidthOf(right), 0);
    assert left[..1] == left;
    hide RowBag, LeftBag;
  }

  // ----- integers and reals ------------------------------------------------------------------

  /** Where no integer of one side compares equal to a real of the other there is nothing to align. */
  lemma UnlikeAligned(left: Rows, right: Rows, lc: nat, rc: nat)
    requires Orderable(left, right, lc, rc)
    requires forall a, b ::
               a in KeysOf(left, lc) + KeysOf(right, rc) && b in KeysOf(left, lc) + KeysOf(right, rc) && Alike(a, b) ==>
               a == b
    ensures Aligned(left, right, lc, rc)
  {
    hide Alike, NoneBlurred, KeyOf, Grouped, KeysOf;
    var vs := KeysOf(left, lc) + KeysOf(right, rc);
    forall i | 0 <= i < |left| ensures Tidy(left, right, lc, rc, KeyOf(left[i], lc)) {
      var k := KeyOf(left[i], lc);
      KeyIn(left, lc, i);
      OneKey(left, lc, k, vs);
      OneKey(right, rc, k, vs);
      SameGrouped(ClassOf(left, lc, k), k);
      SameGrouped(ClassOf(right, rc, k), k);
      hide ClassOf;
    }
  }

  lemma {:induction false} OneKey(rows: Rows, col: nat, k: Value, vs: set<Value>)
    requires KeysOf(rows, col) <= vs && k in vs && forall a, b :: a in vs && b in vs && Alike(a, b) ==> a == b
    ensures forall x :: 0 <= x < |ClassOf(rows, col, k)| ==> ClassOf(rows, col, k)[x] == k
  {
    hide Alike, KeyOf;
    if rows != [] {
      KeyIn(rows, col, 0);
      assert KeysOf(rows[1..], col) <= KeysOf(rows, col);
      OneKey(rows[1..], col, k, vs);
    }
  }

  lemma SameGrouped(keys: seq<Value>, k: Value)
    requires forall x :: 0 <= x < |keys| ==> keys[x] == k
    ensures Grouped(keys)
  {
  }

  /** The integer 1 against the real 1: the merge has a row, the hash join none. */
  lemma MixedCounterexample()
    ensures Rest([[Int(1)]], [[Real(1.0)]], OnNulls(0, 0), Inner, 0, 0) == multiset{[Int(1), Real(1.0)]}
    ensures JoinBag([[Int(1)]], [[Real(1.0)]], OnNulls(0, 0), Inner) == multiset{}
  {
    var l: Row, r: Row := [Int(1)], [Real(1.0)];
    SmallIsExact(1);
    assert l + r == [Int(1), Real(1.0)];
    OneByOne(l, r, OnNulls(0, 0));
  }

  /** One row against another that compares equal and is not. */
  lemma OneByOne(l: Row, r: Row, on: On)
    requires Alike(KeyOf(l, on.lc), KeyOf(r, on.rc)) && !Matches(l, r, on)
    ensures Rest([l], [r], on, Inner, 0, 0) == multiset{l + r} && JoinBag([l], [r], on, Inner) == multiset{}
  {
    hide KeyOf, TotalCmp, Matches, JoinBag, AllPairs;
    var left, right := [l], [r];
    assert Rest(left, right, on, Inner, 0, 0)
        == AllPairs(left[0..1], right[0..1], Inner) + Rest(left, right, on, Inner, 1, 1);
    assert left[0..1] == left && right[0..1] == right;
    OnePair(l, r);
    NoneJoined(l, r, on);
  }

  lemma OnePair(l: Row, r: Row)
    ensures AllPairs([l], [r], Inner) == multiset{l + r}
  {
    assert [l][..0] == [] && [r][..0] == [];
    assert WithEach(l, [r], Inner) == multiset{l + r};
  }

  lemma NoneJoined(l: Row, r: Row, on: On)
    requires !Matches(l, r, on)
    ensures JoinBag([l], [r], on, Inner) == multiset{}
  {
    hide Matches;
    assert [l][..0] == [] && [r][..0] == [];
    assert RowBag(l, [r], on, Inner) == multiset{};
    assert LeftBag([l], [r], on, Inner, |r|) == LeftBag([], [r], on, Inner, |r|) + Contribution(l, [r], on, Inner, |r|);
  }

  /** For a semi join two such pairs may make up for each other, though the sides are not aligned. */
  lemma SwappedMatches()
    ensures var left, right := [[Int(1)], [Real(1.0)]], [[Real(1.0)], [Int(1)]];
            && Rest(left, right, OnNulls(0, 0), Semi, 0, 0) == JoinBag(left, right, OnNulls(0, 0), Semi)
            && !Aligned(left, right, 0, 0)
  {
    var l: Row, r: Row := [Int(1)], [Real(1.0)];
    var left, right, on := [l, r], [r, l], OnNulls(0, 0);
    SmallIsExact(1);
    SwappedMerged(l, r, on);
    SwappedJoined(l, r, on);
    assert Alike(Int(1), Int(1)) && Alike(Real(1.0), Int(1));
    SwappedClass(l, r, 0, Int(1));
    SwappedClass(r, l, 0, Int(1));
    hide Rest, JoinBag, ClassOf, TotalCmp;
    assert ClassOf(left, 0, Int(1)) == [Int(1), Real(1.0)] && ClassOf(right, 0, Int(1)) == [Real(1.0), Int(1)];
    assert !Tidy(left, right, 0, 0, KeyOf(left[0], 0));
  }

  lemma SwappedClass(a: Row, b: Row, col: nat, k: Value)
    requires Alike(KeyOf(a, col), k) && Alike(KeyOf(b, col), k)
    ensures ClassOf([a, b], col, k) == [KeyOf(a, col), KeyOf(b, col)]
  {
    hide Alike, KeyOf, ClassOf;
    ClassNone(col, k);
    ClassFirst(b, [], col, k);
    ClassFirst(a, [b], col, k);
    assert [b] + [] == [b] && [a] + [b] == [a, b];
  }

  lemma ClassNone(col: nat, k: Value)
    ensures ClassOf([], col, k) == []
  {
  }

  lemma SwappedMerged(l: Row, r: Row, on: On)
    requires Alike(KeyOf(l, on.lc), KeyOf(r, on.rc)) && Alike(KeyOf(r, on.lc), KeyOf(l, on.rc))
    requires KeyOf(l, on.lc) != KeyOf(r, on.lc) && KeyOf(r, on.rc) != KeyOf(l, on.rc)
    ensures Rest([l, r], [r, l], on, Semi, 0, 0) == multiset{l, r}
  {
    hide KeyOf, TotalCmp, AllPairs;
    var left, right := [l, r], [r, l];
    assert RunEndOf(left, on.lc, 0) == 1 && RunEndOf(right, on.rc, 0) == 1;
    assert left[0..1] == [l] && right[0..1] == [r] && left[1..2] == [r] && right[1..2] == [l];
    assert RunEndOf(left, on.lc, 1) == 2 && RunEndOf(right, on.rc, 1) == 2;
    SemiPair(l, r);
    SemiPair(r, l);
    assert Rest(left, right, on, Semi, 2, 2) == multiset{};
    assert Rest(left, right, on, Semi, 1, 1)
        == AllPairs(left[1..2], right[1..2], Semi) + Rest(left, right, on, Semi, 2, 2) == multiset{r};
    assert Rest(left, right, on, Semi, 0, 0)
        == AllPairs(left[0..1], right[0..1], Semi) + Rest(left, right, on, Semi, 1, 1);
  }

  lemma SemiPair(l: Row, r: Row)
    ensures AllPairs([l], [r], Semi) == multiset{l}
  {
    assert [l][..0] == [] && [r][..0] == [];
    assert WithEach(l, [r], Semi) == multiset{l};
  }

  lemma SwappedJoined(l: Row, r: Row, on: On)
    requires Matches(l, l, on) && Matches(r, r, on) && !Matches(l, r, on) && !Matches(r, l, on)
    ensures JoinBag([l, r], [r, l], on, Semi) == multiset{l, r}
  {
    hide Matches, RowBag, LeftBag;
    var left, right := [l, r], [r, l];
    NoRows(left, right, on, Semi, WidthOf(right));
    LeftTake(left, right, on, Semi, WidthOf(right), 0);
    LeftTake(left, right, on, Semi, WidthOf(right), 1);
    assert left[..2] == left;
    SemiRow(l, r, l, on);
    SemiRow(r, r, l, on);
  }

  lemma SemiRow(l: Row, a: Row, b: Row, on: On)
    requires Matches(l, a, on) != Matches(l, b, on)
    ensures RowBag(l, [a, b], on, Semi) == multiset{l}
  {
    hide Matches, RowBag;
    var right := [a, b];
    assert right[..2] == right;
    NoMatches(l, right, on, Semi);
    RowTake(l, right, on, Semi, 0);
    RowTake(l, right, on, Semi, 1);
  }
}
