/** Sort-merge join on keys of which an integer and a real compare equal: the bag it returns is the
    join by equal keys exactly when both sides are aligned. One pair of rows tells the two apart. */
module MixedKeys {
  import opened Values
  import opened JoinBags
  import opened Joins
  import opened KeyOrders
  import opened MergeSteps

  // ----- one pair of rows --------------------------------------------------------------------

  lemma SamePair(l: Row, r: Row, l': Row, r': Row)
    requires l + r == l' + r' && |l| == |l'|
    ensures l == l' && r == r'
  {
    assert (l + r)[..|l|] == l && (l' + r')[..|l'|] == l';
    assert (l + r)[|l|..] == r && (l' + r')[|l'|..] == r';
  }

  lemma NullKeys(n: nat, col: nat)
    ensures KeyOf(Nulls(n), col).Null?
  {
  }

  /** A pair of rows with keys is not a padded row. */
  lemma NoPad(l: Row, r: Row, row: Row, width: nat, on: On)
    requires !KeyOf(l, on.lc).Null? && !KeyOf(r, on.rc).Null?
    ensures |row| == |l| ==> row + Nulls(width) != l + r
    ensures width == |l| ==> Nulls(width) + row != l + r
  {
    hide KeyOf;
    NullKeys(width, on.lc);
    NullKeys(width, on.rc);
    if |row| == |l| && row + Nulls(width) == l + r {
      SamePair(row, Nulls(width), l, r);
    }
    if width == |l| && Nulls(width) + row == l + r {
      SamePair(Nulls(width), row, l, r);
    }
  }

  /** Left rows are as wide as this one, and its key and that of the right row are not null. */
  ghost predicate Marks(left: Rows, on: On, kind: JoinKind, l: Row, r: Row)
  {
    && !kind.LeftOnly() && WidthOf(left) == |l| && (forall i :: 0 <= i < |left| ==> |left[i]| == |l|)
    && !KeyOf(l, on.lc).Null? && !KeyOf(r, on.rc).Null?
  }

  // How often a pair comes out of rows that match.

  lemma {:induction false} EachCount(l0: Row, right: Rows, on: On, kind: JoinKind, l: Row, r: Row)
    requires |l0| == |l| && !kind.LeftOnly()
    ensures Matches(l, r, on) ==> WithEach(l0, right, kind)[l + r] <= RowBag(l0, right, on, kind)[l + r]
    ensures !Matches(l, r, on) ==> RowBag(l0, right, on, kind)[l + r] == 0
  {
    hide Matches;
    if right != [] {
      var r0 := right[|right| - 1];
      EachCount(l0, right[..|right| - 1], on, kind, l, r);
      if l0 + r0 == l + r {
        SamePair(l0, r0, l, r);
      }
    }
  }

  lemma {:induction false} PairsCount(left: Rows, right: Rows, on: On, kind: JoinKind, l: Row, r: Row)
    requires !kind.LeftOnly() && forall i :: 0 <= i < |left| ==> |left[i]| == |l|
    ensures Matches(l, r, on) ==> AllPairs(left, right, kind)[l + r] <= PairBag(left, right, on, kind)[l + r]
    ensures !Matches(l, r, on) ==> PairBag(left, right, on, kind)[l + r] == 0
  {
    hide Matches, WithEach, RowBag;
    if left != [] {
      PairsCount(left[..|left| - 1], right, on, kind, l, r);
      EachCount(left[|left| - 1], right, on, kind, l, r);
    }
  }

  lemma {:induction false} LeftPadsCount(left: Rows, right: Rows, on: On, width: nat, l: Row, r: Row)
    requires !KeyOf(l, on.lc).Null? && !KeyOf(r, on.rc).Null? && forall i :: 0 <= i < |left| ==> |left[i]| == |l|
    ensures LeftPads(left, right, on, width)[l + r] == 0
  {
    hide Matched, KeyOf, Nulls;
    if left != [] {
      LeftPadsCount(left[..|left| - 1], right, on, width, l, r);
      NoPad(l, r, left[|left| - 1], width, on);
    }
  }

  lemma {:induction false} RightPadsCount(left: Rows, right: Rows, on: On, l: Row, r: Row)
    requires !KeyOf(l, on.lc).Null? && !KeyOf(r, on.rc).Null?
    ensures RightPads(left, right, on, |l|)[l + r] == 0
  {
    hide Matched, KeyOf, Nulls;
    if right != [] {
      RightPadsCount(left, right[..|right| - 1], on, l, r);
      NoPad(l, r, right[|right| - 1], |l|, on);
    }
  }

  /** A join holds such a pair as often as it matches. */
  lemma JoinCount(left: Rows, right: Rows, on: On, kind: JoinKind, l: Row, r: Row)
    requires Marks(left, on, kind, l, r)
    ensures JoinBag(left, right, on, kind)[l + r] == PairBag(left, right, on, kind)[l + r]
  {
    LeftParts(left, right, on, kind, WidthOf(right));
    LeftPadsCount(left, right, on, WidthOf(right), l, r);
    RightPadsCount(left, right, on, l, r);
    hide LeftBag, PairBag, LeftPads, RightPads, KeyOf;
  }

  // Pairs of parts of both sides.

  lemma {:induction false} RowParts(l: Row, a: Rows, b: Rows, on: On, kind: JoinKind)
    ensures RowBag(l, a + b, on, kind) == RowBag(l, a, on, kind) + RowBag(l, b, on, kind)
  {
    hide Matches, Emitted;
    if b == [] {
      assert a + b == a;
    } else {
      var n := |b| - 1;
      assert (a + b)[..|a + b| - 1] == a + b[..n];
      RowParts(l, a, b[..n], on, kind);
    }
  }

  lemma {:induction false} RightParts(left: Rows, a: Rows, b: Rows, on: On, kind: JoinKind)
    ensures PairBag(left, a + b, on, kind) == PairBag(left, a, on, kind) + PairBag(left, b, on, kind)
  {
    hide RowBag;
    if left != [] {
      RightParts(left[..|left| - 1], a, b, on, kind);
      RowParts(left[|left| - 1], a, b, on, kind);
    }
  }

  lemma {:induction false} LeftSides(a: Rows, b: Rows, right: Rows, on: On, kind: JoinKind)
    ensures PairBag(a + b, right, on, kind) == PairBag(a, right, on, kind) + PairBag(b, right, on, kind)
  {
    hide RowBag;
    if b == [] {
      assert a + b == a;
    } else {
      var n := |b| - 1;
      assert (a + b)[..|a + b| - 1] == a + b[..n];
      LeftSides(a, b[..n], right, on, kind);
    }
  }

  /** Four blocks of pairs. */
  lemma Blocks(a: Rows, b: Rows, c: Rows, d: Rows, on: On, kind: JoinKind)
    ensures PairBag(a + b, c + d, on, kind)
         == PairBag(a, c, on, kind) + PairBag(a, d, on, kind) + PairBag(b, c, on, kind) + PairBag(b, d, on, kind)
  {
    LeftSides(a, b, c + d, on, kind);
    RightParts(a, c, d, on, kind);
    RightParts(b, c, d, on, kind);
    hide PairBag;
  }

  /** How often the rows from two places on match as this pair. */
  ghost function Coming(left: Rows, right: Rows, on: On, kind: JoinKind, i: nat, j: nat, e: Row): nat
    requires i <= |left| && j <= |right|
  {
    PairBag(left[i..], right[j..], on, kind)[e]
  }

  lemma LeftSplit(left: Rows, right: Rows, on: On, kind: JoinKind, i: nat, j: nat, i': nat, j': nat, e: Row)
    requires i <= i' <= |left| && j <= j' <= |right|
    ensures Coming(left, right, on, kind, i, j, e)
         == PairBag(left[i..i'], right[j..j'], on, kind)[e] + PairBag(left[i..i'], right[j'..], on, kind)[e]
            + PairBag(left[i'..], right[j..j'], on, kind)[e] + Coming(left, right, on, kind, i', j', e)
  {
    assert left[i..] == left[i..i'] + left[i'..] && right[j..] == right[j..j'] + right[j'..];
    Blocks(left[i..i'], left[i'..], right[j..j'], right[j'..], on, kind);
    hide PairBag;
  }

  // ----- the merge, step by step -------------------------------------------------------------

  /** The places after one step of the merge. */
  function After(left: Rows, right: Rows, on: On, i: nat, j: nat): (r: (nat, nat))
    requires i <= |left| && j <= |right| && (i < |left| || j < |right|)
    ensures i <= r.0 <= |left| && j <= r.1 <= |right| && i + j < r.0 + r.1
  {
    match Behind(left, right, on, i, j)
    case Less => (i + 1, j)
    case Greater => (i, j + 1)
    case Equal => (RunEndOf(left, on.lc, i), RunEndOf(right, on.rc, j))
  }

  /** A step emits no pair more often than it matches in the rows it passes. */
  lemma StepBound(left: Rows, right: Rows, on: On, kind: JoinKind, i: nat, j: nat, l: Row, r: Row, less: nat)
    requires Marks(left, on, kind, l, r) && i <= |left| && j <= |right| && (i < |left| || j < |right|)
    ensures var next := After(left, right, on, i, j);
            var more := Rest(left, right, on, kind, next.0, next.1)[l + r];
            && more <= Rest(left, right, on, kind, i, j)[l + r]
            && (Matches(l, r, on) && more + less <= Coming(left, right, on, kind, next.0, next.1, l + r) ==>
                  Rest(left, right, on, kind, i, j)[l + r] + less <= Coming(left, right, on, kind, i, j, l + r))
  {
    hide Matches, AllPairs, PairBag, Nulls, RunEndOf, TotalCmp, Coming, KeyOf;
    var next := After(left, right, on, i, j);
    LeftSplit(left, right, on, kind, i, j, next.0, next.1, l + r);
    match Behind(left, right, on, i, j) {
      case Less =>
        NoPad(l, r, left[i], WidthOf(right), on);
      case Greater =>
        NoPad(l, r, right[j], WidthOf(left), on);
      case Equal =>
        PairsCount(left[i..next.0], right[j..next.1], on, kind, l, r);
    }
  }

  lemma {:induction false} RestBound(left: Rows, right: Rows, on: On, kind: JoinKind, i: nat, j: nat, l: Row, r: Row)
    requires Marks(left, on, kind, l, r) && Matches(l, r, on) && i <= |left| && j <= |right|
    ensures Rest(left, right, on, kind, i, j)[l + r] <= Coming(left, right, on, kind, i, j, l + r)
    decreases |left| - i + |right| - j
  {
    hide Matches, Marks, Coming, After;
    if i < |left| || j < |right| {
      var next := After(left, right, on, i, j);
      RestBound(left, right, on, kind, next.0, next.1, l, r);
      StepBound(left, right, on, kind, i, j, l, r, 0);
      hide Rest;
    }
  }

  /** Where the keys that compare equal to one are, on both sides. */
  ghost predicate Meeting(left: Rows, right: Rows, on: On, k: Value, a: nat, b: nat, c: nat, d: nat)
  {
    Segment(left, on.lc, k, a, b) && Segment(right, on.rc, k, c, d) && a < b && c < d
  }

  /** The merge comes to where both begin. */
  lemma Toward(left: Rows, right: Rows, on: On, k: Value, a: nat, b: nat, c: nat, d: nat, i: nat, j: nat,
          vs: set<Value>)
    requires Ready(left, right, on, vs) && k in vs && Meeting(left, right, on, k, a, b, c, d)
    requires i <= a && j <= c && i + j < a + c
    ensures var next := After(left, right, on, i, j); next.0 <= a && next.1 <= c
  {
    hide TotalCmp, KeyOf, Ordered, ClassOf, EndFrom;
    var lv, rv := KeyOf(left[i], on.lc), KeyOf(right[j], on.rc);
    OrderLaws(vs, lv, rv, k);
    OrderLaws(vs, rv, k, lv);
    OrderLaws(vs, rv, lv, k);
    OrderLaws(vs, lv, k, rv);
    assert i < a ==> TotalCmp(KeyOf(left[a], on.lc), k) != TotalCmp(lv, k);
    assert j < c ==> TotalCmp(KeyOf(right[c], on.rc), k) != TotalCmp(rv, k);
  }

  /** What tells the bags apart there tells them apart from the beginning. */
  lemma {:induction false} FromBefore(left: Rows, right: Rows, on: On, kind: JoinKind, k: Value, a: nat, b: nat, c: nat,
          d: nat, i: nat, j: nat, l: Row, r: Row, vs: set<Value>)
    requires Ready(left, right, on, vs) && k in vs && Meeting(left, right, on, k, a, b, c, d)
    requires Marks(left, on, kind, l, r) && a <= |left| && c <= |right| && i <= a && j <= c
    ensures Rest(left, right, on, kind, a, c)[l + r] <= Rest(left, right, on, kind, i, j)[l + r]
    ensures Matches(l, r, on)
            && Rest(left, right, on, kind, a, c)[l + r] < Coming(left, right, on, kind, a, c, l + r) ==>
              Rest(left, right, on, kind, i, j)[l + r] < Coming(left, right, on, kind, i, j, l + r)
    decreases a - i + c - j
  {
    hide Matches, Marks, Coming, After, Rest, Ready, Meeting;
    if i + j < a + c {
      var next := After(left, right, on, i, j);
      Toward(left, right, on, k, a, b, c, d, i, j, vs);
      FromBefore(left, right, on, kind, k, a, b, c, d, next.0, next.1, l, r, vs);
      StepBound(left, right, on, kind, i, j, l, r, 1);
    }
  }

  // ----- where the bags differ ---------------------------------------------------------------

  lemma {:induction false} HasPair(left: Rows, right: Rows, on: On, kind: JoinKind, p: nat, q: nat)
    requires p < |left| && q < |right| && !kind.LeftOnly()
    ensures AllPairs(left, right, kind)[left[p] + right[q]] > 0
    ensures Matches(left[p], right[q], on) ==> PairBag(left, right, on, kind)[left[p] + right[q]] > 0
  {
    hide Matches, WithEach, RowBag;
    var n := |left| - 1;
    if p == n {
      HasEach(left[n], right, on, kind, q);
    } else {
      HasPair(left[..n], right, on, kind, p, q);
    }
  }

  lemma {:induction false} HasEach(l: Row, right: Rows, on: On, kind: JoinKind, q: nat)
    requires q < |right| && !kind.LeftOnly()
    ensures WithEach(l, right, kind)[l + right[q]] > 0
    ensures Matches(l, right[q], on) ==> RowBag(l, right, on, kind)[l + right[q]] > 0
  {
    hide Matches;
    if q < |right| - 1 {
      HasEach(l, right[..|right| - 1], on, kind, q);
    }
  }

  /** Among keys that compare equal the first one comes again after another. */
  lemma Recurs(keys: seq<Value>) returns (q: nat, p: nat)
    requires keys != [] && !Grouped(keys)
    requires forall x, y :: 0 <= x < |keys| && 0 <= y < |keys| ==> Alike(keys[x], keys[y])
    ensures 0 < q < p < |keys| && keys[p] == keys[0] != keys[q]
  {
    hide Alike;
    var a, b, c :| 0 <= a < b < c < |keys| && keys[a] == keys[c] && keys[b] != keys[a];
    TwoAlike(keys[0], keys[a], keys[b]);
    if keys[0] == keys[a] {
      q, p := b, c;
    } else {
      q, p := a, b;
    }
  }

  /** The first keys differ: the merge pairs rows that do not match. */
  lemma FirstDiffer(left: Rows, right: Rows, on: On, kind: JoinKind, k: Value, a: nat, b: nat, c: nat, d: nat,
          vs: set<Value>)
    requires Ready(left, right, on, vs) && k in vs && Meeting(left, right, on, k, a, b, c, d)
    requires !kind.LeftOnly() && Uniform(left) && KeyOf(left[a], on.lc) != KeyOf(right[c], on.rc)
    ensures Rest(left, right, on, kind, 0, 0) != JoinBag(left, right, on, kind)
  {
    hide Ordered, TotalCmp, KeyOf, ClassOf, Rest, JoinBag, PairBag, EndFrom, AllPairs;
    var l, r := left[a], right[c];
    OrderLaws(vs, KeyOf(l, on.lc), k, KeyOf(r, on.rc));
    OrderLaws(vs, k, KeyOf(r, on.rc), k);
    NullAlike(KeyOf(l, on.lc), KeyOf(r, on.rc));
    assert Marks(left, on, kind, l, r);
    JoinCount(left, right, on, kind, l, r);
    PairsCount(left, right, on, kind, l, r);
    RestAt(left, right, on, kind, a, c);
    FromBefore(left, right, on, kind, k, a, b, c, d, 0, 0, l, r, vs);
  }

  lemma RestAt(left: Rows, right: Rows, on: On, kind: JoinKind, a: nat, c: nat)
    requires a < |left| && c < |right| && !kind.LeftOnly() && Behind(left, right, on, a, c).Equal?
    ensures Rest(left, right, on, kind, a, c)[left[a] + right[c]] > 0
  {
    hide AllPairs, TotalCmp, KeyOf, EndFrom;
    HasPair(left[a..RunEndOf(left, on.lc, a)], right[c..RunEndOf(right, on.rc, c)], on, kind, 0, 0);
  }

  /** A first key comes again: the merge misses a pair that matches. */
  lemma PairMissed(left: Rows, right: Rows, on: On, kind: JoinKind, a: nat, c: nat, p: nat, q: nat)
    requires !kind.LeftOnly() && on.how.SameKeys? && a <= p < |left| && c <= q < |right|
    requires Behind(left, right, on, a, c).Equal? && KeyOf(left[a], on.lc) == KeyOf(right[c], on.rc)
    requires Matches(left[p], right[q], on) && Marks(left, on, kind, left[p], right[q])
    requires (p >= RunEndOf(left, on.lc, a) && q == c) || (p == a && q >= RunEndOf(right, on.rc, c))
    ensures Rest(left, right, on, kind, a, c)[left[p] + right[q]]
          < Coming(left, right, on, kind, a, c, left[p] + right[q])
  {
    hide AllPairs, PairBag, TotalCmp, KeyOf, Matches, RunEndOf, Coming, Marks;
    var e, f, row := RunEndOf(left, on.lc, a), RunEndOf(right, on.rc, c), left[p] + right[q];
    LeftSplit(left, right, on, kind, a, c, e, f, row);
    RestBound(left, right, on, kind, e, f, left[p], right[q]);
    PartCount(left, right, on, kind, a, e, c, f, left[p], right[q]);
    if p >= e {
      assert left[e..][p - e] == left[p] && right[c..f][0] == right[q];
      HasPair(left[e..], right[c..f], on, kind, p - e, 0);
    } else {
      assert left[a..e][0] == left[p] && right[f..][q - f] == right[q];
      HasPair(left[a..e], right[f..], on, kind, 0, q - f);
    }
  }

  lemma PartCount(left: Rows, right: Rows, on: On, kind: JoinKind, a: nat, e: nat, c: nat, f: nat, l: Row, r: Row)
    requires a <= e <= |left| && c <= f <= |right| && Marks(left, on, kind, l, r) && Matches(l, r, on)
    ensures AllPairs(left[a..e], right[c..f], kind)[l + r] <= PairBag(left[a..e], right[c..f], on, kind)[l + r]
  {
    hide AllPairs, PairBag, Matches;
    PairsCount(left[a..e], right[c..f], on, kind, l, r);
  }

  lemma FirstRecurs(left: Rows, right: Rows, on: On, kind: JoinKind, k: Value, a: nat, b: nat, c: nat, d: nat,
          vs: set<Value>)
    requires Ready(left, right, on, vs) && k in vs && Meeting(left, right, on, k, a, b, c, d)
    requires !kind.LeftOnly() && Uniform(left) && KeyOf(left[a], on.lc) == KeyOf(right[c], on.rc)
    requires !Grouped(ClassOf(left, on.lc, k)) || !Grouped(ClassOf(right, on.rc, k))
    ensures Rest(left, right, on, kind, 0, 0) != JoinBag(left, right, on, kind)
  {
    hide Ordered, TotalCmp, KeyOf, ClassOf, Rest, JoinBag, PairBag, EndFrom, AllPairs, Grouped, Coming;
    var p, q := a, c;
    if !Grouped(ClassOf(left, on.lc, k)) {
      p := Again(left, on.lc, k, a, b, vs);
    } else {
      q := Again(right, on.rc, k, c, d, vs);
    }
    var l, r := left[p], right[q];
    OrderLaws(vs, KeyOf(left[a], on.lc), KeyOf(right[c], on.rc), k);
    assert Matches(l, r, on) && Marks(left, on, kind, l, r);
    PairMissed(left, right, on, kind, a, c, p, q);
    FromBefore(left, right, on, kind, k, a, b, c, d, 0, 0, l, r, vs);
    JoinCount(left, right, on, kind, l, r);
    AllComing(left, right, on, kind, l + r);
  }

  lemma AllComing(left: Rows, right: Rows, on: On, kind: JoinKind, e: Row)
    ensures Coming(left, right, on, kind, 0, 0, e) == PairBag(left, right, on, kind)[e]
  {
    assert left[0..] == left && right[0..] == right;
  }

  lemma Again(rows: Rows, col: nat, k: Value, from: nat, to: nat, vs: set<Value>) returns (p: nat)
    requires Segment(rows, col, k, from, to) && from < to && !Grouped(ClassOf(rows, col, k))
    requires Within(rows, col, vs) && Ordered(vs) && k in vs
    ensures RunEndOf(rows, col, from) <= p < to && KeyOf(rows[p], col) == KeyOf(rows[from], col)
    ensures !KeyOf(rows[from], col).Null?
  {
    hide Ordered, TotalCmp, KeyOf, ClassOf, Grouped, EndFrom;
    var keys := ClassOf(rows, col, k);
    forall x, y | 0 <= x < |keys| && 0 <= y < |keys| ensures Alike(keys[x], keys[y]) {
      assert keys[x] == KeyOf(rows[from + x], col) && keys[y] == KeyOf(rows[from + y], col);
      OrderLaws(vs, keys[x], k, keys[y]);
      OrderLaws(vs, keys[y], k, keys[x]);
    }
    var q, n := Recurs(keys);
    NullAlike(keys[0], keys[q]);
    assert keys[q] == KeyOf(rows[from + q], col) && keys[n] == KeyOf(rows[from + n], col);
    p := from + n;
  }

  /** The merge returns the join by equal keys if and only if both sides are aligned. */
  lemma MergeIff(left: Rows, right: Rows, on: On, kind: JoinKind, vs: set<Value>)
    requires Ready(left, right, on, vs)
    ensures Aligned(left, right, on.lc, on.rc) ==> Rest(left, right, on, kind, 0, 0) == JoinBag(left, right, on, kind)
    ensures !kind.LeftOnly() && Uniform(left) && Rest(left, right, on, kind, 0, 0) == JoinBag(left, right, on, kind) ==>
              Aligned(left, right, on.lc, on.rc)
  {
    hide Rest, JoinBag, Segment, Ordered, TotalCmp, KeyOf, SortedBy, ClassOf, Grouped, Uniform;
    if Aligned(left, right, on.lc, on.rc) {
      AlignedJoins(left, right, on, kind, vs);
    } else if !kind.LeftOnly() && Uniform(left) {
      var i :| 0 <= i < |left| && !Tidy(left, right, on.lc, on.rc, KeyOf(left[i], on.lc));
      var k := KeyOf(left[i], on.lc);
      var a, b := SegmentOf(left, on.lc, k, vs);
      var c, d := SegmentOf(right, on.rc, k, vs);
      FirstKey(left, on.lc, k, a, b);
      FirstKey(right, on.rc, k, c, d);
      assert Meeting(left, right, on, k, a, b, c, d);
      if KeyOf(left[a], on.lc) != KeyOf(right[c], on.rc) {
        FirstDiffer(left, right, on, kind, k, a, b, c, d, vs);
      } else {
        FirstRecurs(left, right, on, kind, k, a, b, c, d, vs);
      }
    }
  }

  lemma FirstKey(rows: Rows, col: nat, k: Value, from: nat, to: nat)
    requires Segment(rows, col, k, from, to) && ClassOf(rows, col, k) != []
    ensures from < to <= |rows| && KeyOf(rows[from], col) == ClassOf(rows, col, k)[0]
  {
  }
}
