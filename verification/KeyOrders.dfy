/** Keys under the comparison that sorts them (src/sort.rs, lines 14-45): an integer and a real that
    compare equal are different keys all the same. */
module KeyOrders {
  import opened Values
  import opened JoinBags

  // ----- the comparison ----------------------------------------------------------------------

  predicate Alike(a: Value, b: Value)
  {
    TotalCmp(a, b).Equal?
  }

  function KeysOf(rows: Rows, col: nat): set<Value>
  {
    set row | row in rows :: KeyOf(row, col)
  }

  /** The keys of both sides are in order, which is what sorting relies on. */
  ghost predicate Orderable(left: Rows, right: Rows, lc: nat, rc: nat)
  {
    NoneBlurred(KeysOf(left, lc) + KeysOf(right, rc))
  }

  lemma KeyIn(rows: Rows, col: nat, i: nat)
    requires i < |rows|
    ensures KeyOf(rows[i], col) in KeysOf(rows, col)
  {
    assert rows[i] in rows;
  }

  lemma OrderLaws(vs: set<Value>, a: Value, b: Value, c: Value)
    requires Ordered(vs) && a in vs && b in vs && c in vs
    ensures AtMost(a, b) && AtMost(b, c) ==> AtMost(a, c)
    ensures TotalCmp(a, b).Less? && AtMost(b, c) ==> TotalCmp(a, c).Less?
    ensures AtMost(a, b) && TotalCmp(b, c).Less? ==> TotalCmp(a, c).Less?
    ensures Alike(a, b) && Alike(b, c) ==> Alike(a, c)
    ensures Alike(a, b) <==> Alike(b, a)
    ensures TotalCmp(a, b).Less? <==> TotalCmp(b, a).Greater?
    ensures a == b ==> Alike(a, b)
  {
    TotalCmpOrders(a, b, c);
    TotalCmpOrders(b, c, a);
    TotalCmpOrders(a, c, b);
    hide TotalCmp;
    assert AtMost(b, c) && AtMost(c, a) ==> AtMost(b, a);
    assert AtMost(c, a) && AtMost(a, b) ==> AtMost(c, b);
    assert AtMost(c, b) && AtMost(b, a) ==> AtMost(c, a);
  }

  /** Of three keys that compare equal two are the same. */
  lemma TwoAlike(a: Value, b: Value, c: Value)
    requires Alike(a, b) && Alike(b, c) && Alike(a, c)
    ensures a == b || b == c || a == c
  {
  }

  lemma NullAlike(a: Value, b: Value)
    requires Alike(a, b) && a != b
    ensures !a.Null? && !b.Null?
  {
  }

  // ----- sorting -----------------------------------------------------------------------------

  ghost predicate SortedBy(rows: Rows, col: nat)
  {
    forall i, j :: 0 <= i < j < |rows| ==> AtMost(KeyOf(rows[i], col), KeyOf(rows[j], col))
  }

  function Placed(row: Row, rows: Rows, col: nat): (r: Rows)
    ensures |r| == |rows| + 1 && multiset(r) == multiset(rows) + multiset{row}
    ensures r[0] == row || (rows != [] && r[0] == rows[0])
  {
    if rows == [] then [row]
    else if AtMost(KeyOf(row, col), KeyOf(rows[0], col)) then [row] + rows
    else
      assert rows == [rows[0]] + rows[1..];
      [rows[0]] + Placed(row, rows[1..], col)
  }

  /** The standard library's sort, as an insertion sort: a sorted permutation in which rows that
      compare equal stay in their order. */
  function SortRows(rows: Rows, col: nat): (r: Rows)
    ensures |r| == |rows| && multiset(r) == multiset(rows)
  {
    if rows == [] then []
    else
      assert rows == [rows[0]] + rows[1..];
      Placed(rows[0], SortRows(rows[1..], col), col)
  }

  /** Every key of the rows is among these. */
  ghost predicate Within(rows: Rows, col: nat, vs: set<Value>)
  {
    forall i :: 0 <= i < |rows| ==> KeyOf(rows[i], col) in vs
  }

  lemma WithinPermuted(rows: Rows, other: Rows, col: nat, vs: set<Value>)
    requires Within(rows, col, vs) && multiset(other) == multiset(rows)
    ensures Within(other, col, vs)
  {
    forall i | 0 <= i < |other| ensures KeyOf(other[i], col) in vs {
      assert other[i] in multiset(other);
      assert other[i] in multiset(rows);
    }
  }

  lemma SortedRest(rows: Rows, col: nat, vs: set<Value>)
    requires rows != []
    ensures Within(rows, col, vs) <==> KeyOf(rows[0], col) in vs && Within(rows[1..], col, vs)
    ensures SortedBy(rows, col) ==> SortedBy(rows[1..], col)
  {
    hide KeyOf, AtMost;
    assert forall i :: 0 <= i < |rows| - 1 ==> rows[1..][i] == rows[i + 1];
    assert forall i :: 0 < i < |rows| ==> rows[i] == rows[1..][i - 1];
  }

  lemma {:induction false} PlacedSorted(row: Row, rows: Rows, col: nat, vs: set<Value>)
    requires SortedBy(rows, col) && Within(rows, col, vs) && KeyOf(row, col) in vs && Ordered(vs)
    ensures SortedBy(Placed(row, rows, col), col)
  {
    hide KeyOf, TotalCmp, Ordered, SortedBy, Within;
    if rows == [] {
      FirstSorted(row, rows, col, vs);
      assert [row] + [] == [row];
    } else {
      var k, first := KeyOf(row, col), KeyOf(rows[0], col);
      SortedRest(rows, col, vs);
      if AtMost(k, first) {
        FirstSorted(row, rows, col, vs);
      } else {
        var rest := Placed(row, rows[1..], col);
        PlacedSorted(row, rows[1..], col, vs);
        PlacedWithin(row, rows[1..], col, vs);
        SortedFirst(rows, col);
        OrderLaws(vs, k, first, first);
        FirstSorted(rows[0], rest, col, vs);
      }
    }
  }

  lemma SortedFirst(rows: Rows, col: nat)
    requires SortedBy(rows, col)
    ensures |rows| > 1 ==> AtMost(KeyOf(rows[0], col), KeyOf(rows[1..][0], col))
  {
  }

  lemma PlacedWithin(row: Row, rows: Rows, col: nat, vs: set<Value>)
    requires Within(rows, col, vs) && KeyOf(row, col) in vs
    ensures Within(Placed(row, rows, col), col, vs)
  {
    hide KeyOf, Placed;
    var more := [row] + rows;
    assert forall i :: 0 < i < |more| ==> more[i] == rows[i - 1];
    WithinPermuted(more, Placed(row, rows, col), col, vs);
  }

  /** A row in front of sorted rows of which the first is not below it. */
  lemma FirstSorted(row: Row, rows: Rows, col: nat, vs: set<Value>)
    requires SortedBy(rows, col) && Within(rows, col, vs) && KeyOf(row, col) in vs && Ordered(vs)
    requires rows != [] ==> AtMost(KeyOf(row, col), KeyOf(rows[0], col))
    ensures SortedBy([row] + rows, col)
  {
    hide KeyOf, AtMost, Ordered;
    forall i, j | 0 <= i < j < |[row] + rows|
      ensures AtMost(KeyOf(([row] + rows)[i], col), KeyOf(([row] + rows)[j], col))
    {
      assert ([row] + rows)[j] == rows[j - 1];
      if i == 0 {
        OrderLaws(vs, KeyOf(row, col), KeyOf(rows[0], col), KeyOf(rows[j - 1], col));
      }
    }
  }

  lemma {:induction false} RowsSorted(rows: Rows, col: nat, vs: set<Value>)
    requires Within(rows, col, vs) && Ordered(vs)
    ensures SortedBy(SortRows(rows, col), col) && Within(SortRows(rows, col), col, vs)
  {
    hide Ordered, KeyOf, Within;
    WithinPermuted(rows, SortRows(rows, col), col, vs);
    if rows != [] {
      SortedRest(rows, col, vs);
      RowsSorted(rows[1..], col, vs);
      PlacedSorted(rows[0], SortRows(rows[1..], col), col, vs);
    }
  }

  // ----- keys that compare equal -------------------------------------------------------------

  /** The keys that compare equal to one, in the order of the rows. */
  function ClassOf(rows: Rows, col: nat, k: Value): seq<Value>
  {
    if rows == [] then []
    else (if Alike(KeyOf(rows[0], col), k) then [KeyOf(rows[0], col)] else []) + ClassOf(rows[1..], col, k)
  }

  /** Sorting keeps them in that order. */
  lemma {:induction false} ClassSorted(rows: Rows, col: nat, k: Value, vs: set<Value>)
    requires Within(rows, col, vs) && Ordered(vs) && k in vs
    ensures ClassOf(SortRows(rows, col), col, k) == ClassOf(rows, col, k)
  {
    hide Ordered, KeyOf, Alike, Within;
    if rows != [] {
      SortedRest(rows, col, vs);
      ClassSorted(rows[1..], col, k, vs);
      var rest := SortRows(rows[1..], col);
      WithinPermuted(rows[1..], rest, col, vs);
      ClassPlaced(rows[0], rest, col, k, vs);
    }
  }

  lemma ClassFirst(row: Row, rows: Rows, col: nat, k: Value)
    ensures ClassOf([row] + rows, col, k)
         == (if Alike(KeyOf(row, col), k) then [KeyOf(row, col)] else []) + ClassOf(rows, col, k)
  {
    assert ([row] + rows)[1..] == rows;
  }

  lemma {:induction false} ClassPlaced(row: Row, rows: Rows, col: nat, k: Value, vs: set<Value>)
    requires Within(rows, col, vs) && KeyOf(row, col) in vs && Ordered(vs) && k in vs
    ensures ClassOf(Placed(row, rows, col), col, k)
         == (if Alike(KeyOf(row, col), k) then [KeyOf(row, col)] else []) + ClassOf(rows, col, k)
  {
    hide Ordered, KeyOf, Within, Alike, AtMost, ClassOf;
    ClassFirst(row, rows, col, k);
    assert [row] + [] == [row];
    if rows != [] && !AtMost(KeyOf(row, col), KeyOf(rows[0], col)) {
      SortedRest(rows, col, vs);
      ClassPlaced(row, rows[1..], col, k, vs);
      var rest := Placed(row, rows[1..], col);
      ClassFirst(rows[0], rest, col, k);
      ClassFirst(rows[0], rows[1..], col, k);
      assert [rows[0]] + rows[1..] == rows;
      NotBothAlike(vs, KeyOf(row, col), KeyOf(rows[0], col), k);
    }
  }

  lemma NotBothAlike(vs: set<Value>, a: Value, b: Value, k: Value)
    requires Ordered(vs) && a in vs && b in vs && k in vs && !AtMost(a, b)
    ensures !(Alike(a, k) && Alike(b, k))
  {
    hide Ordered, TotalCmp;
    OrderLaws(vs, a, k, b);
    OrderLaws(vs, b, k, b);
  }

  /** The same keys do not stand apart. */
  ghost predicate Grouped(keys: seq<Value>)
  {
    forall a, b, c :: 0 <= a < b < c < |keys| && keys[a] == keys[c] ==> keys[b] == keys[a]
  }

  /** Keys of both sides that compare equal begin with the same one, and the same ones are together
      on each side. */
  ghost predicate Tidy(left: Rows, right: Rows, lc: nat, rc: nat, k: Value)
  {
    var a, b := ClassOf(left, lc, k), ClassOf(right, rc, k);
    a != [] && b != [] ==> a[0] == b[0] && Grouped(a) && Grouped(b)
  }

  ghost predicate Aligned(left: Rows, right: Rows, lc: nat, rc: nat)
  {
    forall i :: 0 <= i < |left| ==> Tidy(left, right, lc, rc, KeyOf(left[i], lc))
  }

  lemma AlignedSorted(left: Rows, right: Rows, lc: nat, rc: nat, vs: set<Value>)
    requires Within(left, lc, vs) && Within(right, rc, vs) && Ordered(vs)
    ensures Aligned(SortRows(left, lc), SortRows(right, rc), lc, rc) <==> Aligned(left, right, lc, rc)
  {
    hide Ordered, KeyOf, ClassOf, Grouped;
    var left', right' := SortRows(left, lc), SortRows(right, rc);
    WithinPermuted(left, left', lc, vs);
    forall k | k in vs ensures Tidy(left', right', lc, rc, k) == Tidy(left, right, lc, rc, k) {
      ClassSorted(left, lc, k, vs);
      ClassSorted(right, rc, k, vs);
    }
    hide Tidy;
    if Aligned(left, right, lc, rc) {
      forall i | 0 <= i < |left'| ensures Tidy(left', right', lc, rc, KeyOf(left'[i], lc)) {
        var j := PlaceOf(left', left, i);
      }
    }
    if Aligned(left', right', lc, rc) {
      forall i | 0 <= i < |left| ensures Tidy(left, right, lc, rc, KeyOf(left[i], lc)) {
        var j := PlaceOf(left, left', i);
      }
    }
  }

  lemma PlaceOf(rows: Rows, other: Rows, i: nat) returns (j: nat)
    requires multiset(rows) == multiset(other) && i < |rows|
    ensures j < |other| && other[j] == rows[i]
  {
    assert rows[i] in multiset(rows);
    assert rows[i] in multiset(other);
    j :| 0 <= j < |other| && other[j] == rows[i];
  }

  /** Where the keys that compare equal to one are among sorted rows. */
  ghost predicate Segment(rows: Rows, col: nat, k: Value, from: nat, to: nat)
  {
    && from <= to <= |rows| && |ClassOf(rows, col, k)| == to - from
    && (forall x :: 0 <= x < from ==> TotalCmp(KeyOf(rows[x], col), k).Less?)
    && (forall x :: from <= x < to ==>
          Alike(KeyOf(rows[x], col), k) && KeyOf(rows[x], col) == ClassOf(rows, col, k)[x - from])
    && (forall x :: to <= x < |rows| ==> TotalCmp(KeyOf(rows[x], col), k).Greater?)
  }

  lemma {:induction false} SegmentOf(rows: Rows, col: nat, k: Value, vs: set<Value>) returns (from: nat, to: nat)
    requires SortedBy(rows, col) && Within(rows, col, vs) && Ordered(vs) && k in vs
    ensures Segment(rows, col, k, from, to)
  {
    hide Ordered, KeyOf, TotalCmp, SortedBy, Within, Segment;
    if rows == [] {
      from, to := 0, 0;
      SegmentNone(col, k);
    } else {
      var first := KeyOf(rows[0], col);
      SortedRest(rows, col, vs);
      var a, b := SegmentOf(rows[1..], col, k, vs);
      FirstBelow(rows, col, k, vs);
      SegmentNext(rows, col, k, a, b);
      from, to := if TotalCmp(first, k).Less? then a + 1 else 0, if TotalCmp(first, k).Greater? then 0 else b + 1;
    }
  }

  lemma SegmentNone(col: nat, k: Value)
    ensures Segment([], col, k, 0, 0)
  {
  }

  lemma FirstBelow(rows: Rows, col: nat, k: Value, vs: set<Value>)
    requires SortedBy(rows, col) && Within(rows, col, vs) && Ordered(vs) && k in vs && rows != []
    ensures forall i :: 0 <= i < |rows| - 1 ==>
              && (Alike(KeyOf(rows[0], col), k) ==> !TotalCmp(KeyOf(rows[1..][i], col), k).Less?)
              && (TotalCmp(KeyOf(rows[0], col), k).Greater? ==> TotalCmp(KeyOf(rows[1..][i], col), k).Greater?)
  {
    hide Ordered, KeyOf, TotalCmp;
    var first := KeyOf(rows[0], col);
    forall i | 0 <= i < |rows| - 1
      ensures Alike(first, k) ==> !TotalCmp(KeyOf(rows[1..][i], col), k).Less?
      ensures TotalCmp(first, k).Greater? ==> TotalCmp(KeyOf(rows[1..][i], col), k).Greater?
    {
      var next := KeyOf(rows[i + 1], col);
      assert rows[1..][i] == rows[i + 1];
      OrderLaws(vs, first, next, k);
      OrderLaws(vs, k, first, next);
      OrderLaws(vs, next, k, first);
    }
  }

  lemma SegmentNext(rows: Rows, col: nat, k: Value, a: nat, b: nat)
    requires rows != [] && Segment(rows[1..], col, k, a, b)
    requires forall i :: 0 <= i < |rows| - 1 ==>
              && (Alike(KeyOf(rows[0], col), k) ==> !TotalCmp(KeyOf(rows[1..][i], col), k).Less?)
              && (TotalCmp(KeyOf(rows[0], col), k).Greater? ==> TotalCmp(KeyOf(rows[1..][i], col), k).Greater?)
    ensures var o := TotalCmp(KeyOf(rows[0], col), k);
            Segment(rows, col, k, if o.Less? then a + 1 else 0, if o.Greater? then 0 else b + 1)
  {
    hide KeyOf, TotalCmp, ClassOf, Segment;
    ClassFirst(rows[0], rows[1..], col, k);
    assert [rows[0]] + rows[1..] == rows;
    match TotalCmp(KeyOf(rows[0], col), k) {
      case Less => SegmentLater(rows, col, k, a, b);
      case Equal => SegmentWider(rows, col, k, a, b);
      case Greater => SegmentAfter(rows, col, k, a, b);
    }
  }

  lemma SegmentLater(rows: Rows, col: nat, k: Value, a: nat, b: nat)
    requires rows != [] && Segment(rows[1..], col, k, a, b) && TotalCmp(KeyOf(rows[0], col), k).Less?
    requires ClassOf(rows, col, k) == ClassOf(rows[1..], col, k)
    ensures Segment(rows, col, k, a + 1, b + 1)
  {
    hide KeyOf, TotalCmp, ClassOf;
    assert forall x :: 0 < x < |rows| ==> rows[x] == rows[1..][x - 1];
  }

  lemma SegmentWider(rows: Rows, col: nat, k: Value, a: nat, b: nat)
    requires rows != [] && Segment(rows[1..], col, k, a, b) && Alike(KeyOf(rows[0], col), k)
    requires forall i :: 0 <= i < |rows| - 1 ==> !TotalCmp(KeyOf(rows[1..][i], col), k).Less?
    requires ClassOf(rows, col, k) == [KeyOf(rows[0], col)] + ClassOf(rows[1..], col, k)
    ensures Segment(rows, col, k, 0, b + 1)
  {
    hide KeyOf, TotalCmp, ClassOf;
    assert |rows| > 1 ==> !TotalCmp(KeyOf(rows[1..][0], col), k).Less?;
    assert forall x :: 0 < x < |rows| ==> rows[x] == rows[1..][x - 1];
    assert forall x :: 0 < x < b + 1 ==> ClassOf(rows, col, k)[x] == ClassOf(rows[1..], col, k)[x - 1];
  }

  lemma SegmentAfter(rows: Rows, col: nat, k: Value, a: nat, b: nat)
    requires rows != [] && Segment(rows[1..], col, k, a, b) && TotalCmp(KeyOf(rows[0], col), k).Greater?
    requires forall i :: 0 <= i < |rows| - 1 ==> TotalCmp(KeyOf(rows[1..][i], col), k).Greater?
    requires ClassOf(rows, col, k) == ClassOf(rows[1..], col, k)
    ensures Segment(rows, col, k, 0, 0)
  {
    hide KeyOf, TotalCmp, ClassOf;
    assert |rows| > 1 ==> TotalCmp(KeyOf(rows[1..][0], col), k).Greater?;
    assert forall x :: 0 < x < |rows| ==> rows[x] == rows[1..][x - 1];
  }
}
