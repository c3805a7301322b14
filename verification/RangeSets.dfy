/** Sets of 64-bit integers as disjoint closed ranges (src/rangeset.rs). */
module RangeSets {
  import opened Integers

  datatype Range = Range(lo: I64, hi: I64)

  /** Ascending, with at least one number missing between neighbours. */
  ghost predicate Normal(rs: seq<Range>)
  {
    && (forall i :: 0 <= i < |rs| ==> rs[i].lo <= rs[i].hi)
    && (forall i, j :: 0 <= i < j < |rs| ==> rs[i].hi + 1 < rs[j].lo)
  }

  ghost predicate In(r: Range, x: int)
  {
    r.lo <= x <= r.hi
  }

  ghost predicate Covers(rs: seq<Range>, x: int)
  {
    exists i :: 0 <= i < |rs| && In(rs[i], x)
  }

  lemma CoversSnoc(rs: seq<Range>, r: Range, x: int)
    ensures Covers(rs + [r], x) <==> Covers(rs, x) || In(r, x)
  {
    var more := rs + [r];
    if Covers(rs, x) {
      var i :| 0 <= i < |rs| && In(rs[i], x);
      assert In(more[i], x);
    }
    if In(r, x) {
      assert In(more[|rs|], x);
    }
  }

  lemma CoversTake(rs: seq<Range>, n: nat, x: int)
    requires n < |rs|
    ensures Covers(rs[..n + 1], x) <==> Covers(rs[..n], x) || In(rs[n], x)
  {
    assert rs[..n + 1] == rs[..n] + [rs[n]];
    CoversSnoc(rs[..n], rs[n], x);
  }

  lemma CoversDrop(rs: seq<Range>, n: nat, x: int)
    requires n < |rs|
    ensures Covers(rs[n..], x) <==> In(rs[n], x) || Covers(rs[n + 1..], x)
  {
    var rest := rs[n..];
    if Covers(rs[n + 1..], x) {
      var i :| 0 <= i < |rs[n + 1..]| && In(rs[n + 1..][i], x);
      assert In(rest[i + 1], x);
    }
    if In(rs[n], x) {
      assert In(rest[0], x);
    }
    if Covers(rest, x) && !In(rs[n], x) {
      var i :| 0 <= i < |rest| && In(rest[i], x);
      assert In(rs[n + 1..][i - 1], x);
    }
  }

  function Min(a: I64, b: I64): I64 { if a < b then a else b }

  function Max(a: I64, b: I64): I64 { if a > b then a else b }

  function SaturatingPred(a: I64): I64 { if a == I64_MIN then a else a - 1 }

  function SaturatingSucc(a: I64): I64 { if a == I64_MAX then a else a + 1 }

  // ----- adding a range --------------------------------------------------------------------

  /** Half-way through: `done` holds what lies before the growing range `r`, or, once it has
      been put in, everything so far. */
  ghost predicate Adding(rs: seq<Range>, n: nat, result: seq<Range>, r: Range, inserted: bool, added: Range)
  {
    && n <= |rs| && Normal(rs) && Normal(result) && r.lo <= r.hi
    && (forall x :: Covers(result, x) || (!inserted && In(r, x)) <==> Covers(rs[..n], x) || In(added, x))
    && (!inserted ==> forall i :: 0 <= i < |result| ==> result[i].hi + 1 < r.lo)
    && (inserted ==> forall k :: n <= k < |rs| ==> r.hi + 1 < rs[k].lo)
    && (inserted ==> r.lo <= I64_MAX)
    && (forall i, k :: 0 <= i < |result| && n <= k < |rs| ==> result[i].hi + 1 < rs[k].lo)
  }

  lemma StartAdding(rs: seq<Range>, added: Range)
    requires Normal(rs) && added.lo <= added.hi
    ensures Adding(rs, 0, [], added, false, added)
  {
  }

  /** A range entirely before the new one. */
  lemma PassBefore(rs: seq<Range>, n: nat, result: seq<Range>, r: Range, inserted: bool, added: Range)
    requires Adding(rs, n, result, r, inserted, added) && n < |rs| && rs[n].hi + 1 < r.lo && !inserted
    ensures Adding(rs, n + 1, result + [rs[n]], r, inserted, added)
  {
    forall x ensures Covers(result + [rs[n]], x) || In(r, x) <==> Covers(rs[..n + 1], x) || In(added, x) {
      CoversSnoc(result, rs[n], x);
      CoversTake(rs, n, x);
    }
    hide Covers, In;
  }

  /** A range entirely after it; the new one goes in first. */
  lemma PassAfter(rs: seq<Range>, n: nat, result: seq<Range>, r: Range, inserted: bool, added: Range)
    requires Adding(rs, n, result, r, inserted, added) && n < |rs| && r.hi + 1 < rs[n].lo
    ensures Adding(rs, n + 1, (if inserted then result else result + [r]) + [rs[n]], r, true, added)
  {
    var between := if inserted then result else result + [r];
    forall x ensures Covers(between + [rs[n]], x) <==> Covers(rs[..n + 1], x) || In(added, x) {
      CoversSnoc(result, r, x);
      CoversSnoc(between, rs[n], x);
      CoversTake(rs, n, x);
    }
    hide Covers, In;
  }

  /** A range that overlaps the new one or touches it. */
  lemma Absorb(rs: seq<Range>, n: nat, result: seq<Range>, r: Range, added: Range)
    requires Adding(rs, n, result, r, false, added) && n < |rs| && r.lo <= rs[n].hi + 1 && rs[n].lo <= r.hi + 1
    ensures Adding(rs, n + 1, result, Range(Min(r.lo, rs[n].lo), Max(r.hi, rs[n].hi)), false, added)
  {
    var grown := Range(Min(r.lo, rs[n].lo), Max(r.hi, rs[n].hi));
    forall x ensures Covers(result, x) || In(grown, x) <==> Covers(rs[..n + 1], x) || In(added, x) {
      CoversTake(rs, n, x);
      assert In(grown, x) <==> In(r, x) || In(rs[n], x);
    }
    hide Covers, In;
  }

  lemma FinishAdding(rs: seq<Range>, result: seq<Range>, r: Range, inserted: bool, added: Range)
    requires Adding(rs, |rs|, result, r, inserted, added)
    ensures var out := if inserted then result else result + [r];
            Normal(out) && forall x :: Covers(out, x) <==> Covers(rs, x) || In(added, x)
  {
    assert rs[..|rs|] == rs;
    var out := if inserted then result else result + [r];
    forall x ensures Covers(out, x) <==> Covers(rs, x) || In(added, x) {
      CoversSnoc(result, r, x);
    }
    hide Covers, In;
  }

  // ----- the complement --------------------------------------------------------------------

  /** `out` covers what the first `n` ranges leave free of the universe below `c`. */
  ghost predicate Swept(rs: seq<Range>, n: nat, out: seq<Range>, c: int, low: int, high: int)
  {
    && n <= |rs| && Normal(rs) && Normal(out) && low <= c
    && (forall x :: Covers(out, x) <==> low <= x < c && x <= high && !Covers(rs[..n], x))
    && (forall x :: low <= x <= high && Covers(rs[..n], x) ==> x < c)
    && (forall i :: 0 <= i < |out| ==> out[i].hi + 1 < c)
    && (c > low ==> c - 1 <= I64_MAX && Covers(rs[..n], c - 1))
  }

  lemma StartSweep(rs: seq<Range>, low: I64, high: I64)
    requires Normal(rs)
    ensures Swept(rs, 0, [], low, low, high)
  {
  }

  /** A range outside the universe. */
  lemma SweepOutside(rs: seq<Range>, n: nat, out: seq<Range>, c: int, low: I64, high: I64)
    requires Swept(rs, n, out, c, low, high) && n < |rs| && (rs[n].hi < low || rs[n].lo > high)
    ensures Swept(rs, n + 1, out, c, low, high)
  {
    var next := rs[..n + 1];
    forall x ensures Covers(next, x) <==> Covers(rs[..n], x) || In(rs[n], x) {
      CoversTake(rs, n, x);
    }
    hide Covers;
  }

  /** A range of the universe: what is free before it goes out. */
  lemma SweepRange(rs: seq<Range>, n: nat, out: seq<Range>, c: int, low: I64, high: I64, from: I64, next: int)
    requires Swept(rs, n, out, c, low, high) && n < |rs| && rs[n].hi >= low && rs[n].lo <= high
    requires from == Max(rs[n].lo, low) && next == if c > rs[n].hi + 1 then c else rs[n].hi + 1
    ensures from > c ==> c <= I64_MAX && Swept(rs, n + 1, out + [Range(c, from - 1)], next, low, high)
    ensures from <= c ==> Swept(rs, n + 1, out, next, low, high)
  {
    var more := rs[..n + 1];
    forall x ensures Covers(more, x) <==> Covers(rs[..n], x) || In(rs[n], x) {
      CoversTake(rs, n, x);
    }
    EarlierBelow(rs, n);
    if from > c {
      SweepFree(rs, n, out, c, low, high, from, next, more);
    }
    hide Covers;
  }

  lemma SweepFree(rs: seq<Range>, n: nat, out: seq<Range>, c: int, low: I64, high: I64, from: I64, next: int,
          more: seq<Range>)
    requires Swept(rs, n, out, c, low, high) && n < |rs| && low <= rs[n].hi && rs[n].lo <= high && more == rs[..n + 1]
    requires low <= c < from <= I64_MAX && from == rs[n].lo && next == rs[n].hi + 1
    requires forall x :: Covers(more, x) <==> Covers(rs[..n], x) || In(rs[n], x)
    ensures Swept(rs, n + 1, out + [Range(c, from - 1)], next, low, high)
  {
    var all := out + [Range(c, from - 1)];
    forall x ensures Covers(all, x) <==> low <= x < next && x <= high && !Covers(more, x) {
      CoversSnoc(out, Range(c, from - 1), x);
      assert Covers(out, x) <==> low <= x < c && x <= high && !Covers(rs[..n], x);
      assert low <= x <= high && Covers(rs[..n], x) ==> x < c;
    }
    hide Covers;
  }

  lemma EarlierBelow(rs: seq<Range>, n: nat)
    requires Normal(rs) && n < |rs|
    ensures forall x :: Covers(rs[..n], x) ==> x + 1 < rs[n].lo
  {
  }

  lemma FinishSweep(rs: seq<Range>, out: seq<Range>, c: int, cursor: I64, low: I64, high: I64, all: seq<Range>)
    requires Swept(rs, |rs|, out, c, low, high) && cursor == (if c > I64_MAX then I64_MAX else c)
    requires all == if cursor <= high then out + [Range(cursor, high)] else out
    ensures forall x :: Covers(all, x) <==> low <= x <= high && (!Covers(rs, x) || x == I64_MAX)
    ensures !(high == I64_MAX && Covers(rs, I64_MAX)) ==> Normal(all)
  {
    assert rs[..|rs|] == rs;
    forall x ensures Covers(all, x) <==> low <= x <= high && (!Covers(rs, x) || x == I64_MAX) {
      CoversSnoc(out, Range(cursor, high), x);
    }
    hide Covers;
  }

  class RangeSet {
    var ranges: seq<Range>

    ghost predicate Valid()
      reads this
    {
      Normal(ranges)
    }

    ghost predicate Has(x: int)
      reads this
    {
      Covers(ranges, x)
    }

    /** Lines 18-31. */
    constructor Single(lo: I64, hi: I64)
      ensures Valid() && forall x: int :: Has(x) <==> lo <= x <= hi
    {
      ranges := if lo > hi then [] else [Range(lo, hi)];
      new;
      assert [] + [Range(lo, hi)] == [Range(lo, hi)];
      forall x: int ensures Covers(ranges, x) <==> lo <= x <= hi {
        CoversSnoc([], Range(lo, hi), x);
      }
    }

    constructor Copy(rs: seq<Range>)
      requires Normal(rs)
      ensures Valid() && ranges == rs
    {
      ranges := rs;
    }

    /** Lines 66-96. The sort of line 94 finds the list in order. */
    method Add(lo: I64, hi: I64)
      requires Valid()
      modifies this
      ensures Valid() && forall x: int :: Has(x) <==> old(Has(x)) || lo <= x <= hi
    {
      hide Covers, Normal, Adding;
      if lo > hi {
        return;
      }
      var result: seq<Range>, newLo, newHi, inserted := [], lo, hi, false;
      ghost var added, rs := Range(lo, hi), ranges;
      StartAdding(ranges, added);
      for n := 0 to |ranges|
        invariant ranges == rs && Adding(ranges, n, result, Range(newLo, newHi), inserted, added)
      {
        var r := ranges[n];
        InsertedAfter(ranges, n, result, Range(newLo, newHi), inserted, added);
        if r.hi < SaturatingPred(newLo) {
          PassBefore(ranges, n, result, Range(newLo, newHi), inserted, added);
          result := result + [r];
        } else if r.lo > SaturatingSucc(newHi) {
          PassAfter(ranges, n, result, Range(newLo, newHi), inserted, added);
          if !inserted {
            result := result + [Range(newLo, newHi)];
            inserted := true;
          }
          result := result + [r];
        } else {
          Absorb(ranges, n, result, Range(newLo, newHi), added);
          newLo := Min(newLo, r.lo);
          newHi := Max(newHi, r.hi);
        }
      }
      FinishAdding(ranges, result, Range(newLo, newHi), inserted, added);
      if !inserted {
        result := result + [Range(newLo, newHi)];
      }
      forall x: int ensures Covers(result, x) <==> Covers(rs, x) || lo <= x <= hi {
        assert Covers(result, x) <==> Covers(rs, x) || In(added, x);
      }
      ranges := result;
    }

    /** Lines 99-115. */
    method Contains(x: I64) returns (found: bool)
      requires Valid()
      ensures found == Has(x)
    {
      var lo, hi := 0, |ranges|;
      while lo < hi
        invariant 0 <= lo <= hi <= |ranges|
        invariant forall i :: 0 <= i < lo ==> ranges[i].hi < x
        invariant forall i :: hi <= i < |ranges| ==> x < ranges[i].lo
      {
        var mid := (lo + hi) / 2;
        var r := ranges[mid];
        if x < r.lo {
          hi := mid;
        } else if x > r.hi {
          lo := mid + 1;
        } else {
          assert In(ranges[mid], x);
          return true;
        }
      }
      return false;
    }

    /** Lines 118-124. */
    method Union(other: RangeSet) returns (out: RangeSet)
      requires Valid() && other.Valid()
      ensures fresh(out) && out.Valid() && forall x: int :: out.Has(x) <==> Has(x) || other.Has(x)
    {
      hide Covers, Normal;
      out := new RangeSet.Copy(ranges);
      NoneCovered(other.ranges);
      for n := 0 to |other.ranges|
        invariant fresh(out) && out.Valid()
        invariant forall x: int :: Covers(out.ranges, x) <==> Covers(ranges, x) || Covers(other.ranges[..n], x)
      {
        ghost var before := out.ranges;
        out.Add(other.ranges[n].lo, other.ranges[n].hi);
        ghost var next := other.ranges[..n + 1];
        forall x: int ensures Covers(out.ranges, x) <==> Covers(ranges, x) || Covers(next, x) {
          CoversTake(other.ranges, n, x);
          assert out.Has(x) <==> Covers(before, x) || other.ranges[n].lo <= x <= other.ranges[n].hi;
        }
      }
      assert other.ranges[..|other.ranges|] == other.ranges;
    }

    /** Lines 127-145. */
    method Intersect(other: RangeSet) returns (out: RangeSet)
      requires Valid() && other.Valid()
      ensures fresh(out) && out.Valid() && forall x: int :: out.Has(x) <==> Has(x) && other.Has(x)
    {
      hide Covers, Normal, Meeting;
      var pieces: seq<Range> := [];
      var i, j := 0, 0;
      StartMeeting(ranges, other.ranges);
      while i < |ranges| && j < |other.ranges|
        invariant 0 <= i <= |ranges| && 0 <= j <= |other.ranges|
        invariant Meeting(ranges, other.ranges, i, j, pieces)
        decreases |ranges| - i + |other.ranges| - j
      {
        var a, b := ranges[i], other.ranges[j];
        var lo, hi := Max(a.lo, b.lo), Min(a.hi, b.hi);
        MeetingStep(ranges, other.ranges, i, j, pieces);
        if lo <= hi {
          pieces := pieces + [Range(lo, hi)];
        }
        if a.hi < b.hi {
          i := i + 1;
        } else {
          j := j + 1;
        }
      }
      Met(ranges, other.ranges, i, j, pieces);
      out := new RangeSet.Copy(pieces);
    }

    /** Lines 156-173. The largest number is in the result even when it is in the set, if
        the universe ends there: the cursor cannot get past it. */
    method Complement(low: I64, high: I64) returns (out: RangeSet)
      requires Valid()
      ensures fresh(out) && forall x: int :: out.Has(x) <==> low <= x <= high && (!Has(x) || x == I64_MAX)
      ensures !(high == I64_MAX && Has(I64_MAX)) ==> out.Valid()
    {
      hide Covers, Normal, Swept;
      var pieces: seq<Range> := [];
      var cursor: I64 := low;
      ghost var c: int := low;
      StartSweep(ranges, low, high);
      for n := 0 to |ranges|
        invariant Swept(ranges, n, pieces, c, low, high) && cursor == if c > I64_MAX then I64_MAX else c
      {
        var r := ranges[n];
        if r.hi < low || r.lo > high {
          SweepOutside(ranges, n, pieces, c, low, high);
          continue;
        }
        var from := Max(r.lo, low);
        SweepRange(ranges, n, pieces, c, low, high, from, if c > r.hi + 1 then c else r.hi + 1);
        if from > cursor {
          pieces := pieces + [Range(cursor, from - 1)];
        }
        c := if c > r.hi + 1 then c else r.hi + 1;
        cursor := Max(cursor, SaturatingSucc(r.hi));
      }
      ghost var before := pieces;
      if cursor <= high {
        pieces := pieces + [Range(cursor, high)];
      }
      FinishSweep(ranges, before, c, cursor, low, high, pieces);
      out := new RangeSet.Unchecked(pieces);
      forall x: int ensures out.Has(x) <==> low <= x <= high && (!Has(x) || x == I64_MAX) {
        assert Covers(pieces, x) <==> low <= x <= high && (!Covers(ranges, x) || x == I64_MAX);
      }
    }

    constructor Unchecked(rs: seq<Range>)
      ensures ranges == rs
    {
      ranges := rs;
    }
  }

  lemma InsertedAfter(rs: seq<Range>, n: nat, result: seq<Range>, r: Range, inserted: bool, added: Range)
    requires Adding(rs, n, result, r, inserted, added) && n < |rs|
    ensures inserted ==> r.hi + 1 < rs[n].lo && r.lo <= r.hi <= rs[n].hi
    ensures r.lo <= r.hi && rs[n].lo <= rs[n].hi
  {
  }

  lemma NoneCovered(rs: seq<Range>)
    ensures forall x: int :: !Covers(rs[..0], x)
  {
  }

  // ----- intersecting ------------------------------------------------------------------------

  /** The pieces and what is still to meet make up the intersection, and the pieces lie
      before all that is to come. */
  ghost predicate Meeting(a: seq<Range>, b: seq<Range>, i: nat, j: nat, pieces: seq<Range>)
  {
    && i <= |a| && j <= |b| && Normal(a) && Normal(b) && Normal(pieces)
    && (forall x: int :: Covers(a, x) && Covers(b, x) <==>
      Covers(pieces, x) || (Covers(a[i..], x) && Covers(b[j..], x)))
    && (i < |a| && j < |b| ==> forall k :: 0 <= k < |pieces| ==>
      pieces[k].hi + 1 < a[i].lo || pieces[k].hi + 1 < b[j].lo)
  }

  lemma StartMeeting(a: seq<Range>, b: seq<Range>)
    requires Normal(a) && Normal(b)
    ensures Meeting(a, b, 0, 0, [])
  {
    assert a[0..] == a && b[0..] == b;
  }

  lemma LaterAbove(rs: seq<Range>, n: nat, later: seq<Range>)
    requires Normal(rs) && n < |rs| && later == rs[n + 1..]
    ensures forall x: int :: Covers(later, x) ==> rs[n].hi + 1 < x
  {
  }

  lemma MeetingStep(a: seq<Range>, b: seq<Range>, i: nat, j: nat, pieces: seq<Range>)
    requires Meeting(a, b, i, j, pieces) && i < |a| && j < |b|
    ensures var lo, hi := Max(a[i].lo, b[j].lo), Min(a[i].hi, b[j].hi);
            var more := if lo <= hi then pieces + [Range(lo, hi)] else pieces;
            if a[i].hi < b[j].hi then Meeting(a, b, i + 1, j, more) else Meeting(a, b, i, j + 1, more)
  {
    var lo, hi := Max(a[i].lo, b[j].lo), Min(a[i].hi, b[j].hi);
    var more := if lo <= hi then pieces + [Range(lo, hi)] else pieces;
    var laterA, laterB := a[i + 1..], b[j + 1..];
    LaterAbove(a, i, laterA);
    LaterAbove(b, j, laterB);
    forall x: int
      ensures (Covers(more, x) <==> Covers(pieces, x) || (In(a[i], x) && In(b[j], x)))
              && (Covers(a[i..], x) <==> In(a[i], x) || Covers(laterA, x))
              && (Covers(b[j..], x) <==> In(b[j], x) || Covers(laterB, x))
    {
      CoversSnoc(pieces, Range(if lo <= hi then lo else a[i].lo, if lo <= hi then hi else a[i].hi), x);
      CoversDrop(a, i, x);
      CoversDrop(b, j, x);
    }
    hide Covers;
  }

  lemma Met(a: seq<Range>, b: seq<Range>, i: nat, j: nat, pieces: seq<Range>)
    requires Meeting(a, b, i, j, pieces) && (i == |a| || j == |b|)
    ensures Normal(pieces) && forall x: int :: Covers(pieces, x) <==> Covers(a, x) && Covers(b, x)
  {
    assert a[|a|..] == [] && b[|b|..] == [];
  }

  /** The complement is right exactly when the universe ends below the largest number or the
      set does not hold it. */
  lemma ComplementRightIff(rs: seq<Range>, out: seq<Range>, low: I64, high: I64)
    requires forall x: int :: Covers(out, x) <==> low <= x <= high && (!Covers(rs, x) || x == I64_MAX)
    ensures (forall x: int :: Covers(out, x) <==> low <= x <= high && !Covers(rs, x)) <==>
            !(high == I64_MAX && Covers(rs, I64_MAX))
  {
    hide Covers;
    if high == I64_MAX && Covers(rs, I64_MAX) {
      assert Covers(out, I64_MAX);
    }
  }

  /** Two lists in normal form that cover the same numbers are the same list. */
  lemma {:induction false} NormalUnique(a: seq<Range>, b: seq<Range>)
    requires Normal(a) && Normal(b) && forall x: int :: Covers(a, x) <==> Covers(b, x)
    ensures a == b
  {
    if a == [] || b == [] {
      FirstCovered(a);
      FirstCovered(b);
    } else {
      FirstCovered(a);
      FirstCovered(b);
      FirstGap(a);
      FirstGap(b);
      var end, end' := a[0].hi + 1, b[0].hi + 1;
      assert Covers(b, a[0].lo) && Covers(a, b[0].lo);
      assert !Covers(b, end) && !Covers(a, end');
      hide Covers;
      assert a[0] == b[0];
      SameRest(a, b);
      NormalUnique(a[1..], b[1..]);
      assert a == [a[0]] + a[1..] && b == [b[0]] + b[1..];
    }
  }

  lemma SameRest(a: seq<Range>, b: seq<Range>)
    requires Normal(a) && Normal(b) && a != [] && b != [] && a[0] == b[0] && forall x: int :: Covers(a, x) <==>
             Covers(b, x)
    ensures Normal(a[1..]) && Normal(b[1..]) && forall x: int :: Covers(a[1..], x) <==> Covers(b[1..], x)
  {
    hide Covers;
    LaterAbove(a, 0, a[1..]);
    LaterAbove(b, 0, b[1..]);
    assert a[0..] == a && b[0..] == b;
    forall x: int ensures Covers(a[1..], x) <==> Covers(b[1..], x) {
      CoversDrop(a, 0, x);
      CoversDrop(b, 0, x);
    }
  }

  lemma FirstCovered(a: seq<Range>)
    requires Normal(a)
    ensures a != [] ==> (forall x: int :: a[0].lo <= x <= a[0].hi ==> Covers(a, x)) && forall x: int ::
            Covers(a, x) ==> a[0].lo <= x
    ensures a == [] ==> forall x: int :: !Covers(a, x)
    ensures a != [] ==> Covers(a, a[0].lo)
  {
    if a != [] {
      forall x: int | a[0].lo <= x <= a[0].hi ensures Covers(a, x) {
        assert In(a[0], x);
      }
      assert In(a[0], a[0].lo);
    }
  }

  lemma FirstGap(a: seq<Range>)
    requires Normal(a) && a != []
    ensures !Covers(a, a[0].hi + 1)
  {
  }

  /** The largest number stays in the complement of the set that holds just it. */
  method ComplementOfLast() returns (out: RangeSet)
    ensures fresh(out) && out.Has(I64_MAX - 1) && out.Has(I64_MAX)
  {
    var last := new RangeSet.Single(I64_MAX, I64_MAX);
    out := last.Complement(I64_MAX - 1, I64_MAX);
    assert last.Has(I64_MAX) && !last.Has(I64_MAX - 1);
  }
}
