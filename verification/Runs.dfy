/** Run-length lists (src/rle.rs, lines 18-28 and 93-142). */
module Runs {
  import opened Integers
  import opened Values

  datatype Run = Run(value: Value, count: U32)

  function Repeat(v: Value, n: nat): (r: seq<Value>)
    ensures |r| == n && forall i :: 0 <= i < n ==> r[i] == v
  {
    seq(n, _ => v)
  }

  /** The values a run list stands for. */
  function Flat(runs: seq<Run>): seq<Value>
  {
    if runs == [] then []
    else
      var last := runs[|runs| - 1];
      Flat(runs[..|runs| - 1]) + Repeat(last.value, last.count)
  }

  lemma FlatEmpty()
    ensures Flat([]) == []
  {
  }

  lemma FlatSnoc(runs: seq<Run>, r: Run)
    ensures Flat(runs + [r]) == Flat(runs) + Repeat(r.value, r.count)
  {
    assert (runs + [r])[..|runs|] == runs;
  }

  lemma FlatTake(runs: seq<Run>, i: nat)
    requires i < |runs|
    ensures Flat(runs[..i + 1]) == Flat(runs[..i]) + Repeat(runs[i].value, runs[i].count)
  {
    assert runs[..i + 1][..i] == runs[..i];
  }

  /** A longer last run. */
  lemma FlatGrow(runs: seq<Run>, more: nat)
    requires runs != [] && runs[|runs| - 1].count + more <= U32_MAX
    ensures var last := runs[|runs| - 1];
            Flat(runs[|runs| - 1 := last.(count := last.count + more)]) == Flat(runs) + Repeat(last.value, more)
  {
    var front, last := runs[..|runs| - 1], runs[|runs| - 1];
    var grown := Run(last.value, last.count + more);
    assert runs[|runs| - 1 := grown] == front + [grown];
    FlatSnoc(front, grown);
    assert Repeat(last.value, last.count) + Repeat(last.value, more) == Repeat(last.value, last.count + more);
  }

  lemma {:induction false} FlatConcat(a: seq<Run>, b: seq<Run>)
    ensures Flat(a + b) == Flat(a) + Flat(b)
  {
    if b == [] {
      assert a + b == a;
    } else {
      var front, last := b[..|b| - 1], b[|b| - 1];
      assert (a + b)[..|a + b| - 1] == a + front;
      FlatConcat(a, front);
      assert (Flat(a) + Flat(front)) + Repeat(last.value, last.count)
        == Flat(a) + (Flat(front) + Repeat(last.value, last.count));
    }
  }

  method RunTotal(runs: seq<Run>) returns (total: nat)
    ensures total == |Flat(runs)|
  {
    total := 0;
    for i := 0 to |runs|
      invariant total == |Flat(runs[..i])|
    {
      FlatTake(runs, i);
      total := total + runs[i].count;
    }
    assert runs[..|runs|] == runs;
  }

  /** Every run stands for at least one value. */
  ghost predicate Positive(runs: seq<Run>)
  {
    forall i :: 0 <= i < |runs| ==> runs[i].count > 0
  }

  /** The value of a run is among the values it stands for. */
  lemma {:induction false} RunValue(runs: seq<Run>, i: nat)
    requires Positive(runs) && i < |runs|
    ensures runs[i].value in Flat(runs)
  {
    var n := |runs| - 1;
    if i == n {
      assert Flat(runs)[|Flat(runs)| - 1] == runs[n].value;
    } else {
      RunValue(runs[..n], i);
    }
  }

  // ----- coalescing --------------------------------------------------------------------------

  /** How many values some runs stand for. */
  function Span(runs: seq<Run>, i: nat, j: nat): nat
    requires i <= j <= |runs|
  {
    if i == j then 0 else Span(runs, i, j - 1) + runs[j - 1].count
  }

  /** Neighbours of one value. */
  ghost predicate SameValue(runs: seq<Run>, i: nat, j: nat)
    requires i <= j <= |runs|
  {
    forall k :: i <= k < j ==> runs[k].value == runs[i].value
  }

  /** No neighbours of one value, among the first `n` runs, stand for more values than 32 bits can
      count. */
  ghost predicate Countable(runs: seq<Run>, n: nat)
    requires n <= |runs|
  {
    forall i, j :: 0 <= i <= j <= n && SameValue(runs, i, j) ==> Span(runs, i, j) <= U32_MAX
  }

  lemma {:induction false} SpanShrinks(runs: seq<Run>, i: nat, i': nat, j: nat)
    requires i <= i' <= j <= |runs|
    ensures Span(runs, i', j) <= Span(runs, i, j)
  {
    if i' < j {
      SpanShrinks(runs, i, i', j - 1);
    }
  }

  lemma {:induction false} SpanIsFlat(runs: seq<Run>, n: nat)
    requires n <= |runs|
    ensures Span(runs, 0, n) == |Flat(runs[..n])|
  {
    if n > 0 {
      SpanIsFlat(runs, n - 1);
      FlatTake(runs, n - 1);
    } else {
      assert runs[..0] == [];
    }
  }

  /** Runs for few enough values need no test. */
  lemma FewAreCountable(runs: seq<Run>)
    requires |Flat(runs)| <= U32_MAX
    ensures Countable(runs, |runs|)
  {
    hide Span, Flat;
    forall i, j | 0 <= i <= j <= |runs| && SameValue(runs, i, j) ensures Span(runs, i, j) <= U32_MAX {
      SpanShrinks(runs, 0, i, j);
      SpanGrows(runs, j, |runs|);
      SpanIsFlat(runs, |runs|);
      assert runs[..|runs|] == runs;
    }
  }

  lemma {:induction false} SpanGrows(runs: seq<Run>, j: nat, j': nat)
    requires j <= j' <= |runs|
    ensures Span(runs, 0, j) <= Span(runs, 0, j')
  {
    if j < j' {
      SpanGrows(runs, j, j' - 1);
    }
  }

  /** Where a coalescing stands after `i` runs: whether a count was cut, and otherwise where the group
      of the last run began. */
  ghost predicate Coalesced(runs: seq<Run>, i: nat, out: seq<Run>, cut: bool, start: nat)
    requires i <= |runs|
  {
    && |out| <= i && (i > 0 ==> out != [] && out[|out| - 1].value == runs[i - 1].value)
    && (cut <==> !Countable(runs, i))
    && (if cut then |Flat(out)| < |Flat(runs[..i])| else Flat(out) == Flat(runs[..i]))
    && (!cut && i > 0 ==> start < i && SameValue(runs, start, i) && out[|out| - 1].count == Span(runs, start, i)
                          && (start > 0 ==> runs[start - 1].value != runs[start].value))
  }

  /** One run more: stretches of one value that it ends begin with its group. */
  lemma CountableNext(runs: seq<Run>, i: nat, start: nat)
    requires start <= i < |runs| && SameValue(runs, start, i + 1)
             && (start > 0 ==> runs[start - 1].value != runs[start].value)
    ensures Countable(runs, i + 1) <==> Countable(runs, i) && Span(runs, start, i + 1) <= U32_MAX
  {
    hide Span;
    if Countable(runs, i) && Span(runs, start, i + 1) <= U32_MAX {
      forall a, b | 0 <= a <= b <= i + 1 && SameValue(runs, a, b) ensures Span(runs, a, b) <= U32_MAX {
        if b == i + 1 && a <= i {
          assert start <= a;
          SpanShrinks(runs, start, a, b);
        } else if b == i + 1 {
          SpanShrinks(runs, start, a, b);
        }
      }
    }
  }

  /** Lines 102-107: the run joins the last one, whose count stops at the largest number. */
  lemma Joined(runs: seq<Run>, i: nat, out: seq<Run>, cut: bool, start: nat)
    requires i < |runs| && Coalesced(runs, i, out, cut, start) && out != [] && out[|out| - 1].value == runs[i].value
    ensures var last := out[|out| - 1]; var sum := last.count + runs[i].count;
            Coalesced(runs, i + 1, out[|out| - 1 := last.(count := if sum <= U32_MAX then sum else U32_MAX)], cut
              || sum > U32_MAX, start)
  {
    hide Flat, Countable;
    var last := out[|out| - 1];
    var sum := last.count + runs[i].count;
    FlatTake(runs, i);
    FlatGrow(out, if sum <= U32_MAX then runs[i].count else U32_MAX - last.count);
    if cut {
      CountableStays(runs, i);
    } else {
      assert SameValue(runs, start, i + 1);
      CountableNext(runs, i, start);
    }
    hide SameValue;
  }

  lemma CountableStays(runs: seq<Run>, i: nat)
    requires i < |runs| && !Countable(runs, i)
    ensures !Countable(runs, i + 1)
  {
  }

  /** Line 109: the run stands alone. */
  lemma Alone(runs: seq<Run>, i: nat, out: seq<Run>, cut: bool, start: nat)
    requires i < |runs| && Coalesced(runs, i, out, cut, start) && (out == [] || out[|out| - 1].value != runs[i].value)
    ensures Coalesced(runs, i + 1, out + [runs[i]], cut, i)
  {
    hide Flat, Countable;
    FlatTake(runs, i);
    FlatSnoc(out, runs[i]);
    if cut {
      CountableStays(runs, i);
    } else {
      CountableNext(runs, i, i);
      assert Span(runs, i, i + 1) == Span(runs, i, i) + runs[i].count;
    }
  }

  /** Lines 99-111: adjacent runs of one value become one run. The values stay if and only if no
      such run would have to count further than 32 bits do. */
  method Coalesce(runs: seq<Run>) returns (out: seq<Run>)
    ensures Flat(out) == Flat(runs) <==> Countable(runs, |runs|)
    ensures !Countable(runs, |runs|) ==> |Flat(out)| < |Flat(runs)|
    ensures |out| <= |runs|
    ensures forall i :: 0 < i < |out| ==> out[i - 1].value != out[i].value
    ensures Positive(runs) ==> Positive(out)
  {
    hide Flat, Coalesced, Countable;
    FlatEmpty();
    out := [];
    ghost var cut, start := false, 0;
    NothingCoalesced(runs);
    for i := 0 to |runs|
      invariant Coalesced(runs, i, out, cut, start)
      invariant forall j :: 0 < j < |out| ==> out[j - 1].value != out[j].value
      invariant Positive(runs) ==> Positive(out)
    {
      var r := runs[i];
      if out != [] && out[|out| - 1].value == r.value {
        Joined(runs, i, out, cut, start);
        var last := out[|out| - 1];
        var sum := last.count + r.count;
        cut := cut || sum > U32_MAX;
        out := out[|out| - 1 := last.(count := if sum <= U32_MAX then sum else U32_MAX)];
      } else {
        Alone(runs, i, out, cut, start);
        start := i;
        out := out + [r];
      }
    }
    AllCoalesced(runs, out, cut, start);
  }

  lemma NothingCoalesced(runs: seq<Run>)
    ensures Coalesced(runs, 0, [], false, 0)
  {
    assert runs[..0] == [];
  }

  lemma AllCoalesced(runs: seq<Run>, out: seq<Run>, cut: bool, start: nat)
    requires Coalesced(runs, |runs|, out, cut, start)
    ensures Flat(out) == Flat(runs) <==> Countable(runs, |runs|)
    ensures |out| <= |runs| && (!Countable(runs, |runs|) ==> |Flat(out)| < |Flat(runs)|)
  {
    hide Flat, Countable;
    assert runs[..|runs|] == runs;
  }

  /** Two runs of one value, of the largest count and of one: a value is lost. */
  method CoalesceLoses(v: Value) returns (out: seq<Run>)
    ensures |Flat(out)| < |Flat([Run(v, U32_MAX), Run(v, 1)])|
  {
    var runs := [Run(v, U32_MAX), Run(v, 1)];
    out := Coalesce(runs);
    assert Span(runs, 0, 1) == Span(runs, 0, 0) + U32_MAX;
    assert SameValue(runs, 0, 2) && Span(runs, 0, 2) > U32_MAX;
  }

  method Materialize(runs: seq<Run>) returns (out: seq<Value>)
    ensures out == Flat(runs)
  {
    out := [];
    for i := 0 to |runs|
      invariant out == Flat(runs[..i])
    {
      FlatTake(runs, i);
      for k := 0 to runs[i].count
        invariant out == Flat(runs[..i]) + Repeat(runs[i].value, k)
      {
        out := out + [runs[i].value];
      }
    }
    assert runs[..|runs|] == runs;
  }

  /** Dropping rows splits at most one run. */
  method DropFirst(runs: seq<Run>, n: nat) returns (out: seq<Run>)
    ensures Flat(out) == if n <= |Flat(runs)| then Flat(runs)[n..] else []
  {
    hide Flat;
    FlatEmpty();
    out := [];
    var remaining := n;
    for i := 0 to |runs|
      invariant 0 <= remaining <= n
      invariant remaining > 0 ==> out == [] && |Flat(runs[..i])| == n - remaining
      invariant remaining == 0 ==> n <= |Flat(runs[..i])| && Flat(out) == Flat(runs[..i])[n..]
    {
      var r := runs[i];
      FlatTake(runs, i);
      if remaining == 0 {
        FlatSnoc(out, r);
        out := out + [r];
      } else {
        var take := if remaining < r.count then remaining else r.count;
        remaining := remaining - take;
        if r.count > take {
          FlatSnoc(out, Run(r.value, r.count - take));
          assert out == [];
          out := out + [Run(r.value, r.count - take)];
        }
      }
    }
    assert runs[..|runs|] == runs;
  }

  /** One run for each value. */
  function Singles(values: seq<Value>): seq<Run>
  {
    seq(|values|, i requires 0 <= i < |values| => Run(values[i], 1))
  }

  lemma {:induction false} FlatSingles(values: seq<Value>)
    ensures Flat(Singles(values)) == values
  {
    if values != [] {
      var front := values[..|values| - 1];
      FlatSingles(front);
      assert Singles(values) == Singles(front) + [Run(values[|values| - 1], 1)];
      FlatSnoc(Singles(front), Run(values[|values| - 1], 1));
    }
  }
}
