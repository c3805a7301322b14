/** Edit distances by dynamic programming (src/editdist.rs), and the edit scripts
    whose least cost they are. Strings are sequences of characters. */
module EditDistance {
  import opened Options

  function Min(a: nat, b: nat): nat { if a <= b then a else b }

  // ----- the reference: edit scripts ------------------------------------------

  datatype Edit =
    | Keep(c: char)
    | Replace(from: char, to: char)
    | Insert(c: char)
    | Delete(c: char)
    | Swap(first: char, second: char)

  function Reads(e: Edit): string
  {
    match e
    case Keep(c) => [c]
    case Replace(from, _) => [from]
    case Insert(_) => []
    case Delete(c) => [c]
    case Swap(first, second) => [first, second]
  }

  function Writes(e: Edit): string
  {
    match e
    case Keep(c) => [c]
    case Replace(_, to) => [to]
    case Insert(c) => [c]
    case Delete(_) => []
    case Swap(first, second) => [second, first]
  }

  /** The text a script consumes. */
  function Source(s: seq<Edit>): string
  {
    if s == [] then [] else Source(s[..|s| - 1]) + Reads(s[|s| - 1])
  }

  /** The text a script produces. */
  function Target(s: seq<Edit>): string
  {
    if s == [] then [] else Target(s[..|s| - 1]) + Writes(s[|s| - 1])
  }

  /** One per edit other than `Keep`. */
  function Cost(s: seq<Edit>): nat
  {
    if s == [] then 0 else Cost(s[..|s| - 1]) + if s[|s| - 1].Keep? then 0 else 1
  }

  ghost predicate Edits(s: seq<Edit>, a: string, b: string, swaps: bool)
  {
    && Source(s) == a && Target(s) == b
    && (swaps || forall i :: 0 <= i < |s| ==> !s[i].Swap?)
  }

  // ----- the recurrences --------------------------------------------------------

  /** The recurrence on prefixes; with `swaps` it also exchanges neighbours. */
  function Distance(a: string, b: string, swaps: bool): nat
    decreases |a| + |b|
  {
    if a == [] then |b|
    else if b == [] then |a|
    else
      var a1, b1 := a[..|a| - 1], b[..|b| - 1];
      var cost := if a[|a| - 1] == b[|b| - 1] then 0 else 1;
      var best := Min(Min(Distance(a1, b, swaps) + 1, Distance(a, b1, swaps) + 1), Distance(a1, b1, swaps) + cost);
      if swaps && Crossed(a, b) then Min(best, Distance(a[..|a| - 2], b[..|b| - 2], swaps) + 1) else best
  }

  /** The last two characters are each other's, exchanged. */
  predicate Crossed(a: string, b: string)
  {
    |a| > 1 && |b| > 1 && a[|a| - 1] == b[|b| - 2] && a[|a| - 2] == b[|b| - 1]
  }

  lemma Push(s: seq<Edit>, e: Edit, a: string, b: string, swaps: bool)
    requires Edits(s, a, b, swaps) && (swaps || !e.Swap?)
    ensures Edits(s + [e], a + Reads(e), b + Writes(e), swaps)
    ensures Cost(s + [e]) == Cost(s) + if e.Keep? then 0 else 1
  {
    assert (s + [e])[..|s|] == s;
  }

  /** Undoing `e` at the end leaves the prefixes of lengths `i` and `j`, and the
      distance drops by the cost of `e`. */
  ghost predicate StepsBack(a: string, b: string, swaps: bool, e: Edit, i: nat, j: nat)
  {
    && i <= |a| && j <= |b| && a == a[..i] + Reads(e) && b == b[..j] + Writes(e)
    && (swaps || !e.Swap?)
    && Distance(a, b, swaps) == Distance(a[..i], b[..j], swaps) + if e.Keep? then 0 else 1
  }

  /** The last edit of a cheapest script. */
  lemma LastStep(a: string, b: string, swaps: bool) returns (e: Edit, i: nat, j: nat)
    requires a != [] || b != []
    ensures i + j < |a| + |b| && StepsBack(a, b, swaps, e, i, j)
  {
    i, j := |a|, |b|;
    if a == [] {
      e, j := Insert(b[|b| - 1]), |b| - 1;
    } else if b == [] {
      e, i := Delete(a[|a| - 1]), |a| - 1;
    } else {
      e, i, j := LastStepBoth(a, b, swaps);
    }
  }

  /** The distance comes from one of its neighbours in the table. */
  lemma DistanceCases(a: string, b: string, swaps: bool)
    requires a != [] && b != []
    ensures var d, a1, b1 := Distance(a, b, swaps), a[..|a| - 1], b[..|b| - 1];
      || d == Distance(a, b1, swaps) + 1
      || d == Distance(a1, b, swaps) + 1
      || d == Distance(a1, b1, swaps) + (if a[|a| - 1] == b[|b| - 1] then 0 else 1)
      || (swaps && Crossed(a, b) && d == Distance(a[..|a| - 2], b[..|b| - 2], swaps) + 1)
  {
  }

  lemma StepInsert(a: string, b: string, swaps: bool)
    requires b != [] && Distance(a, b, swaps) == Distance(a, b[..|b| - 1], swaps) + 1
    ensures StepsBack(a, b, swaps, Insert(b[|b| - 1]), |a|, |b| - 1)
  {
    hide Distance;
    assert a[..|a|] == a + Reads(Insert(b[|b| - 1])) == a;
  }

  lemma StepDelete(a: string, b: string, swaps: bool)
    requires a != [] && Distance(a, b, swaps) == Distance(a[..|a| - 1], b, swaps) + 1
    ensures StepsBack(a, b, swaps, Delete(a[|a| - 1]), |a| - 1, |b|)
  {
    hide Distance;
    assert b[..|b|] == b + Writes(Delete(a[|a| - 1])) == b;
  }

  lemma StepDiagonal(a: string, b: string, swaps: bool, e: Edit)
    requires a != [] && b != []
    requires e == if a[|a| - 1] == b[|b| - 1] then Keep(a[|a| - 1]) else Replace(a[|a| - 1], b[|b| - 1])
    requires Distance(a, b, swaps) == Distance(a[..|a| - 1], b[..|b| - 1], swaps) + if e.Keep? then 0 else 1
    ensures StepsBack(a, b, swaps, e, |a| - 1, |b| - 1)
  {
    hide Distance;
  }

  lemma StepSwap(a: string, b: string, swaps: bool)
    requires swaps && Crossed(a, b) && Distance(a, b, swaps) == Distance(a[..|a| - 2], b[..|b| - 2], swaps) + 1
    ensures StepsBack(a, b, swaps, Swap(a[|a| - 2], a[|a| - 1]), |a| - 2, |b| - 2)
  {
    hide Distance;
  }

  lemma LastStepBoth(a: string, b: string, swaps: bool) returns (e: Edit, i: nat, j: nat)
    requires a != [] && b != []
    ensures i + j < |a| + |b| && StepsBack(a, b, swaps, e, i, j)
  {
    DistanceCases(a, b, swaps);
    hide Distance, StepsBack;
    i, j := |a| - 1, |b| - 1;
    if Distance(a, b, swaps) == Distance(a, b[..j], swaps) + 1 {
      e, i := Insert(b[j]), |a|;
      StepInsert(a, b, swaps);
    } else if Distance(a, b, swaps) == Distance(a[..i], b, swaps) + 1 {
      e, j := Delete(a[i]), |b|;
      StepDelete(a, b, swaps);
    } else if Distance(a, b, swaps) == Distance(a[..i], b[..j], swaps) + if a[i] == b[j] then 0 else 1 {
      e := if a[i] == b[j] then Keep(a[i]) else Replace(a[i], b[j]);
      StepDiagonal(a, b, swaps, e);
    } else {
      e, i, j := Swap(a[i - 1], a[i]), i - 1, j - 1;
      StepSwap(a, b, swaps);
    }
  }

  /** Some script reaches the distance. */
  lemma {:induction false} Attained(a: string, b: string, swaps: bool) returns (s: seq<Edit>)
    ensures Edits(s, a, b, swaps) && Cost(s) == Distance(a, b, swaps)
    decreases |a| + |b|
  {
    if a == [] && b == [] {
      s := [];
    } else {
      hide Distance, Edits;
      var e, i, j := LastStep(a, b, swaps);
      var t := Attained(a[..i], b[..j], swaps);
      Push(t, e, a[..i], b[..j], swaps);
      s := t + [e];
    }
  }

  /** No script costs less. */
  lemma {:induction false} Minimal(s: seq<Edit>, a: string, b: string, swaps: bool)
    requires Edits(s, a, b, swaps)
    ensures Distance(a, b, swaps) <= Cost(s)
    decreases |s|
  {
    if s != [] {
      var t, e := s[..|s| - 1], s[|s| - 1];
      assert Source(s) == Source(t) + Reads(e) && Target(s) == Target(t) + Writes(e);
      Minimal(t, Source(t), Target(t), swaps);
      LastEdit(Source(t), Target(t), e, swaps);
    }
  }

  /** One more edit raises the distance by at most its cost. */
  lemma LastEdit(a: string, b: string, e: Edit, swaps: bool)
    requires swaps || !e.Swap?
    ensures Distance(a + Reads(e), b + Writes(e), swaps) <= Distance(a, b, swaps) + if e.Keep? then 0 else 1
  {
    hide Distance;
    match e
    case Insert(c) =>
      OneLonger(a, b, c, c, swaps);
      assert a + [] == a;
    case Delete(c) =>
      OneLonger(a, b, c, c, swaps);
      assert b + [] == b;
    case Keep(c) =>
      OneLonger(a, b, c, c, swaps);
    case Replace(from, to) =>
      OneLonger(a, b, from, to, swaps);
    case Swap(first, second) =>
      LastSwap(a, b, first, second);
  }

  /** One character more on either side or both. */
  lemma OneLonger(a: string, b: string, c: char, d: char, swaps: bool)
    ensures Distance(a, b + [d], swaps) <= Distance(a, b, swaps) + 1
    ensures Distance(a + [c], b, swaps) <= Distance(a, b, swaps) + 1
    ensures Distance(a + [c], b + [d], swaps) <= Distance(a, b, swaps) + if c == d then 0 else 1
  {
    var a', b' := a + [c], b + [d];
    assert a'[..|a'| - 1] == a && b'[..|b'| - 1] == b;
  }

  lemma LastSwap(a: string, b: string, first: char, second: char)
    ensures Distance(a + [first, second], b + [second, first], true) <= Distance(a, b, true) + 1
  {
    var c, d := a + [first, second], b + [second, first];
    assert c[..|c| - 2] == a && d[..|d| - 2] == b;
    assert Crossed(c, d);
  }

  // ----- the two-row loop -------------------------------------------------------

  /** Table entry `(i, j)`. */
  ghost function Entry(a: string, b: string, i: nat, j: nat, swaps: bool): nat
    requires i <= |a| && j <= |b|
  {
    Distance(a[..i], b[..j], swaps)
  }

  lemma EntryEdge(a: string, b: string, swaps: bool)
    ensures forall j :: 0 <= j <= |b| ==> Entry(a, b, 0, j, swaps) == j
    ensures forall i :: 0 <= i <= |a| ==> Entry(a, b, i, 0, swaps) == i
  {
  }

  lemma EntryWhole(a: string, b: string, swaps: bool)
    ensures Entry(a, b, |a|, |b|, swaps) == Distance(a, b, swaps)
  {
    assert a[..|a|] == a && b[..|b|] == b;
  }

  lemma EntryStep(a: string, b: string, i: nat, j: nat, swaps: bool)
    requires i < |a| && j < |b|
    ensures Entry(a, b, i + 1, j + 1, swaps) ==
      var best := Min(Min(Entry(a, b, i, j + 1, swaps) + 1, Entry(a, b, i + 1, j, swaps) + 1),
                      Entry(a, b, i, j, swaps) + if a[i] == b[j] then 0 else 1);
      if swaps && i > 0 && j > 0 && a[i] == b[j - 1]
        && a[i - 1] == b[j] then Min(best, Entry(a, b, i - 1, j - 1, swaps) + 1) else best
  {
    var c, d := a[..i + 1], b[..j + 1];
    assert c[..i] == a[..i] && d[..j] == b[..j];
    if i > 0 && j > 0 {
      assert c[..i - 1] == a[..i - 1] && d[..j - 1] == b[..j - 1];
    }
  }

  /** The first `n` places of `row` hold table row `i`. */
  ghost predicate RowIs(row: seq<nat>, a: string, b: string, i: nat, n: nat)
    requires i <= |a|
  {
    n <= |row| == |b| + 1 && forall j :: 0 <= j < n ==> row[j] == Entry(a, b, i, j, false)
  }

  /** One cell of the inner loop (lines 25-26). */
  lemma FillCell(a: string, b: string, i: nat, j: nat, prev: seq<nat>, cur: seq<nat>)
    requires i < |a| && j < |b| && RowIs(prev, a, b, i, |b| + 1) && RowIs(cur, a, b, i + 1, j + 1)
    ensures var cost := if a[i] == b[j] then 0 else 1;
            RowIs(cur[j + 1 := Min(Min(prev[j + 1] + 1, cur[j] + 1), prev[j] + cost)], a, b, i + 1, j + 2)
  {
    EntryStep(a, b, i, j, false);
    hide Entry;
  }

  /** Lines 11-31. */
  method Levenshtein(a: string, b: string) returns (d: nat)
    ensures d == Distance(a, b, false)
  {
    if a == [] {
      return |b|;
    }
    if b == [] {
      return |a|;
    }
    var prev: seq<nat>, cur: seq<nat> := seq(|b| + 1, j => j), seq(|b| + 1, _ => 0);
    EntryEdge(a, b, false);
    hide Entry, Distance;
    for i := 0 to |a|
      invariant |cur| == |b| + 1 && RowIs(prev, a, b, i, |b| + 1)
    {
      cur := cur[0 := i + 1];
      for j := 0 to |b|
        invariant RowIs(cur, a, b, i + 1, j + 1)
      {
        var cost := if a[i] == b[j] then 0 else 1;
        FillCell(a, b, i, j, prev, cur);
        cur := cur[j + 1 := Min(Min(prev[j + 1] + 1, cur[j] + 1), prev[j] + cost)];
      }
      prev, cur := cur, prev;
    }
    EntryWhole(a, b, false);
    d := prev[|b|];
  }

  /** The length difference is a lower bound. */
  lemma {:induction false} LengthGap(a: string, b: string, swaps: bool)
    ensures |a| - |b| <= Distance(a, b, swaps) && |b| - |a| <= Distance(a, b, swaps)
    decreases |a| + |b|
  {
    if a != [] && b != [] {
      DistanceCases(a, b, swaps);
      LengthGap(a[..|a| - 1], b, swaps);
      LengthGap(a, b[..|b| - 1], swaps);
      LengthGap(a[..|a| - 1], b[..|b| - 1], swaps);
      if Crossed(a, b) {
        LengthGap(a[..|a| - 2], b[..|b| - 2], swaps);
      }
    }
  }

  /** If a whole table row is at least `m`, so is everything below it. */
  lemma {:induction false} RowsGrow(a: string, b: string, i: nat, n: nat, j: nat, m: nat)
    requires i <= n <= |a| && j <= |b|
    requires forall t :: 0 <= t <= |b| ==> m <= Entry(a, b, i, t, false)
    ensures m <= Entry(a, b, n, j, false)
    decreases n, j
  {
    if i < n {
      RowsGrow(a, b, i, n - 1, j, m);
      if j == 0 {
        EntryEdge(a, b, false);
      } else {
        RowsGrow(a, b, i, n, j - 1, m);
        RowsGrow(a, b, i, n - 1, j - 1, m);
        EntryStep(a, b, n - 1, j - 1, false);
      }
    }
  }

  lemma RowTooFar(a: string, b: string, i: nat, row: seq<nat>, m: nat)
    requires i <= |a| && RowIs(row, a, b, i, |b| + 1) && forall t :: 0 <= t <= |b| ==> m <= row[t]
    ensures m <= Distance(a, b, false)
  {
    hide Entry;
    RowsGrow(a, b, i, |a|, |b|, m);
    EntryWhole(a, b, false);
  }

  /** Lines 35-62: the distance when it is at most `max`, and `None` otherwise. */
  method LevenshteinBounded(a: string, b: string, max: nat) returns (r: Option<nat>)
    ensures r == if Distance(a, b, false) <= max then Some(Distance(a, b, false)) else None
  {
    LengthGap(a, b, false);
    if (if |a| > |b| then |a| - |b| else |b| - |a|) > max {
      return None;
    }
    var prev: seq<nat>, cur: seq<nat> := seq(|b| + 1, j => j), seq(|b| + 1, _ => 0);
    EntryEdge(a, b, false);
    EntryWhole(a, b, false);
    hide Entry, Distance;
    for i := 0 to |a|
      invariant |cur| == |b| + 1 && RowIs(prev, a, b, i, |b| + 1)
    {
      hide RowIs;
      cur := cur[0 := i + 1];
      var rowMin: nat := cur[0];
      for j := 0 to |b|
        invariant RowIs(cur, a, b, i + 1, j + 1)
        invariant forall t :: 0 <= t <= j ==> rowMin <= cur[t]
      {
        var cost := if a[i] == b[j] then 0 else 1;
        FillCell(a, b, i, j, prev, cur);
        cur := cur[j + 1 := Min(Min(prev[j + 1] + 1, cur[j] + 1), prev[j] + cost)];
        rowMin := Min(rowMin, cur[j + 1]);
      }
      if rowMin > max {
        RowTooFar(a, b, i + 1, cur, rowMin);
        return None;
      }
      prev, cur := cur, prev;
    }
    var d := prev[|b|];
    r := if d > max then None else Some(d);
  }

  /** Lines 110-120: the first of the closest candidates within `maxDistance`. */
  method Closest(query: string, candidates: seq<string>, maxDistance: nat) returns (r: Option<string>)
    ensures r.None? <==> forall c :: c in candidates ==> Distance(query, c, false) > maxDistance
    ensures r.Some? ==> exists k ::
            0 <= k < |candidates| && candidates[k] == r.value && IsFirstClosest(query, candidates, k)
  {
    hide Distance;
    var best: Option<(string, nat)> := None;
    ghost var at := 0;
    for k := 0 to |candidates|
      invariant best.None? ==> forall i :: 0 <= i < k ==> Distance(query, candidates[i], false) > maxDistance
      invariant best.Some? ==> 0 <= at < k && best.value == (candidates[at], Distance(query, candidates[at], false))
      invariant best.Some? ==> best.value.1 <= maxDistance && IsFirstClosest(query, candidates[..k], at)
    {
      var d := LevenshteinBounded(query, candidates[k], maxDistance);
      if d.Some? && (best.None? || d.value < best.value.1) {
        best := Some((candidates[k], d.value));
        at := k;
      }
    }
    assert candidates[..|candidates|] == candidates;
    r := if best.Some? then Some(best.value.0) else None;
  }

  ghost predicate IsFirstClosest(query: string, candidates: seq<string>, k: nat)
    requires k < |candidates|
  {
    && (forall i :: 0 <= i < |candidates| ==>
      Distance(query, candidates[k], false) <= Distance(query, candidates[i], false))
    && (forall i :: 0 <= i < k ==> Distance(query, candidates[k], false) < Distance(query, candidates[i], false))
  }

  // ----- the full table, with transpositions -------------------------------------

  /** Lines 75-81: a table whose first row and column count up from 0. */
  method Borders(n: nat, m: nat) returns (d: array2<nat>)
    ensures fresh(d) && d.Length0 == n + 1 && d.Length1 == m + 1
    ensures forall x :: 0 <= x <= n ==> d[x, 0] == x
    ensures forall y :: 0 <= y <= m ==> d[0, y] == y
  {
    d := new nat[n + 1, m + 1]((_, _) => 0);
    for i := 0 to n + 1
      invariant forall x :: 0 <= x < i ==> d[x, 0] == x
    {
      d[i, 0] := i;
    }
    for j := 0 to m + 1
      invariant forall x :: 0 <= x <= n ==> d[x, 0] == x
      invariant forall y :: 0 <= y < j ==> d[0, y] == y
    {
      d[0, j] := j;
    }
  }

  /** Lines 84-88: one table entry from its neighbours. */
  method BestEdit(d: array2<nat>, a: string, b: string, i: nat, j: nat) returns (best: nat)
    requires 1 <= i <= |a| && 1 <= j <= |b| && Filled(d, a, b, i, j)
    ensures best == Entry(a, b, i, j, true)
  {
    var cost := if a[i - 1] == b[j - 1] then 0 else 1;
    best := Min(Min(d[i - 1, j] + 1, d[i, j - 1] + 1), d[i - 1, j - 1] + cost);
    if i > 1 && j > 1 && a[i - 1] == b[j - 2] && a[i - 2] == b[j - 1] {
      best := Min(best, d[i - 2, j - 2] + 1);
    }
    EntryStep(a, b, i - 1, j - 1, true);
    hide Entry;
  }

  /** Lines 65-93: the least cost of a script, in which no stretch of the text is edited twice. */
  method DamerauLevenshtein(a: string, b: string) returns (distance: nat)
    ensures distance == Distance(a, b, true)
  {
    var n, m := |a|, |b|;
    if n == 0 {
      return m;
    }
    if m == 0 {
      return n;
    }
    var d := Borders(n, m);
    EntryEdge(a, b, true);
    hide Entry, Distance;
    for i := 1 to n + 1
      invariant Filled(d, a, b, i, 1)
    {
      for j := 1 to m + 1
        invariant Filled(d, a, b, i, j)
      {
        var best := BestEdit(d, a, b, i, j);
        d[i, j] := best;
      }
    }
    EntryWhole(a, b, true);
    distance := d[n, m];
  }

  /** The borders, the rows before `i`, and the part of row `i` before `j` are done. */
  ghost predicate Filled(d: array2<nat>, a: string, b: string, i: nat, j: nat)
    reads d
  {
    && d.Length0 == |a| + 1 && d.Length1 == |b| + 1
    && forall x, y :: 0 <= x <= |a| && 0 <= y <= |b| && (x == 0 || y == 0 || x < i || (x == i && y < j)) ==>
      d[x, y] == Entry(a, b, x, y, true)
  }

  // ----- it is a metric ----------------------------------------------------------

  /** Doing one script after another costs at most both together. */
  lemma {:induction false} Compose(s: seq<Edit>, t: seq<Edit>, a: string, b: string, c: string)
    requires Edits(s, a, b, false) && Edits(t, b, c, false)
    ensures Distance(a, c, false) <= Cost(s) + Cost(t)
    decreases |s| + |t|
  {
    if s == [] && t == [] {
    } else if t != [] && Reads(t[|t| - 1]) == [] {
      ComposeInsert(s, t, a, b, c);
    } else if s != [] && Writes(s[|s| - 1]) == [] {
      ComposeDelete(s, t, a, b, c);
    } else {
      ComposeMiddle(s, t, a, b, c);
    }
  }

  lemma {:induction false} ComposeInsert(s: seq<Edit>, t: seq<Edit>, a: string, b: string, c: string)
    requires Edits(s, a, b, false) && Edits(t, b, c, false) && t != [] && Reads(t[|t| - 1]) == []
    ensures Distance(a, c, false) <= Cost(s) + Cost(t)
    decreases |s| + |t|, 0
  {
    hide Distance;
    var u, e := t[..|t| - 1], t[|t| - 1];
    Compose(s, u, a, b, Target(u));
    LastEdit(a, Target(u), e, false);
    assert a + Reads(e) == a;
  }

  lemma {:induction false} ComposeDelete(s: seq<Edit>, t: seq<Edit>, a: string, b: string, c: string)
    requires Edits(s, a, b, false) && Edits(t, b, c, false) && s != [] && Writes(s[|s| - 1]) == []
    ensures Distance(a, c, false) <= Cost(s) + Cost(t)
    decreases |s| + |t|, 0
  {
    hide Distance;
    var r, e := s[..|s| - 1], s[|s| - 1];
    Compose(r, t, Source(r), b, c);
    LastEdit(Source(r), c, e, false);
    assert c + Writes(e) == c;
  }

  /** The last edits meet at one character of the middle string. */
  lemma {:induction false} ComposeMiddle(s: seq<Edit>, t: seq<Edit>, a: string, b: string, c: string)
    requires Edits(s, a, b, false) && Edits(t, b, c, false) && (s != [] || t != [])
    requires t != [] ==> Reads(t[|t| - 1]) != []
    requires s != [] ==> Writes(s[|s| - 1]) != []
    ensures Distance(a, c, false) <= Cost(s) + Cost(t)
    decreases |s| + |t|, 0
  {
    hide Distance;
    var r, e := s[..|s| - 1], s[|s| - 1];
    var u, f := t[..|t| - 1], t[|t| - 1];
    assert Target(r) == b[..|b| - 1] == Source(u);
    Compose(r, u, Source(r), Target(r), Target(u));
    MeetAt(Source(r), Target(u), e, f);
    hide Source, Target;
  }

  /** An edit writing a character and one reading it do no more than both cost. */
  lemma MeetAt(a: string, c: string, e: Edit, f: Edit)
    requires !e.Swap? && !f.Swap? && |Writes(e)| == 1 && Writes(e) == Reads(f)
    ensures Distance(a + Reads(e), c + Writes(f), false) <=
      Distance(a, c, false) + (if e.Keep? then 0 else 1) + (if f.Keep? then 0 else 1)
  {
    hide Distance;
    assert a + [] == a && c + [] == c;
    if e.Insert? && f.Delete? {
    } else if e.Insert? {
      LastEdit(a, c, Insert(Writes(f)[0]), false);
    } else if f.Delete? {
      LastEdit(a, c, Delete(Reads(e)[0]), false);
    } else if e.Keep? && f.Keep? {
      LastEdit(a, c, e, false);
    } else {
      LastEdit(a, c, Replace(Reads(e)[0], Writes(f)[0]), false);
    }
  }

  /** Without transpositions only. */
  lemma TriangleInequality(a: string, b: string, c: string)
    ensures Distance(a, c, false) <= Distance(a, b, false) + Distance(b, c, false)
  {
    hide Distance;
    var s := Attained(a, b, false);
    var t := Attained(b, c, false);
    Compose(s, t, a, b, c);
  }

  /** Reading a script backwards edits the other way. */
  function Inverse(e: Edit): Edit
  {
    match e
    case Keep(c) => Keep(c)
    case Replace(from, to) => Replace(to, from)
    case Insert(c) => Delete(c)
    case Delete(c) => Insert(c)
    case Swap(first, second) => Swap(second, first)
  }

  lemma {:induction false} InverseScript(s: seq<Edit>, a: string, b: string, swaps: bool) returns (t: seq<Edit>)
    requires Edits(s, a, b, swaps)
    ensures Edits(t, b, a, swaps) && Cost(t) == Cost(s)
  {
    if s == [] {
      t := [];
    } else {
      var r, e := s[..|s| - 1], s[|s| - 1];
      var u := InverseScript(r, Source(r), Target(r), swaps);
      Push(u, Inverse(e), Target(r), Source(r), swaps);
      t := u + [Inverse(e)];
    }
  }

  lemma Symmetric(a: string, b: string, swaps: bool)
    ensures Distance(a, b, swaps) == Distance(b, a, swaps)
  {
    hide Distance;
    var s := Attained(a, b, swaps);
    var s' := InverseScript(s, a, b, swaps);
    Minimal(s', b, a, swaps);
    var t := Attained(b, a, swaps);
    var t' := InverseScript(t, b, a, swaps);
    Minimal(t', a, b, swaps);
  }

  lemma {:induction false} ZeroIffEqual(a: string, b: string, swaps: bool)
    ensures Distance(a, b, swaps) == 0 <==> a == b
    decreases |a|
  {
    if a != [] && b != [] {
      DistanceCases(a, b, swaps);
      ZeroIffEqual(a[..|a| - 1], b[..|b| - 1], swaps);
      assert a == a[..|a| - 1] + [a[|a| - 1]] && b == b[..|b| - 1] + [b[|b| - 1]];
    }
  }

  /** Allowing transpositions never makes the distance larger. */
  lemma SwapsHelp(a: string, b: string)
    ensures Distance(a, b, true) <= Distance(a, b, false)
  {
    hide Distance;
    var s := Attained(a, b, false);
    Minimal(s, a, b, true);
  }
}
