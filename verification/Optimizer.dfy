/** The rule-based plan optimizer (src/logical.rs, lines 14-58 and 318-439), over rows
    produced as the operators produce them (src/physical.rs, lines 65-94).

    Scans, joins, aggregates, sorts, limits and distincts may mean anything at all: the
    optimizer only relies on them being functions of their inputs. */
module Optimizer {
  import opened Integers
  import opened Options
  import opened Values
  import opened Expressions
  import opened Logical

  datatype JoinKind = Inner | Left

  type Named = (Expr, Option<string>)

  datatype Plan =
    | Scan(table: string, alias: Option<string>)
    | Filter(cond: Expr, input: Plan)
    | Project(exprs: seq<Named>, input: Plan)
    | Join(kind: JoinKind, on: Expr, left: Plan, right: Plan)
    | Aggregation(groupBy: seq<Expr>, aggregates: seq<Named>, input: Plan)
    | Sort(keys: seq<(Expr, bool)>, input: Plan)
    | Limit(limit: Option<I64>, offset: Option<I64>, input: Plan)
    | Distinct(input: Plan)
    | EmptyRelation

  // ----- the optimizer -----------------------------------------------------------

  /** Lines 352-384, on a filter whose input has been rewritten. `None` when folding
      overflows. */
  function RewriteFilter(cond: Expr, input: Plan): Option<Plan>
  {
    var folded := FoldConstants(cond);
    if folded.None? then None
    else if folded.value == LitBool(true) then Some(input)
    else
      match input
      case Filter(inner, innerInput) =>
        var combined := FoldConstants(Binary(And, folded.value, inner));
        if combined.None? then None else Some(Filter(combined.value, innerInput))
      case Project(exprs, projInput) => Some(Project(exprs, Filter(folded.value, projInput)))
      case _ => Some(Filter(folded.value, input))
  }

  /** The same operator on another input. */
  function WithInput(plan: Plan, input: Plan): Plan
  {
    match plan
    case Filter(cond, _) => Filter(cond, input)
    case Project(exprs, _) => Project(exprs, input)
    case Aggregation(groupBy, aggregates, _) => Aggregation(groupBy, aggregates, input)
    case Sort(keys, _) => Sort(keys, input)
    case Limit(limit, offset, _) => Limit(limit, offset, input)
    case Distinct(_) => Distinct(input)
    case _ => plan
  }

  /** Lines 348-438: children first, then the filter rules. */
  function Rewrite(plan: Plan): Option<Plan>
  {
    match plan
    case Scan(_, _) => Some(plan)
    case EmptyRelation => Some(plan)
    case Join(kind, on, left, right) =>
      var l, r := Rewrite(left), Rewrite(right);
      if l.None? || r.None? then None else Some(Join(kind, on, l.value, r.value))
    case Filter(cond, input) =>
      var i := Rewrite(input);
      if i.None? then None else RewriteFilter(cond, i.value)
    case _ =>
      var i := Rewrite(plan.input);
      if i.None? then None else Some(WithInput(plan, i.value))
  }

  const MAX_PASSES: nat := 8

  /** Lines 336-346. */
  method Optimize(plan: Plan) returns (r: Option<Plan>)
    ensures r == Optimized(plan, MAX_PASSES)
    ensures r.Some? ==> Settled(r.value) || AllChange(plan, MAX_PASSES)
  {
    hide Settled, Rewrite, AllChange;
    if Optimized(plan, MAX_PASSES).Some? {
      OptimizedSettles(plan, MAX_PASSES);
    }
    var current := plan;
    for pass := 0 to MAX_PASSES
      invariant Optimized(plan, MAX_PASSES) == Optimized(current, MAX_PASSES - pass)
    {
      var next := Rewrite(current);
      if next.None? {
        return None;
      }
      if next.value == current {
        return Some(current);
      }
      current := next.value;
    }
    r := Some(current);
  }

  /** Rewriting until nothing changes, at most `passes` times. */
  function Optimized(plan: Plan, passes: nat): Option<Plan>
    decreases passes
  {
    if passes == 0 then Some(plan)
    else
      var next := Rewrite(plan);
      if next.None? then None
      else if next.value == plan then Some(plan)
      else Optimized(next.value, passes - 1)
  }

  // ----- what rewriting leaves -----------------------------------------------------------------

  /** No filter is left that a rule applies to: none is above another filter or a projection, none has
      a predicate that is true or can be folded. */
  predicate Settled(plan: Plan)
  {
    match plan
    case Scan(_, _) => true
    case EmptyRelation => true
    case Join(_, _, left, right) => Settled(left) && Settled(right)
    case Filter(cond, input) =>
      Settled(input) && !input.Filter? && !input.Project? && Reduced(cond) && cond != LitBool(true)
    case _ => Settled(plan.input)
  }

  function Size(plan: Plan): nat
  {
    match plan
    case Scan(_, _) => 1
    case EmptyRelation => 1
    case Join(_, _, left, right) => 1 + Size(left) + Size(right)
    case _ => 1 + Size(plan.input)
  }

  lemma {:induction false} NoLarger(plan: Plan)
    ensures Rewrite(plan).Some? ==> Size(Rewrite(plan).value) <= Size(plan)
  {
    hide FoldConstants;
    match plan
    case Scan(_, _) =>
    case EmptyRelation =>
    case Join(_, _, left, right) =>
      NoLarger(left);
      NoLarger(right);
    case _ => NoLarger(plan.input);
  }

  /** A plan that a pass does not change is settled. */
  lemma {:induction false} FixedIsSettled(plan: Plan)
    requires Rewrite(plan) == Some(plan)
    ensures Settled(plan)
  {
    hide FoldConstants, Reduced;
    match plan
    case Scan(_, _) =>
    case EmptyRelation =>
    case Join(_, _, left, right) =>
      FixedIsSettled(left);
      FixedIsSettled(right);
    case Filter(cond, input) =>
      NoLarger(input);
      FoldReduces(cond);
      FixedIsSettled(input);
    case _ => FixedIsSettled(plan.input);
  }

  /** What the optimizer returns is settled, or every one of its passes has changed something. */
  lemma {:induction false} OptimizedSettles(plan: Plan, passes: nat)
    requires Optimized(plan, passes).Some?
    ensures Settled(Optimized(plan, passes).value) || AllChange(plan, passes)
    decreases passes
  {
    hide Rewrite, Settled;
    if passes > 0 {
      if Rewrite(plan).value == plan {
        FixedIsSettled(plan);
      } else {
        OptimizedSettles(Rewrite(plan).value, passes - 1);
      }
    }
  }

  /** Each of so many passes changes the plan. */
  predicate AllChange(plan: Plan, passes: nat)
    decreases passes
  {
    passes == 0
    || (Rewrite(plan).Some? && Rewrite(plan).value != plan && AllChange(Rewrite(plan).value, passes - 1))
  }

  // ----- what a plan computes ------------------------------------------------------

  datatype Relation = Relation(cols: Columns, rows: seq<Row>)

  /** The operators the optimizer does not look into. */
  datatype Operators = Operators(
    scan: (string, Option<string>) -> Option<Relation>,
    join: (JoinKind, Expr, Relation, Relation) -> Option<Relation>,
    aggregate: (seq<Expr>, seq<Named>, Relation) -> Option<Relation>,
    sort: (seq<(Expr, bool)>, Relation) -> Option<Relation>,
    limit: (Option<I64>, Option<I64>, Relation) -> Option<Relation>,
    distinct: Relation -> Option<Relation>)

  /** src/physical.rs, lines 66-73: a row is kept when the predicate is exactly true. */
  ghost function Kept(cols: Columns, p: Expr, rows: seq<Row>): Option<seq<Row>>
  {
    if rows == [] then Some([])
    else
      var n := |rows| - 1;
      var rest, v := Kept(cols, p, rows[..n]), ValueOf(cols, p, rows[n]);
      if rest.None? || v.None? then None
      else if v.value == Bool(true) then Some(rest.value + [rows[n]])
      else rest
  }

  ghost function Outputs(cols: Columns, exprs: seq<Named>, row: Row): (r: Option<Row>)
    ensures r.Some? ==> |r.value| == |exprs|
    ensures r.Some? ==> forall i :: 0 <= i < |exprs| ==> ValueOf(cols, exprs[i].0, row) == Some(r.value[i])
  {
    if exprs == [] then Some([])
    else
      var n := |exprs| - 1;
      var rest, v := Outputs(cols, exprs[..n], row), ValueOf(cols, exprs[n].0, row);
      if rest.None? || v.None? then None else Some(rest.value + [v.value])
  }

  /** src/physical.rs, lines 90-93: one output row for each input row. */
  ghost function Projected(cols: Columns, exprs: seq<Named>, rows: seq<Row>): Option<seq<Row>>
  {
    if rows == [] then Some([])
    else
      var n := |rows| - 1;
      var rest, out := Projected(cols, exprs, rows[..n]), Outputs(cols, exprs, rows[n]);
      if rest.None? || out.None? then None else Some(rest.value + [out.value])
  }

  /** An output's name: its alias, or the column it reads. */
  function OutputName(e: Named): Option<string>
  {
    match e
    case (_, Some(alias)) => Some(alias)
    case (Column(c), None) => Some(c)
    case (Qualified(_, c), None) => Some(c)
    case _ => None
  }

  /** The names of a projection's outputs, a later one hiding an earlier. */
  function OutputColumns(exprs: seq<Named>): (r: Columns)
    ensures forall c :: c in r ==> r[c] < |exprs|
  {
    if exprs == [] then map[]
    else
      var n := |exprs| - 1;
      var rest, name := OutputColumns(exprs[..n]), OutputName(exprs[n]);
      if name.None? then rest else rest[name.value := n]
  }

  /** The relation a plan computes; `None` if some evaluation overflows. */
  ghost function Rel(ops: Operators, plan: Plan): Option<Relation>
  {
    match plan
    case Scan(table, alias) => ops.scan(table, alias)
    case EmptyRelation => Some(Relation(map[], []))
    case Join(kind, on, left, right) =>
      var l, r := Rel(ops, left), Rel(ops, right);
      if l.None? || r.None? then None else ops.join(kind, on, l.value, r.value)
    case _ =>
      var i := Rel(ops, plan.input);
      if i.None? then None else Apply(ops, plan, i.value)
  }

  /** The outermost operator of a one-input plan, applied to its input relation. */
  ghost function Apply(ops: Operators, plan: Plan, r: Relation): Option<Relation>
    requires !plan.Scan? && !plan.EmptyRelation? && !plan.Join?
  {
    match plan
    case Filter(p, _) =>
      var rows := Kept(r.cols, p, r.rows);
      if rows.None? then None else Some(r.(rows := rows.value))
    case Project(exprs, _) =>
      var rows := Projected(r.cols, exprs, r.rows);
      if rows.None? then None else Some(Relation(OutputColumns(exprs), rows.value))
    case Aggregation(groupBy, aggregates, _) => ops.aggregate(groupBy, aggregates, r)
    case Sort(keys, _) => ops.sort(keys, r)
    case Limit(limit, offset, _) => ops.limit(limit, offset, r)
    case Distinct(_) => ops.distinct(r)
  }

  // ----- the plans on which rewriting is sound -----------------------------------------

  /** No evaluation of the expression can overflow: negation only of a literal other than
      the least integer, division only by a literal other than -1. */
  predicate CannotOverflow(e: Expr)
  {
    match e
    case Unary(op, x) =>
      CannotOverflow(x) && (op.Neg? ==> x.LitReal? || (x.LitInt? && x.i != I64_MIN))
    case Binary(op, x, y) =>
      CannotOverflow(x) && CannotOverflow(y) && (op in {Div, Mod} ==> y.LitReal? || (y.LitInt? && y.i != -1))
    case IsNull(x, _) => CannotOverflow(x)
    case Between(x, lo, hi) => CannotOverflow(x) && CannotOverflow(lo) && CannotOverflow(hi)
    case InList(x, items) => CannotOverflow(x) && forall i :: 0 <= i < |items| ==> CannotOverflow(items[i])
    case _ => true
  }

  /** Every column the expression reads is among the given names. */
  predicate ReadsOnly(e: Expr, names: set<string>)
  {
    match e
    case Column(c) => c in names
    case Qualified(_, c) => c in names
    case Unary(_, x) => ReadsOnly(x, names)
    case Binary(_, x, y) => ReadsOnly(x, names) && ReadsOnly(y, names)
    case IsNull(x, _) => ReadsOnly(x, names)
    case Between(x, lo, hi) => ReadsOnly(x, names) && ReadsOnly(lo, names) && ReadsOnly(hi, names)
    case InList(x, items) => ReadsOnly(x, names) && forall i :: 0 <= i < |items| ==> ReadsOnly(items[i], names)
    case _ => true
  }

  /** The columns a projection hands on unchanged under their own name. */
  function PassedThrough(exprs: seq<Named>): set<string>
  {
    var cols := OutputColumns(exprs);
    set c | c in cols && (exprs[cols[c]].0 == Column(c) || (exprs[cols[c]].0.Qualified? && exprs[cols[c]].0.name == c))
  }

  /** Every projection that the filter can be pushed below hands on the columns it reads. */
  predicate Sinks(p: Expr, plan: Plan)
  {
    match plan
    case Filter(_, input) => Sinks(p, input)
    case Project(exprs, input) => ReadsOnly(p, PassedThrough(exprs)) && Sinks(p, input)
    case _ => true
  }

  /** A predicate fit for rewriting, given the columns known to be boolean. */
  predicate SafePredicate(p: Expr, bools: set<string>)
  {
    Boolean(p, bools) && FoldSafe(p, bools) && FoldConstants(p).Some?
  }

  /** What is below a stack of filters and projections. */
  function Base(plan: Plan): Plan
  {
    match plan
    case Filter(_, input) => Base(input)
    case Project(_, input) => Base(input)
    case _ => plan
  }

  ghost predicate DefinedOn(p: Expr, r: Relation)
  {
    forall i :: 0 <= i < |r.rows| ==> ValueOf(r.cols, p, r.rows[i]).Some?
  }

  /** The predicate has a value on every row of its input taken without the filters and
      projections it can sink through. */
  ghost predicate Evaluable(ops: Operators, p: Expr, plan: Plan)
  {
    Rel(ops, Base(plan)).Some? ==> DefinedOn(p, Rel(ops, Base(plan)).value)
  }

  /** Every filter of the plan has a safe predicate that sinks and is evaluable where it
      sinks to. */
  ghost predicate SafePlan(ops: Operators, plan: Plan, bools: set<string>)
  {
    match plan
    case Scan(_, _) => true
    case EmptyRelation => true
    case Join(_, _, left, right) => SafePlan(ops, left, bools) && SafePlan(ops, right, bools)
    case Filter(p, input) => SafePredicate(p, bools) && Sinks(p, input) && Evaluable(ops, p, input)
      && SafePlan(ops, input, bools)
    case _ => SafePlan(ops, plan.input, bools)
  }

  /** Folding the filters' predicates does not overflow. */
  predicate Folds(plan: Plan)
  {
    match plan
    case Scan(_, _) => true
    case EmptyRelation => true
    case Join(_, _, left, right) => Folds(left) && Folds(right)
    case Filter(p, input) => FoldConstants(p).Some? && Folds(input)
    case _ => Folds(plan.input)
  }

  ghost predicate RowsTyped(r: Relation, bools: set<string>)
  {
    forall i :: 0 <= i < |r.rows| ==> RowTyped(r.cols, r.rows[i], bools)
  }

  /** In every relation computed along the way the boolean columns hold booleans. */
  ghost predicate PlanTyped(ops: Operators, plan: Plan, bools: set<string>)
  {
    && (Rel(ops, plan).Some? ==> RowsTyped(Rel(ops, plan).value, bools))
    && match plan
       case Scan(_, _) => true
       case EmptyRelation => true
       case Join(_, _, left, right) => PlanTyped(ops, left, bools) && PlanTyped(ops, right, bools)
       case _ => PlanTyped(ops, plan.input, bools)
  }

  // ----- expressions -------------------------------------------------------------------

  lemma {:induction false} AlwaysHasValue(cols: Columns, e: Expr, row: Row)
    requires CannotOverflow(e)
    ensures ValueOf(cols, e, row).Some?
    decreases e, 0
  {
    match e
    case Unary(_, x) => AlwaysHasValue(cols, x, row);
    case Binary(op, x, y) =>
      AlwaysHasValue(cols, x, row);
      AlwaysHasValue(cols, y, row);
    case IsNull(x, _) => AlwaysHasValue(cols, x, row);
    case Between(x, lo, hi) =>
      AlwaysHasValue(cols, x, row);
      AlwaysHasValue(cols, lo, row);
      AlwaysHasValue(cols, hi, row);
    case InList(x, items) =>
      AlwaysHasValue(cols, x, row);
      AllHaveValues(cols, items, row);
    case _ =>
  }

  lemma {:induction false} AllHaveValues(cols: Columns, es: seq<Expr>, row: Row)
    requires forall i :: 0 <= i < |es| ==> CannotOverflow(es[i])
    ensures ValuesOf(cols, es, row).Some?
    decreases es, 1
  {
    if es != [] {
      AllHaveValues(cols, es[..|es| - 1], row);
      AlwaysHasValue(cols, es[|es| - 1], row);
    }
  }

  /** A predicate that negates and divides by literals only is evaluable anywhere. */
  lemma LiteralsSuffice(ops: Operators, p: Expr, plan: Plan)
    requires CannotOverflow(p)
    ensures Evaluable(ops, p, plan)
  {
    if Rel(ops, Base(plan)).Some? {
      var r := Rel(ops, Base(plan)).value;
      forall i | 0 <= i < |r.rows| ensures ValueOf(r.cols, p, r.rows[i]).Some? {
        AlwaysHasValue(r.cols, p, r.rows[i]);
      }
    }
  }

  /** Folding makes an expression read no more columns. */
  lemma {:induction false} FoldKeeps(e: Expr, names: set<string>)
    requires FoldConstants(e).Some? && ReadsOnly(e, names)
    ensures ReadsOnly(FoldConstants(e).value, names)
  {
    match e
    case Unary(_, x) => FoldKeeps(x, names);
    case Binary(op, x, y) =>
      FoldKeeps(x, names);
      FoldKeeps(y, names);
      FoldedReads(op, FoldConstants(x).value, FoldConstants(y).value, names);
      hide FoldBinary;
    case _ =>
  }

  lemma FoldedReads(op: BinOp, a: Expr, b: Expr, names: set<string>)
    requires FoldBinary(op, a, b).Some? && ReadsOnly(a, names) && ReadsOnly(b, names)
    ensures ReadsOnly(FoldBinary(op, a, b).value, names)
  {
    if a.LitInt? && b.LitInt? && !FoldInt(op, a.i, b.i).Kept? {
      hide Wrap, Quotient, Remainder, FoldLogic;
    } else {
      LogicReads(op, a, b, names);
      hide FoldInt, FoldLogic, ReadsOnly;
    }
  }

  lemma LogicReads(op: BinOp, a: Expr, b: Expr, names: set<string>)
    requires ReadsOnly(a, names) && ReadsOnly(b, names)
    ensures ReadsOnly(FoldLogic(op, a, b), names)
  {
    LogicGives(op, a, b);
    hide FoldLogic;
  }

  lemma LogicGives(op: BinOp, a: Expr, b: Expr)
    ensures var e := FoldLogic(op, a, b); e.LitBool? || e == a || e == b || e == Binary(op, a, b)
  {
  }

  /** Two rows that agree on the columns an expression reads give it the same value. */
  lemma {:induction false} SameValue(colsA: Columns, rowA: Row, colsB: Columns, rowB: Row, e: Expr, names: set<string>)
    requires ReadsOnly(e, names)
    requires forall c :: c in names ==> Cell(colsA, c, rowA) == Cell(colsB, c, rowB)
    ensures ValueOf(colsA, e, rowA) == ValueOf(colsB, e, rowB)
    decreases e, 0
  {
    match e
    case Unary(_, x) => SameValue(colsA, rowA, colsB, rowB, x, names);
    case Binary(_, x, y) =>
      SameValue(colsA, rowA, colsB, rowB, x, names);
      SameValue(colsA, rowA, colsB, rowB, y, names);
    case IsNull(x, _) => SameValue(colsA, rowA, colsB, rowB, x, names);
    case Between(x, lo, hi) =>
      SameValue(colsA, rowA, colsB, rowB, x, names);
      SameValue(colsA, rowA, colsB, rowB, lo, names);
      SameValue(colsA, rowA, colsB, rowB, hi, names);
    case InList(x, items) =>
      SameValue(colsA, rowA, colsB, rowB, x, names);
      SameValues(colsA, rowA, colsB, rowB, items, names);
    case _ =>
  }

  lemma {:induction false} SameValues(colsA: Columns, rowA: Row, colsB: Columns, rowB: Row, es: seq<Expr>,
          names: set<string>)
    requires forall i :: 0 <= i < |es| ==> ReadsOnly(es[i], names)
    requires forall c :: c in names ==> Cell(colsA, c, rowA) == Cell(colsB, c, rowB)
    ensures ValuesOf(colsA, es, rowA) == ValuesOf(colsB, es, rowB)
    decreases es, 1
  {
    if es != [] {
      SameValues(colsA, rowA, colsB, rowB, es[..|es| - 1], names);
      SameValue(colsA, rowA, colsB, rowB, es[|es| - 1], names);
    }
  }

  /** A predicate over passed-through columns has the same value before and after. */
  lemma ProjectedValue(cols: Columns, exprs: seq<Named>, p: Expr, row: Row)
    requires ReadsOnly(p, PassedThrough(exprs)) && Outputs(cols, exprs, row).Some?
    ensures ValueOf(OutputColumns(exprs), p, Outputs(cols, exprs, row).value) == ValueOf(cols, p, row)
  {
    SameValue(OutputColumns(exprs), Outputs(cols, exprs, row).value, cols, row, p, PassedThrough(exprs));
  }

  // ----- rows --------------------------------------------------------------------------

  ghost predicate Agree(cols: Columns, p: Expr, q: Expr, row: Row)
  {
    ValueOf(cols, p, row).Some? && ValueOf(cols, q, row).Some?
    && (ValueOf(cols, p, row).value == Bool(true) <==> ValueOf(cols, q, row).value == Bool(true))
  }

  /** Predicates true on the same rows keep the same rows. */
  lemma {:induction false} KeptAgree(cols: Columns, p: Expr, q: Expr, rows: seq<Row>)
    requires forall i :: 0 <= i < |rows| ==> Agree(cols, p, q, rows[i])
    ensures Kept(cols, p, rows).Some? && Kept(cols, p, rows) == Kept(cols, q, rows)
  {
    if rows != [] {
      assert Agree(cols, p, q, rows[|rows| - 1]);
      KeptAgree(cols, p, q, rows[..|rows| - 1]);
    }
  }

  lemma {:induction false} KeptAll(cols: Columns, p: Expr, rows: seq<Row>)
    requires forall i :: 0 <= i < |rows| ==> ValueOf(cols, p, rows[i]) == Some(Bool(true))
    ensures Kept(cols, p, rows) == Some(rows)
  {
    if rows != [] {
      KeptAll(cols, p, rows[..|rows| - 1]);
      assert rows == rows[..|rows| - 1] + [rows[|rows| - 1]];
    }
  }

  lemma {:induction false} KeptSubset(cols: Columns, p: Expr, rows: seq<Row>)
    requires Kept(cols, p, rows).Some?
    ensures forall r :: r in Kept(cols, p, rows).value ==> r in rows
  {
    if rows != [] {
      KeptSubset(cols, p, rows[..|rows| - 1]);
    }
  }

  /** A filter computes its rows exactly when its predicate has a value on all of them. */
  lemma {:induction false} KeptIffDefined(cols: Columns, p: Expr, rows: seq<Row>)
    ensures Kept(cols, p, rows).Some? <==> DefinedOn(p, Relation(cols, rows))
  {
    if rows != [] {
      var n := |rows| - 1;
      KeptIffDefined(cols, p, rows[..n]);
      var all, front := Relation(cols, rows), Relation(cols, rows[..n]);
      assert DefinedOn(p, all) <==> DefinedOn(p, front) && ValueOf(cols, p, rows[n]).Some? by {
        forall i | 0 <= i < n ensures front.rows[i] == all.rows[i] {
        }
      }
    }
  }

  lemma KeptSnoc(cols: Columns, p: Expr, rows: seq<Row>, row: Row)
    ensures Kept(cols, p, rows + [row]) ==
      var rest, v := Kept(cols, p, rows), ValueOf(cols, p, row);
      if rest.None? || v.None? then None
      else if v.value == Bool(true) then Some(rest.value + [row])
      else rest
  {
    assert (rows + [row])[..|rows|] == rows;
  }

  lemma ProjectedSnoc(cols: Columns, exprs: seq<Named>, rows: seq<Row>, row: Row)
    ensures Projected(cols, exprs, rows + [row]) ==
      var rest, out := Projected(cols, exprs, rows), Outputs(cols, exprs, row);
      if rest.None? || out.None? then None else Some(rest.value + [out.value])
  {
    assert (rows + [row])[..|rows|] == rows;
  }

  /** The conjunction is true on a row exactly when both predicates are, if and only if
      no integer operand makes it so. */
  lemma ConjunctionIsExact(v: Value, w: Value)
    ensures (ApplyBinary(And, v, w) == Some(Bool(true)) <==> v == Bool(true) && w == Bool(true))
            <==> !((v.Int? || w.Int?) && AsBool(v) == Some(true) && AsBool(w) == Some(true))
  {
  }

  lemma AndIsBoth(cols: Columns, p: Expr, q: Expr, row: Row, bools: set<string>)
    requires Boolean(p, bools) && Boolean(q, bools) && RowTyped(cols, row, bools)
    requires ValueOf(cols, p, row).Some? && ValueOf(cols, q, row).Some?
    ensures ValueOf(cols, Binary(And, p, q), row) == Some(Bool(true)) <==>
            ValueOf(cols, p, row) == Some(Bool(true)) && ValueOf(cols, q, row) == Some(Bool(true))
  {
    BooleanValue(cols, p, row, bools);
    BooleanValue(cols, q, row, bools);
    ConjunctionIsExact(ValueOf(cols, p, row).value, ValueOf(cols, q, row).value);
  }

  lemma AndDefined(cols: Columns, p: Expr, q: Expr, row: Row)
    ensures ValueOf(cols, Binary(And, p, q), row).Some? <==> ValueOf(cols, p, row).Some? && ValueOf(cols, q, row).Some?
  {
  }

  /** Where the lower filter computes its rows, the conjunction computes its own exactly when
      the upper predicate has a value on every row, also on those the lower one rejects; and
      then it keeps what the two filters keep. */
  lemma {:induction false} CollapseFilters(cols: Columns, p: Expr, q: Expr, rows: seq<Row>, bools: set<string>)
    requires Boolean(p, bools) && Boolean(q, bools) && Kept(cols, q, rows).Some?
    requires forall i :: 0 <= i < |rows| ==> RowTyped(cols, rows[i], bools)
    ensures Kept(cols, Binary(And, p, q), rows).Some? <==> Kept(cols, p, rows).Some?
    ensures Kept(cols, p, rows).Some? ==>
            Kept(cols, p, Kept(cols, q, rows).value) == Kept(cols, Binary(And, p, q), rows)
  {
    hide Boolean, ApplyBinary;
    if rows != [] {
      var n := |rows| - 1;
      CollapseFilters(cols, p, q, rows[..n], bools);
      KeptSnoc(cols, p, Kept(cols, q, rows[..n]).value, rows[n]);
      AndDefined(cols, p, q, rows[n]);
      if ValueOf(cols, p, rows[n]).Some? && ValueOf(cols, q, rows[n]).Some? {
        AndIsBoth(cols, p, q, rows[n], bools);
      }
    }
  }

  /** Filtering a projection's output is projecting the filtered input; the one has a result
      exactly when the other has. */
  lemma {:induction false} FilterBelowProject(cols: Columns, exprs: seq<Named>, p: Expr, rows: seq<Row>)
    requires ReadsOnly(p, PassedThrough(exprs)) && Projected(cols, exprs, rows).Some?
    ensures Kept(OutputColumns(exprs), p, Projected(cols, exprs, rows).value) ==
      if Kept(cols, p, rows).None? then None else Projected(cols, exprs, Kept(cols, p, rows).value)
    ensures Kept(cols, p, rows).Some? ==> Projected(cols, exprs, Kept(cols, p, rows).value).Some?
  {
    if rows != [] {
      var n := |rows| - 1;
      FilterBelowProject(cols, exprs, p, rows[..n]);
      ProjectedValue(cols, exprs, p, rows[n]);
      KeptSnoc(OutputColumns(exprs), p, Projected(cols, exprs, rows[..n]).value, Outputs(cols, exprs, rows[n]).value);
      if Kept(cols, p, rows[..n]).Some? {
        ProjectedSnoc(cols, exprs, Kept(cols, p, rows[..n]).value, rows[n]);
      }
    }
  }

  // ----- plans -------------------------------------------------------------------------

  /** What one rewriting step promises: the same relation over the same base, and a plan that
      is again safe, typed and passable for whatever sank through the old one. */
  ghost predicate Improves(ops: Operators, plan: Plan, next: Plan, bools: set<string>)
  {
    && Rel(ops, next) == Rel(ops, plan)
    && Rel(ops, Base(next)) == Rel(ops, Base(plan))
    && SafePlan(ops, next, bools)
    && PlanTyped(ops, next, bools)
    && forall p :: Sinks(p, plan) ==> Sinks(p, next)
  }

  lemma FoldKeepsSafe(p: Expr, bools: set<string>)
    requires SafePredicate(p, bools)
    ensures SafePredicate(FoldConstants(p).value, bools)
  {
    FoldStaysSafe(p, bools);
    FoldIdempotent(p);
  }

  lemma {:induction false} FoldSinks(p: Expr, plan: Plan)
    requires Sinks(p, plan) && FoldConstants(p).Some?
    ensures Sinks(FoldConstants(p).value, plan)
  {
    match plan
    case Filter(_, input) => FoldSinks(p, input);
    case Project(exprs, input) =>
      FoldKeeps(p, PassedThrough(exprs));
      FoldSinks(p, input);
    case _ =>
  }

  lemma {:induction false} AndSinks(p: Expr, q: Expr, plan: Plan)
    requires Sinks(p, plan) && Sinks(q, plan)
    ensures Sinks(Binary(And, p, q), plan)
  {
    match plan
    case Filter(_, input) => AndSinks(p, q, input);
    case Project(exprs, input) => AndSinks(p, q, input);
    case _ =>
  }

  lemma {:induction false} BaseTyped(ops: Operators, plan: Plan, bools: set<string>)
    requires PlanTyped(ops, plan, bools)
    ensures PlanTyped(ops, Base(plan), bools)
  {
    match plan
    case Filter(_, input) => BaseTyped(ops, input, bools);
    case Project(_, input) => BaseTyped(ops, input, bools);
    case _ =>
  }

  /** Folding keeps a predicate evaluable. */
  lemma FoldEvaluable(ops: Operators, p: Expr, plan: Plan, bools: set<string>)
    requires SafePredicate(p, bools) && PlanTyped(ops, plan, bools) && Evaluable(ops, p, plan)
    ensures Evaluable(ops, FoldConstants(p).value, plan)
  {
    BaseTyped(ops, plan, bools);
    if Rel(ops, Base(plan)).Some? {
      var r := Rel(ops, Base(plan)).value;
      forall i | 0 <= i < |r.rows| ensures ValueOf(r.cols, FoldConstants(p).value, r.rows[i]).Some? {
        FoldPreservesValue(r.cols, p, r.rows[i], bools);
      }
    }
  }

  /** Conjunctions of evaluable predicates are. */
  lemma AndEvaluable(ops: Operators, p: Expr, q: Expr, plan: Plan)
    requires Evaluable(ops, p, plan) && Evaluable(ops, q, plan)
    ensures Evaluable(ops, Binary(And, p, q), plan)
  {
    if Rel(ops, Base(plan)).Some? {
      var r := Rel(ops, Base(plan)).value;
      forall i | 0 <= i < |r.rows| ensures ValueOf(r.cols, Binary(And, p, q), r.rows[i]).Some? {
        assert ValueOf(r.cols, p, r.rows[i]).Some? && ValueOf(r.cols, q, r.rows[i]).Some?;
      }
    }
  }

  /** A predicate that sinks through a plan and has a value on every row of its base has one
      on every row of the plan. */
  lemma {:induction false} DefinedAbove(ops: Operators, p: Expr, plan: Plan)
    requires Evaluable(ops, p, plan) && Sinks(p, plan) && Rel(ops, plan).Some?
    ensures DefinedOn(p, Rel(ops, plan).value)
  {
    match plan
    case Filter(q, input) =>
      DefinedAbove(ops, p, input);
      var r := Rel(ops, input).value;
      KeptSubset(r.cols, q, r.rows);
      assert forall row :: row in r.rows ==> ValueOf(r.cols, p, row).Some?;
    case Project(exprs, input) =>
      DefinedAbove(ops, p, input);
      var r := Rel(ops, input).value;
      KeptIffDefined(r.cols, p, r.rows);
      FilterBelowProject(r.cols, exprs, p, r.rows);
      KeptIffDefined(OutputColumns(exprs), p, Projected(r.cols, exprs, r.rows).value);
    case _ =>
  }

  /** Folding a filter's predicate keeps its rows. */
  lemma FoldedFilter(ops: Operators, p: Expr, input: Plan, bools: set<string>)
    requires SafePredicate(p, bools) && Rel(ops, Filter(p, input)).Some?
    requires RowsTyped(Rel(ops, input).value, bools)
    ensures Rel(ops, Filter(FoldConstants(p).value, input)) == Rel(ops, Filter(p, input))
  {
    var r := Rel(ops, input).value;
    KeptIffDefined(r.cols, p, r.rows);
    assert DefinedOn(p, r) by { assert r == Relation(r.cols, r.rows); }
    forall i | 0 <= i < |r.rows| ensures Agree(r.cols, p, FoldConstants(p).value, r.rows[i]) {
      FoldPreservesValue(r.cols, p, r.rows[i], bools);
    }
    KeptAgree(r.cols, p, FoldConstants(p).value, r.rows);
  }

  lemma FilterTyped(ops: Operators, p: Expr, input: Plan, bools: set<string>)
    requires PlanTyped(ops, input, bools)
    ensures PlanTyped(ops, Filter(p, input), bools)
  {
    if Rel(ops, Filter(p, input)).Some? {
      var r := Rel(ops, input).value;
      KeptSubset(r.cols, p, r.rows);
      assert forall row :: row in r.rows ==> RowTyped(r.cols, row, bools);
    }
  }

  lemma DropTrue(ops: Operators, input: Plan)
    requires Rel(ops, input).Some?
    ensures Rel(ops, Filter(LitBool(true), input)) == Rel(ops, input)
  {
    var r := Rel(ops, input).value;
    KeptAll(r.cols, LitBool(true), r.rows);
  }

  lemma AndSafe(p: Expr, q: Expr, bools: set<string>)
    requires SafePredicate(p, bools) && SafePredicate(q, bools)
    ensures SafePredicate(Binary(And, p, q), bools)
  {
  }

  lemma CollapsedRel(ops: Operators, p: Expr, q: Expr, input: Plan, bools: set<string>)
    requires Boolean(p, bools) && Boolean(q, bools) && Sinks(p, input) && Evaluable(ops, p, input)
    requires PlanTyped(ops, input, bools) && Rel(ops, Filter(q, input)).Some?
    ensures Rel(ops, Filter(Binary(And, p, q), input)) == Rel(ops, Filter(p, Filter(q, input)))
    ensures Rel(ops, Filter(Binary(And, p, q), input)).Some?
  {
    var r := Rel(ops, input).value;
    DefinedAbove(ops, p, input);
    KeptIffDefined(r.cols, p, r.rows);
    assert r == Relation(r.cols, r.rows);
    CollapseFilters(r.cols, p, q, r.rows, bools);
  }

  lemma Collapse(ops: Operators, p: Expr, q: Expr, input: Plan, bools: set<string>)
    requires SafePredicate(p, bools) && SafePredicate(q, bools) && Sinks(p, input) && Sinks(q, input)
    requires Evaluable(ops, p, input) && Evaluable(ops, q, input)
    requires SafePlan(ops, input, bools) && PlanTyped(ops, input, bools) && Rel(ops, Filter(q, input)).Some?
    ensures FoldConstants(Binary(And, p, q)).Some?
    ensures Improves(ops, Filter(p, Filter(q, input)), Filter(FoldConstants(Binary(And, p, q)).value, input), bools)
  {
    var both := Binary(And, p, q);
    AndSafe(p, q, bools);
    CollapsedRel(ops, p, q, input, bools);
    FoldKeepsSafe(both, bools);
    FoldedFilter(ops, both, input, bools);
    AndSinks(p, q, input);
    FoldSinks(both, input);
    AndEvaluable(ops, p, q, input);
    FoldEvaluable(ops, both, input, bools);
    var folded := FoldConstants(both).value;
    FilterTyped(ops, folded, input, bools);
    StackSinks(p, q, input);
    hide *;
    OneFilter(ops, Filter(p, Filter(q, input)), folded, input, bools);
  }

  lemma StackSinks(p: Expr, q: Expr, input: Plan)
    ensures Base(Filter(p, Filter(q, input))) == Base(input)
    ensures forall r :: Sinks(r, Filter(p, Filter(q, input))) ==> Sinks(r, input)
  {
  }

  lemma OneFilter(ops: Operators, plan: Plan, p: Expr, input: Plan, bools: set<string>)
    requires Rel(ops, Filter(p, input)) == Rel(ops, plan) && Base(plan) == Base(input)
    requires SafePredicate(p, bools) && Sinks(p, input) && Evaluable(ops, p, input) && SafePlan(ops, input, bools)
    requires PlanTyped(ops, Filter(p, input), bools) && forall r :: Sinks(r, plan) ==> Sinks(r, input)
    ensures Improves(ops, plan, Filter(p, input), bools)
  {
    hide SafePredicate, Evaluable, Rel, PlanTyped;
  }

  lemma Push(ops: Operators, p: Expr, exprs: seq<Named>, input: Plan, bools: set<string>)
    requires SafePredicate(p, bools) && Sinks(p, Project(exprs, input)) && Evaluable(ops, p, input)
    requires SafePlan(ops, input, bools) && PlanTyped(ops, Project(exprs, input), bools)
             && Rel(ops, Filter(p, Project(exprs, input))).Some?
    ensures Improves(ops, Filter(p, Project(exprs, input)), Project(exprs, Filter(p, input)), bools)
  {
    var r := Rel(ops, input).value;
    FilterBelowProject(r.cols, exprs, p, r.rows);
    FilterTyped(ops, p, input, bools);
    FilterTyped(ops, p, Project(exprs, input), bools);
  }

  lemma RewriteFilterImproves(ops: Operators, p: Expr, input: Plan, bools: set<string>)
    requires SafePlan(ops, Filter(p, input), bools) && PlanTyped(ops, input, bools) && Rel(ops, Filter(p, input)).Some?
    ensures RewriteFilter(p, input).Some?
    ensures Improves(ops, Filter(p, input), RewriteFilter(p, input).value, bools)
  {
    FoldKeepsSafe(p, bools);
    var folded := FoldConstants(p).value;
    FoldSinks(p, input);
    FoldedFilter(ops, p, input, bools);
    FoldEvaluable(ops, p, input, bools);
    hide SafePredicate, Evaluable, RowsTyped;
    if folded == LitBool(true) {
      DropTrue(ops, input);
    } else if input.Filter? {
      SameBase(ops, folded, input);
      Collapse(ops, folded, input.cond, input.input, bools);
    } else if input.Project? {
      SameBase(ops, folded, input);
      Push(ops, folded, input.exprs, input.input, bools);
    } else {
      FilterTyped(ops, folded, input, bools);
    }
  }

  lemma SameBase(ops: Operators, p: Expr, plan: Plan)
    requires plan.Filter? || plan.Project?
    ensures Evaluable(ops, p, plan) <==> Evaluable(ops, p, plan.input)
  {
  }

  /** One pass keeps the relation, and everything a further pass relies on. */
  lemma {:induction false} RewriteImproves(ops: Operators, plan: Plan, bools: set<string>)
    requires SafePlan(ops, plan, bools) && PlanTyped(ops, plan, bools) && Rel(ops, plan).Some?
    ensures Rewrite(plan).Some?
    ensures Improves(ops, plan, Rewrite(plan).value, bools)
  {
    match plan
    case Scan(_, _) =>
    case EmptyRelation =>
    case Join(_, _, left, right) =>
      RewriteImproves(ops, left, bools);
      RewriteImproves(ops, right, bools);
    case Filter(p, input) =>
      RewriteImproves(ops, input, bools);
      var next := Rewrite(input).value;
      assert Rel(ops, Filter(p, next)) == Rel(ops, plan);
      RewriteFilterImproves(ops, p, next, bools);
    case _ =>
      RewriteImproves(ops, plan.input, bools);
      var next := WithInput(plan, Rewrite(plan.input).value);
      assert Rel(ops, next) == Rel(ops, plan);
  }

  /** The optimizer returns a plan for the same relation: same columns, same rows, same
      order, whatever the other operators do. */
  lemma {:induction false} OptimizePreserves(ops: Operators, plan: Plan, passes: nat, bools: set<string>)
    requires SafePlan(ops, plan, bools) && PlanTyped(ops, plan, bools) && Rel(ops, plan).Some?
    ensures Optimized(plan, passes).Some?
    ensures Rel(ops, Optimized(plan, passes).value) == Rel(ops, plan)
    decreases passes
  {
    if passes > 0 {
      RewriteImproves(ops, plan, bools);
      var next := Rewrite(plan).value;
      if next != plan {
        OptimizePreserves(ops, next, passes - 1, bools);
      }
    }
  }

  lemma RewriteFilterFolds(p: Expr, input: Plan)
    requires Folds(input)
    ensures RewriteFilter(p, input).Some? <==> FoldConstants(p).Some?
    ensures RewriteFilter(p, input).Some? ==> Folds(RewriteFilter(p, input).value)
  {
    if FoldConstants(p).Some? {
      FoldIdempotent(p);
      var folded := FoldConstants(p).value;
      if input.Filter? && folded != LitBool(true) {
        FoldIdempotent(Binary(And, folded, input.cond));
      }
    }
  }

  /** A pass goes through exactly when folding the filters' predicates does not overflow, and
      then so does the next. */
  lemma {:induction false} RewriteIffFolds(plan: Plan)
    ensures Rewrite(plan).Some? <==> Folds(plan)
    ensures Rewrite(plan).Some? ==> Folds(Rewrite(plan).value)
  {
    match plan
    case Scan(_, _) =>
    case EmptyRelation =>
    case Join(_, _, left, right) =>
      RewriteIffFolds(left);
      RewriteIffFolds(right);
    case Filter(p, input) =>
      RewriteIffFolds(input);
      if Rewrite(input).Some? {
        RewriteFilterFolds(p, Rewrite(input).value);
      }
    case _ => RewriteIffFolds(plan.input);
  }

  lemma {:induction false} OptimizesIffFolds(plan: Plan, passes: nat)
    requires passes > 0
    ensures Optimized(plan, passes).Some? <==> Folds(plan)
    decreases passes
  {
    RewriteIffFolds(plan);
    if passes > 1 && Folds(plan) && Rewrite(plan).value != plan {
      OptimizesIffFolds(Rewrite(plan).value, passes - 1);
    }
  }

  /** When the optimizer stops before the cap, one more pass would change nothing. */
  lemma {:induction false} StopsAtFixpoint(plan: Plan, passes: nat, more: nat)
    requires Optimized(plan, passes).Some?
             && Rewrite(Optimized(plan, passes).value) == Some(Optimized(plan, passes).value)
    ensures Optimized(plan, passes + more) == Optimized(plan, passes)
    decreases passes
  {
    if passes > 0 && Rewrite(plan).value != plan {
      StopsAtFixpoint(Rewrite(plan).value, passes - 1, more);
    }
  }

  // ----- where it is not sound -----------------------------------------------------------

  function OneTable(cols: Columns, rows: seq<Row>): Operators
  {
    Operators((_, _) => Some(Relation(cols, rows)), (_, _, _, _) => None, (_, _, _) => None, (_, _) => None,
      (_, _, _) => None, _ => None)
  }

  lemma OneRow(cols: Columns, p: Expr, exprs: seq<Named>, row: Row)
    ensures ValueOf(cols, p, row) == Some(Bool(true)) ==> Kept(cols, p, [row]) == Some([row])
    ensures ValueOf(cols, p, row).Some? && ValueOf(cols, p, row).value != Bool(true) ==>
            Kept(cols, p, [row]) == Some([])
    ensures Outputs(cols, exprs, row).Some? ==> Projected(cols, exprs, [row]) == Some([Outputs(cols, exprs, row).value])
  {
    var none: seq<Row> := [];
    KeptSnoc(cols, p, none, row);
    ProjectedSnoc(cols, exprs, none, row);
    assert none + [row] == [row];
    var kept: seq<Row> := [] + [row];
    assert kept == [row];
    if Outputs(cols, exprs, row).Some? {
      var out := Outputs(cols, exprs, row).value;
      assert none + [out] == [out];
    }
  }

  /** Rows of two columns; `SELECT b AS a` filtered on `a`. */
  function TwoColumns(): Operators { OneTable(map["a" := 0, "b" := 1], [[Bool(false), Bool(true)]]) }

  function AliasPlan(): Plan { Filter(Column("a"), Project([(Column("b"), Some("a"))], Scan("t", None))) }

  /** One boolean column; a filter on `a` below a filter on the integer 1. */
  function OneColumn(): Operators { OneTable(map["a" := 0], [[Bool(true)]]) }

  function IntegerPlan(): Plan { Filter(LitInt(1), Filter(Column("a"), Scan("t", None))) }

  ghost predicate Rows(ops: Operators, plan: Plan, n: nat)
  {
    Rel(ops, plan).Some? && |Rel(ops, plan).value.rows| == n
  }

  /** Filtering on an alias is not filtering on the column of that name below the
      projection: `SELECT b AS a` loses a row when `a` is filtered first. */
  lemma AliasCounterexample()
    ensures Rows(TwoColumns(), AliasPlan(), 1)
    ensures Optimized(AliasPlan(), MAX_PASSES).Some? && Rows(TwoColumns(), Optimized(AliasPlan(), MAX_PASSES).value, 0)
  {
    var cols: Columns := map["a" := 0, "b" := 1];
    var row: Row := [Bool(false), Bool(true)];
    var exprs: seq<Named> := [(Column("b"), Some("a"))];
    var plan := AliasPlan();
    assert plan.input.exprs == exprs;
    var pushed := Project(exprs, Filter(Column("a"), Scan("t", None)));
    assert Rewrite(plan) == Some(pushed) && Rewrite(pushed) == Some(pushed);
    assert Optimized(plan, 8) == Optimized(pushed, 7) == Some(pushed);
    var out: Row := [Bool(true)];
    AliasOutputs(cols, exprs, row);
    OneRow(cols, Column("a"), exprs, row);
    OneRow(OutputColumns(exprs), Column("a"), [], out);
    assert Cell(OutputColumns(exprs), "a", out) == Bool(true);
    assert Cell(cols, "a", row) == Bool(false);
    var scan := Scan("t", None);
    var ops := TwoColumns();
    assert Rel(ops, scan) == Some(Relation(cols, [row]));
    assert Rel(ops, Project(exprs, scan)) == Some(Relation(OutputColumns(exprs), [out]));
    assert Rel(ops, plan) == Some(Relation(OutputColumns(exprs), [out]));
    assert Rel(ops, Filter(Column("a"), scan)) == Some(Relation(cols, []));
    assert Projected(cols, exprs, []) == Some([]);
    assert Rel(ops, pushed) == Some(Relation(OutputColumns(exprs), []));
  }

  lemma AliasOutputs(cols: Columns, exprs: seq<Named>, row: Row)
    requires exprs == [(Column("b"), Some("a"))] && Cell(cols, "b", row) == Bool(true)
    ensures OutputColumns(exprs) == map["a" := 0] && Outputs(cols, exprs, row) == Some([Bool(true)])
  {
    var none := exprs[..|exprs| - 1];
    assert none == [] && OutputName(exprs[0]) == Some("a");
    assert OutputColumns(none) == map[] && Outputs(cols, none, row) == Some([]);
    assert ValueOf(cols, exprs[0].0, row) == Some(Bool(true));
    assert OutputColumns(exprs) == OutputColumns(none)["a" := 0];
    assert [] + [Bool(true)] == [Bool(true)];
  }

  // Which filters sink exactly.

  /** The projection hands on columns, under whatever names. */
  predicate PlainColumns(exprs: seq<Named>)
  {
    forall i :: 0 <= i < |exprs| ==> exprs[i].0.Column? || exprs[i].0.Qualified?
  }

  ghost predicate SameFiltered(cols: Columns, exprs: seq<Named>, p: Expr, rows: seq<Row>)
  {
    Projected(cols, exprs, rows).Some? && Kept(cols, p, rows).Some? ==>
      Kept(OutputColumns(exprs), p, Projected(cols, exprs, rows).value)
        == Projected(cols, exprs, Kept(cols, p, rows).value)
  }

  /** Filtering below the projection keeps the rows of every relation whatsoever. */
  ghost predicate SinksExactly(exprs: seq<Named>, p: Expr)
  {
    forall cols: Columns, rows: seq<Row> :: SameFiltered(cols, exprs, p, rows)
  }

  /** A single row: it is kept below the projection as it is above exactly when the predicate
      is true of the row's output exactly when it is true of the row. */
  lemma OneRowSinks(cols: Columns, exprs: seq<Named>, p: Expr, row: Row)
    requires Outputs(cols, exprs, row).Some? && ValueOf(cols, p, row).Some?
    requires ValueOf(OutputColumns(exprs), p, Outputs(cols, exprs, row).value).Some?
    ensures SameFiltered(cols, exprs, p, [row]) <==>
      (ValueOf(OutputColumns(exprs), p, Outputs(cols, exprs, row).value) == Some(Bool(true)) <==>
        ValueOf(cols, p, row) == Some(Bool(true)))
  {
    var out := Outputs(cols, exprs, row).value;
    OneRow(cols, p, exprs, row);
    OneRow(OutputColumns(exprs), p, [], out);
    assert Projected(cols, exprs, []) == Some([]);
  }

  lemma {:induction false} PlainOutputs(cols: Columns, exprs: seq<Named>, row: Row)
    requires PlainColumns(exprs)
    ensures Outputs(cols, exprs, row).Some?
  {
    if exprs != [] {
      var n := |exprs| - 1;
      assert exprs[n].0.Column? || exprs[n].0.Qualified?;
      PlainOutputs(cols, exprs[..n], row);
    }
  }

  /** A row of the columns `d` and `c`, on which `c` is true exactly when it is asked to be. */
  lemma Distinguish(exprs: seq<Named>, c: string)
    requires PlainColumns(exprs) && c !in PassedThrough(exprs)
    ensures !SinksExactly(exprs, Column(c))
  {
    hide Kept, Projected, SameFiltered;
    var outs := OutputColumns(exprs);
    var d := if c !in outs then c else exprs[outs[c]].0.name;
    var cols: Columns := if c !in outs then map[c := 0] else map[c := 0, d := 1];
    var row: Row := if c !in outs then [Bool(true)] else [Bool(false), Bool(true)];
    PlainOutputs(cols, exprs, row);
    var out := Outputs(cols, exprs, row).value;
    if c in outs {
      assert exprs[outs[c]].0.Column? || exprs[outs[c]].0.Qualified?;
      assert d != c;
      assert Cell(cols, d, row) == Bool(true) && Cell(cols, c, row) == Bool(false);
      assert ValueOf(cols, exprs[outs[c]].0, row) == Some(out[outs[c]]);
      assert Cell(outs, c, out) == Bool(true);
    } else {
      assert Cell(cols, c, row) == Bool(true) && Cell(outs, c, out) == Null;
    }
    OneRowSinks(cols, exprs, Column(c), row);
    assert !SameFiltered(cols, exprs, Column(c), [row]);
  }

  /** A filter on a column may be pushed below a projection of columns exactly when the
      projection hands that very column on under its own name. */
  lemma SinksIffPassedThrough(exprs: seq<Named>, c: string)
    requires PlainColumns(exprs)
    ensures SinksExactly(exprs, Column(c)) <==> c in PassedThrough(exprs)
  {
    if c in PassedThrough(exprs) {
      forall cols: Columns, rows: seq<Row> ensures SameFiltered(cols, exprs, Column(c), rows) {
        if Projected(cols, exprs, rows).Some? {
          FilterBelowProject(cols, exprs, Column(c), rows);
        }
      }
    } else {
      Distinguish(exprs, c);
    }
  }

  /** Collapsing filters lets an integer predicate through: `FILTER 1` over `FILTER a`
      keeps no row, their conjunction keeps the rows where `a` is true. */
  lemma IntegerPredicateCounterexample()
    ensures Rows(OneColumn(), IntegerPlan(), 0)
    ensures Optimized(IntegerPlan(), MAX_PASSES).Some?
            && Rows(OneColumn(), Optimized(IntegerPlan(), MAX_PASSES).value, 1)
  {
    var cols: Columns := map["a" := 0];
    var row: Row := [Bool(true)];
    var plan := IntegerPlan();
    var both := Binary(And, LitInt(1), Column("a"));
    var collapsed := Filter(both, Scan("t", None));
    assert Rewrite(plan) == Some(collapsed) && Rewrite(collapsed) == Some(collapsed);
    assert Optimized(plan, 8) == Optimized(collapsed, 7) == Some(collapsed);
    assert Cell(cols, "a", row) == Bool(true);
    OneRow(cols, Column("a"), [], row);
    OneRow(cols, LitInt(1), [], row);
    OneRow(cols, both, [], row);
    var scan := Scan("t", None);
    var ops := OneColumn();
    assert Rel(ops, scan) == Some(Relation(cols, [row]));
    assert Rel(ops, Filter(Column("a"), scan)) == Some(Relation(cols, [row]));
    assert Rel(ops, plan) == Some(Relation(cols, []));
    assert Rel(ops, collapsed) == Some(Relation(cols, [row]));
  }

  /** Two integer columns; `a` is -1 and `b` the least integer. */
  function LeastInteger(): Operators { OneTable(map["a" := 0, "b" := 1], [[Int(-1), Int(I64_MIN)]]) }

  function GuardedPlan(): Plan
  {
    Filter(Binary(Gt, Binary(Div, Column("b"), Column("a")), LitInt(0)),
      Filter(Binary(NotEq, Column("a"), LitInt(-1)), Scan("t", None)))
  }

  /** Collapsing filters evaluates the upper predicate on rows the lower one rejects: `b / a`
      guarded by `a <> -1` gives no row, while the collapsed plan overflows. */
  lemma OverflowCounterexample()
    ensures Rows(LeastInteger(), GuardedPlan(), 0)
    ensures Optimized(GuardedPlan(), MAX_PASSES).Some?
            && Rel(LeastInteger(), Optimized(GuardedPlan(), MAX_PASSES).value) == None
  {
    var cols: Columns := map["a" := 0, "b" := 1];
    var row: Row := [Int(-1), Int(I64_MIN)];
    var scan, ops := Scan("t", None), LeastInteger();
    var q, p := GuardedPlan().input.cond, GuardedPlan().cond;
    var collapsed := Filter(Binary(And, p, q), scan);
    GuardedRewrite();
    GuardValues(cols, row);
    hide ValueOf, Rewrite;
    OneRow(cols, q, [], row);
    AndDefined(cols, p, q, row);
    KeptSnoc(cols, Binary(And, p, q), [], row);
    assert [] + [row] == [row];
    assert Rel(ops, scan) == Some(Relation(cols, [row]));
    assert Rel(ops, Filter(q, scan)) == Some(Relation(cols, []));
    assert Kept(cols, p, []) == Some([]);
  }

  lemma GuardedRewrite()
    ensures var plan := GuardedPlan();
            Optimized(plan, MAX_PASSES) == Some(Filter(Binary(And, plan.cond, plan.input.cond), Scan("t", None)))
  {
    var plan := GuardedPlan();
    var p, q := plan.cond, plan.input.cond;
    var both, scan := Binary(And, p, q), Scan("t", None);
    var collapsed := Filter(both, scan);
    GuardsFold(p, q);
    hide FoldConstants;
    assert RewriteFilter(q, scan) == Some(Filter(q, scan)) && RewriteFilter(p, Filter(q, scan)) == Some(collapsed);
    assert Rewrite(Filter(q, scan)) == Some(Filter(q, scan));
    assert Rewrite(plan) == Some(collapsed) && Rewrite(collapsed) == Some(collapsed);
    hide Rewrite;
    assert Optimized(plan, 8) == Optimized(collapsed, 7) == Some(collapsed);
  }

  lemma GuardsFold(p: Expr, q: Expr)
    requires p == GuardedPlan().cond && q == GuardedPlan().input.cond
    ensures FoldConstants(p) == Some(p) && FoldConstants(q) == Some(q)
            && FoldConstants(Binary(And, p, q)) == Some(Binary(And, p, q))
  {
  }

  lemma GuardValues(cols: Columns, row: Row)
    requires Cell(cols, "a", row) == Int(-1) && Cell(cols, "b", row) == Int(I64_MIN)
    ensures ValueOf(cols, GuardedPlan().input.cond, row) == Some(Bool(false))
            && ValueOf(cols, GuardedPlan().cond, row) == None
  {
    var quotient := Binary(Div, Column("b"), Column("a"));
    assert ValueOf(cols, Column("a"), row) == Some(Int(-1)) && ValueOf(cols, Column("b"), row) == Some(Int(I64_MIN));
    assert ApplyBinary(Div, Int(I64_MIN), Int(-1)) == None;
    assert ValueOf(cols, quotient, row) == None;
    assert GuardedPlan().cond == Binary(Gt, quotient, LitInt(0));
  }
}
