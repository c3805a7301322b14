/** Constant folding and conjunct splitting (src/logical.rs, lines 226-316). */
module Logical {
  import opened Integers
  import opened Options
  import opened Values
  import opened Expressions

  datatype Folded = Kept | Result(e: Expr) | Overflow

  /** Lines 276-291. */
  function FoldInt(op: BinOp, x: I64, y: I64): Folded
  {
    match op
    case Add => Result(LitInt(Wrap(x + y)))
    case Sub => Result(LitInt(Wrap(x - y)))
    case Mul => Result(LitInt(Wrap(x * y)))
    case Div => if y == 0 then Kept else if x == I64_MIN
      && y == -1 then Overflow else Result(LitInt(Wrap(Quotient(x, y))))
    case Mod => if y == 0 then Kept else if x == I64_MIN
      && y == -1 then Overflow else Result(LitInt(Wrap(Remainder(x, y))))
    case Eq => Result(LitBool(x == y))
    case NotEq => Result(LitBool(x != y))
    case Lt => Result(LitBool(x < y))
    case LtEq => Result(LitBool(x <= y))
    case Gt => Result(LitBool(x > y))
    case GtEq => Result(LitBool(x >= y))
    case _ => Kept
  }

  /** Lines 252-270: literal AND/OR and the short-circuit identities. */
  function FoldLogic(op: BinOp, a: Expr, b: Expr): Expr
  {
    if a.LitBool? && b.LitBool? && op.And? then LitBool(a.b && b.b)
    else if a.LitBool? && b.LitBool? && op.Or? then LitBool(a.b || b.b)
    else if op.And? && (a == LitBool(false) || b == LitBool(false)) then LitBool(false)
    else if op.Or? && (a == LitBool(true) || b == LitBool(true)) then LitBool(true)
    else if op.And? && a == LitBool(true) then b
    else if op.And? && b == LitBool(true) then a
    else Binary(op, a, b)
  }

  /** Lines 247-271, on folded operands. */
  function FoldBinary(op: BinOp, a: Expr, b: Expr): Option<Expr>
  {
    var folded := if a.LitInt? && b.LitInt? then FoldInt(op, a.i, b.i) else Kept;
    match folded
    case Overflow => None
    case Result(e) => Some(e)
    case Kept => Some(FoldLogic(op, a, b))
  }

  function FoldUnary(op: UnaryOp, x: Expr): Option<Expr>
  {
    match (op, x)
    case (Neg, LitInt(i)) => if i == I64_MIN then None else Some(LitInt(-i))
    case (Neg, LitReal(r)) => Some(LitReal(-r))
    case (Not, LitBool(b)) => Some(LitBool(!b))
    case _ => Some(Unary(op, x))
  }

  /** Lines 227-274; `None` when folding itself overflows. */
  function FoldConstants(e: Expr): Option<Expr>
  {
    match e
    case Unary(op, x) =>
      var x' := FoldConstants(x);
      if x'.None? then None else FoldUnary(op, x'.value)
    case Binary(op, x, y) =>
      var x', y' := FoldConstants(x), FoldConstants(y);
      if x'.None? || y'.None? then None else FoldBinary(op, x'.value, y'.value)
    case _ => Some(e)
  }

  // ----- what folding leaves ---------------------------------------------------------------

  /** No operator is left that literals decide: no sign or NOT on a literal, no arithmetic or comparison
      of two integers but a division by zero, no AND with a truth value, no OR with true or of two truth
      values. */
  predicate Reduced(e: Expr)
  {
    match e
    case Unary(op, x) => Reduced(x) && !(op.Neg? && (x.LitInt? || x.LitReal?)) && !(op.Not? && x.LitBool?)
    case Binary(op, x, y) =>
      && Reduced(x) && Reduced(y)
      && (x.LitInt? && y.LitInt? ==> op.And? || op.Or? || (op in {Div, Mod} && y.i == 0))
      && (op.And? ==> !x.LitBool? && !y.LitBool?)
      && (op.Or? ==> x != LitBool(true) && y != LitBool(true) && !(x.LitBool? && y.LitBool?))
    case _ => true
  }

  /** Folding leaves none of them. */
  lemma {:induction false} FoldReduces(e: Expr)
    ensures FoldConstants(e).Some? ==> Reduced(FoldConstants(e).value)
  {
    match e
    case Unary(_, x) => FoldReduces(x);
    case Binary(_, x, y) =>
      FoldReduces(x);
      FoldReduces(y);
    case _ =>
  }

  // ----- when folding preserves the value ------------------------------------------

  predicate BoolOrNull(v: Value)
  {
    v.Bool? || v.Null?
  }

  /** The expression is boolean-typed, given the columns known to be boolean. */
  predicate Boolean(e: Expr, bools: set<string>)
  {
    match e
    case Column(c) => c in bools
    case Qualified(_, c) => c in bools
    case LitBool(_) => true
    case NullLit => true
    case IsNull(_, _) => true
    case Between(_, _, _) => true
    case InList(_, _) => true
    case Unary(op, _) => op.Not?
    case Binary(op, _, _) => op !in {Add, Sub, Mul, Div, Mod}
    case _ => false
  }

  /** The boolean columns hold booleans or nulls in this row. */
  ghost predicate RowTyped(cols: Columns, row: Row, bools: set<string>)
  {
    forall c :: c in bools ==> BoolOrNull(Cell(cols, c, row))
  }

  lemma BooleanValue(cols: Columns, e: Expr, row: Row, bools: set<string>)
    requires Boolean(e, bools) && RowTyped(cols, row, bools) && ValueOf(cols, e, row).Some?
    ensures BoolOrNull(ValueOf(cols, e, row).value)
  {
  }

  /** Where folding drops a `true` operand of AND, the other operand is boolean-typed. */
  predicate FoldSafe(e: Expr, bools: set<string>)
  {
    match e
    case Unary(_, x) => FoldSafe(x, bools)
    case Binary(op, x, y) =>
      && FoldSafe(x, bools) && FoldSafe(y, bools)
      && (op.And? && FoldConstants(x) == Some(LitBool(true)) ==> Boolean(y, bools))
      && (op.And? && FoldConstants(y) == Some(LitBool(true)) ==> Boolean(x, bools))
    case _ => true
  }

  /** `true AND v` is `v` exactly when `v` is a boolean or null. */
  lemma AndTrueIdentity(v: Value)
    ensures ApplyBinary(And, Bool(true), v) == Some(v) <==> BoolOrNull(v)
    ensures ApplyBinary(And, v, Bool(true)) == Some(v) <==> BoolOrNull(v)
  {
  }

  lemma FoldBinaryValue(cols: Columns, op: BinOp, a: Expr, b: Expr, row: Row)
    requires ValueOf(cols, Binary(op, a, b), row).Some?
    requires op.And? && a == LitBool(true) ==> BoolOrNull(ValueOf(cols, b, row).value)
    requires op.And? && b == LitBool(true) ==> BoolOrNull(ValueOf(cols, a, row).value)
    ensures FoldBinary(op, a, b).Some?
            && ValueOf(cols, FoldBinary(op, a, b).value, row) == ValueOf(cols, Binary(op, a, b), row)
  {
    if !(a.LitInt? && b.LitInt?) {
      FoldLogicValue(cols, op, a, b, row);
    }
  }

  lemma FoldUnaryValue(cols: Columns, op: UnaryOp, x: Expr, row: Row)
    requires ValueOf(cols, Unary(op, x), row).Some?
    ensures FoldUnary(op, x).Some? && ValueOf(cols, FoldUnary(op, x).value, row) == ValueOf(cols, Unary(op, x), row)
  {
  }

  lemma FoldLogicValue(cols: Columns, op: BinOp, a: Expr, b: Expr, row: Row)
    requires ValueOf(cols, Binary(op, a, b), row).Some?
    requires op.And? && a == LitBool(true) ==> BoolOrNull(ValueOf(cols, b, row).value)
    requires op.And? && b == LitBool(true) ==> BoolOrNull(ValueOf(cols, a, row).value)
    ensures ValueOf(cols, FoldLogic(op, a, b), row) == ValueOf(cols, Binary(op, a, b), row)
  {
    var v, w := ValueOf(cols, a, row), ValueOf(cols, b, row);
    if op.And? {
      AndTrueIdentity(v.value);
      AndTrueIdentity(w.value);
    }
  }

  /** Folding does not change the value of an expression on any row on which it has
      one, and folding such an expression does not overflow. */
  lemma {:induction false} FoldPreservesValue(cols: Columns, e: Expr, row: Row, bools: set<string>)
    requires FoldSafe(e, bools) && RowTyped(cols, row, bools) && ValueOf(cols, e, row).Some?
    ensures FoldConstants(e).Some? && ValueOf(cols, FoldConstants(e).value, row) == ValueOf(cols, e, row)
  {
    match e
    case Unary(op, x) =>
      FoldPreservesValue(cols, x, row, bools);
      FoldUnaryValue(cols, op, FoldConstants(x).value, row);
      hide FoldUnary, ApplyUnary;
    case Binary(op, x, y) =>
      hide ApplyBinary, ApplyUnary;
      FoldPreservesValue(cols, x, row, bools);
      FoldPreservesValue(cols, y, row, bools);
      if op.And? && FoldConstants(x) == Some(LitBool(true)) {
        BooleanValue(cols, y, row, bools);
      }
      if op.And? && FoldConstants(y) == Some(LitBool(true)) {
        BooleanValue(cols, x, row, bools);
      }
      FoldBinaryValue(cols, op, FoldConstants(x).value, FoldConstants(y).value, row);
      hide FoldBinary, FoldUnary;
    case _ =>
  }

  /** For an AND with a literally true left operand the condition is exact: folding
      keeps the value if and only if the right operand is boolean or null. */
  lemma DroppedTrueIsExact(cols: Columns, y: Expr, row: Row, bools: set<string>)
    requires FoldSafe(y, bools) && RowTyped(cols, row, bools) && ValueOf(cols, y, row).Some?
    ensures var e := Binary(And, LitBool(true), y);
            FoldConstants(e).Some? &&
            (ValueOf(cols, FoldConstants(e).value, row) == ValueOf(cols, e, row) <==>
              BoolOrNull(ValueOf(cols, y, row).value))
  {
    FoldPreservesValue(cols, y, row, bools);
    AndTrueIdentity(ValueOf(cols, y, row).value);
  }

  /** Folding `TRUE AND 5` changes its value. */
  lemma DroppedTrueCounterexample()
    ensures var e := Binary(And, LitBool(true), LitInt(5));
            FoldConstants(e).Some? && ValueOf(map[], e, []) == Some(Bool(true))
              && ValueOf(map[], FoldConstants(e).value, []) == Some(Int(5))
  {
  }

  lemma FoldBinaryIdempotent(op: BinOp, a: Expr, b: Expr)
    requires FoldConstants(a) == Some(a) && FoldConstants(b) == Some(b) && FoldBinary(op, a, b).Some?
    ensures FoldConstants(FoldBinary(op, a, b).value) == FoldBinary(op, a, b)
  {
    var folded := if a.LitInt? && b.LitInt? then FoldInt(op, a.i, b.i) else Kept;
    if folded.Kept? {
      var e := FoldLogic(op, a, b);
      if e == Binary(op, a, b) {
        assert FoldConstants(e) == FoldBinary(op, a, b);
      }
    }
  }

  /** Folding a second time changes nothing. */
  lemma {:induction false} FoldIdempotent(e: Expr)
    requires FoldConstants(e).Some?
    ensures FoldConstants(FoldConstants(e).value) == FoldConstants(e)
  {
    match e
    case Unary(op, x) =>
      FoldIdempotent(x);
    case Binary(op, x, y) =>
      FoldIdempotent(x);
      FoldIdempotent(y);
      FoldBinaryIdempotent(op, FoldConstants(x).value, FoldConstants(y).value);
      hide FoldBinary;
    case _ =>
  }

  lemma {:induction false} FoldStaysSafe(e: Expr, bools: set<string>)
    requires FoldSafe(e, bools) && FoldConstants(e).Some?
    ensures FoldSafe(FoldConstants(e).value, bools)
    ensures Boolean(e, bools) ==> Boolean(FoldConstants(e).value, bools)
  {
    match e
    case Unary(op, x) =>
      FoldStaysSafe(x, bools);
    case Binary(op, x, y) =>
      FoldStaysSafe(x, bools);
      FoldStaysSafe(y, bools);
      FoldIdempotent(x);
      FoldIdempotent(y);
    case _ =>
  }

  // ----- conjuncts --------------------------------------------------------------------

  /** Lines 294-307. */
  method SplitConjuncts(e: Expr) returns (out: seq<Expr>)
    ensures out == Conjuncts(e)
  {
    out := SplitInto(e, []);
  }

  method SplitInto(e: Expr, out0: seq<Expr>) returns (out: seq<Expr>)
    ensures out == out0 + Conjuncts(e)
  {
    if e.Binary? && e.bop.And? {
      out := SplitInto(e.left, out0);
      out := SplitInto(e.right, out);
    } else {
      out := out0 + [e];
    }
  }

  /** The operands of the top-level ANDs, left to right. */
  function Conjuncts(e: Expr): (r: seq<Expr>)
    ensures |r| > 0
  {
    if e.Binary? && e.bop.And? then Conjuncts(e.left) + Conjuncts(e.right) else [e]
  }

  /** Lines 310-316: a left-leaning AND chain. */
  method CombineConjuncts(conjuncts: seq<Expr>) returns (r: Option<Expr>)
    ensures r == if conjuncts == [] then None else Some(Chain(conjuncts))
  {
    if conjuncts == [] {
      return None;
    }
    var acc := conjuncts[0];
    assert conjuncts[..1] == [conjuncts[0]];
    var i := 1;
    while i < |conjuncts|
      invariant 1 <= i <= |conjuncts| && acc == Chain(conjuncts[..i])
    {
      assert conjuncts[..i + 1][..i] == conjuncts[..i];
      acc := Binary(And, acc, conjuncts[i]);
      i := i + 1;
    }
    assert conjuncts[..i] == conjuncts;
    r := Some(acc);
  }

  function Chain(es: seq<Expr>): Expr
    requires |es| > 0
  {
    if |es| == 1 then es[0] else Binary(And, Chain(es[..|es| - 1]), es[|es| - 1])
  }

  /** Conjunction of listed values, as one n-ary three-valued AND. */
  ghost function AndAll(cols: Columns, es: seq<Expr>, row: Row): Option<Value>
    requires |es| > 0
  {
    var last := ValueOf(cols, es[|es| - 1], row);
    if |es| == 1 then (if last.None? then None else Some(And3(Some(true), AsBool(last.value))))
    else
      var v := AndAll(cols, es[..|es| - 1], row);
      if v.None? || last.None? then None else ApplyBinary(And, v.value, last.value)
  }

  lemma And3Assoc(a: Value, b: Value, c: Value)
    ensures And3(AsBool(And3(AsBool(a), AsBool(b))), AsBool(c)) == And3(AsBool(a), AsBool(And3(AsBool(b), AsBool(c))))
    ensures AsBool(And3(Some(true), AsBool(a))) == AsBool(a)
  {
  }

  lemma {:induction false} AndAllAppend(cols: Columns, a: seq<Expr>, b: seq<Expr>, row: Row)
    requires |a| > 0 && |b| > 0
    ensures AndAll(cols, a + b, row) ==
      var v, w := AndAll(cols, a, row), AndAll(cols, b, row);
      if v.None? || w.None? then None else ApplyBinary(And, v.value, w.value)
    decreases |b|
  {
    assert (a + b)[..|a + b| - 1] == a + b[..|b| - 1];
    var v := AndAll(cols, a, row);
    var last := ValueOf(cols, b[|b| - 1], row);
    if |b| == 1 {
      assert (a + b)[..|a|] == a;
    } else {
      var rest := b[..|b| - 1];
      AndAllAppend(cols, a, rest, row);
      var w := AndAll(cols, rest, row);
      if v.Some? && w.Some? && last.Some? {
        And3Assoc(v.value, w.value, last.value);
      }
    }
  }

  /** An AND tree has the value of the conjunction of its leaves. */
  lemma {:induction false} ConjunctsValue(cols: Columns, e: Expr, row: Row)
    requires e.Binary? && e.bop.And?
    ensures ValueOf(cols, e, row) == AndAll(cols, Conjuncts(e), row)
    decreases e, 0
  {
    AndAllAppend(cols, Conjuncts(e.left), Conjuncts(e.right), row);
    ConjunctsAsBool(cols, e.left, row);
    ConjunctsAsBool(cols, e.right, row);
  }

  lemma {:induction false} ConjunctsAsBool(cols: Columns, e: Expr, row: Row)
    ensures var v, w := ValueOf(cols, e, row), AndAll(cols, Conjuncts(e), row);
            (v.None? <==> w.None?) && (v.Some? ==> AsBool(v.value) == AsBool(w.value))
    decreases e, 1
  {
    if e.Binary? && e.bop.And? {
      ConjunctsValue(cols, e, row);
    }
  }

  lemma {:induction false} ChainValue(cols: Columns, es: seq<Expr>, row: Row)
    requires |es| > 0
    ensures var v, w := ValueOf(cols, Chain(es), row), AndAll(cols, es, row);
            (v.None? <==> w.None?) && (v.Some? ==> AsBool(v.value) == AsBool(w.value)) && (|es| > 1 ==> v == w)
  {
    if |es| > 1 {
      ChainValue(cols, es[..|es| - 1], row);
    }
  }

  /** Splitting a predicate and combining the parts again gives an expression with
      the same value on every row, nulls and overflows included. */
  lemma CombineAfterSplit(cols: Columns, e: Expr, row: Row)
    ensures ValueOf(cols, Chain(Conjuncts(e)), row) == ValueOf(cols, e, row)
  {
    if e.Binary? && e.bop.And? {
      ConjunctsValue(cols, e, row);
      ChainValue(cols, Conjuncts(e), row);
    }
  }

  /** No conjunct is itself an AND. */
  lemma {:induction false} ConjunctsAreAtoms(e: Expr)
    ensures forall c :: c in Conjuncts(e) ==> !(c.Binary? && c.bop.And?)
  {
    if e.Binary? && e.bop.And? {
      ConjunctsAreAtoms(e.left);
      ConjunctsAreAtoms(e.right);
    }
  }

  /** Splitting a combined list of atoms gives the list back. */
  lemma {:induction false} SplitAfterCombine(es: seq<Expr>)
    requires |es| > 0 && forall c :: c in es ==> !(c.Binary? && c.bop.And?)
    ensures Conjuncts(Chain(es)) == es
  {
    if |es| > 1 {
      SplitAfterCombine(es[..|es| - 1]);
      assert es == es[..|es| - 1] + [es[|es| - 1]];
    }
  }
}
