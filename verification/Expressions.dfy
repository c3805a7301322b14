/** Scalar expressions (src/sql.rs, lines 363-404) and their meaning under SQL's
    three-valued logic, as the evaluator computes it (src/exprvm.rs, lines 212-296).

    `None` stands for an arithmetic overflow, on which the program stops. */
module Expressions {
  import opened Doubles
  import opened Integers
  import opened Options
  import opened Values

  datatype UnaryOp = Neg | Not

  datatype BinOp = Add | Sub | Mul | Div | Mod | Eq | NotEq | Lt | LtEq | Gt | GtEq | And | Or

  datatype Expr =
    | Column(name: string)
    | Qualified(table: string, name: string)
    | LitInt(i: I64)
    | LitReal(r: real)
    | LitStr(s: string)
    | LitBool(b: bool)
    | NullLit
    | Star
    | Unary(uop: UnaryOp, inner: Expr)
    | Binary(bop: BinOp, left: Expr, right: Expr)
    | IsNull(inner: Expr, negated: bool)
    | Like(text: Expr, pattern: Expr)
    | Between(probe: Expr, lo: Expr, hi: Expr)
    | InList(probe: Expr, items: seq<Expr>)
    | Aggregate(func: string, distinct: bool, arg: Expr)

  // ----- operators ---------------------------------------------------------------

  /** Integer division truncating toward zero. */
  function Quotient(x: int, y: int): int
    requires y != 0
  {
    if (x >= 0) == (y >= 0) then Abs(x) / Abs(y) else -(Abs(x) / Abs(y))
  }

  /** The remainder with the sign of the dividend. */
  function Remainder(x: int, y: int): int
    requires y != 0
  {
    x - y * Quotient(x, y)
  }

  function Abs(x: int): nat { if x < 0 then -x else x }

  function Truncate(x: real): int
  {
    if x >= 0.0 then x.Floor else -((-x).Floor)
  }

  /** Lines 290-296. */
  function AsBool(v: Value): Option<bool>
  {
    match v
    case Bool(b) => Some(b)
    case Int(i) => Some(i != 0)
    case _ => None
  }

  function AsReal(v: Value): Option<real>
  {
    match v
    case Real(r) => Some(r)
    case Int(i) => Some(ToDouble(i))
    case Bool(b) => Some(if b then 1.0 else 0.0)
    case _ => None
  }

  /** Lines 212-228. Negating the least integer overflows. */
  function ApplyUnary(op: UnaryOp, v: Value): Option<Value>
  {
    match (op, v)
    case (Neg, Int(i)) => if i == I64_MIN then None else Some(Int(-i))
    case (Neg, Real(r)) => Some(Real(-r))
    case (Not, Bool(b)) => Some(Bool(!b))
    case (Not, Int(i)) => Some(Bool(i == 0))
    case _ => Some(Null)
  }

  /** Lines 265-288. Dividing the least integer by -1 overflows. */
  function Arith(op: BinOp, a: Value, b: Value): Option<Value>
  {
    if a.Int? && b.Int? then ArithInt(op, a.i, b.i)
    else
      var x, y := AsReal(a), AsReal(b);
      if x.None? || y.None? then Some(Null) else Some(ArithReal(op, x.value, y.value))
  }

  function ArithInt(op: BinOp, x: I64, y: I64): Option<Value>
  {
    match op
    case Add => Some(Int(Wrap(x + y)))
    case Sub => Some(Int(Wrap(x - y)))
    case Mul => Some(Int(Wrap(x * y)))
    case Div => if y == 0 then Some(Null) else if x == I64_MIN && y == -1 then None else Some(Int(Wrap(Quotient(x, y))))
    case Mod => if y == 0 then Some(Null) else if x == I64_MIN
      && y == -1 then None else Some(Int(Wrap(Remainder(x, y))))
    case _ => Some(Null)
  }

  function ArithReal(op: BinOp, x: real, y: real): Value
  {
    match op
    case Add => Real(x + y)
    case Sub => Real(x - y)
    case Mul => Real(x * y)
    case Div => if y == 0.0 then Null else Real(x / y)
    case Mod => if y == 0.0 then Null else Real(x - y * (Truncate(x / y) as real))
    case _ => Null
  }

  /** Lines 235-240: false wins, then unknown. */
  function And3(a: Option<bool>, b: Option<bool>): Value
  {
    if a == Some(false) || b == Some(false) then Bool(false)
    else if a == Some(true) && b == Some(true) then Bool(true)
    else Null
  }

  /** Lines 242-247: true wins, then unknown. */
  function Or3(a: Option<bool>, b: Option<bool>): Value
  {
    if a == Some(true) || b == Some(true) then Bool(true)
    else if a == Some(false) && b == Some(false) then Bool(false)
    else Null
  }

  /** Lines 230-263. */
  function ApplyBinary(op: BinOp, a: Value, b: Value): Option<Value>
  {
    if op.And? then Some(And3(AsBool(a), AsBool(b)))
    else if op.Or? then Some(Or3(AsBool(a), AsBool(b)))
    else if a.Null? || b.Null? then Some(Null)
    else
      match op
      case Eq => Some(Bool(TotalCmp(a, b).Equal?))
      case NotEq => Some(Bool(!TotalCmp(a, b).Equal?))
      case Lt => Some(Bool(TotalCmp(a, b).Less?))
      case LtEq => Some(Bool(!TotalCmp(a, b).Greater?))
      case Gt => Some(Bool(TotalCmp(a, b).Greater?))
      case GtEq => Some(Bool(!TotalCmp(a, b).Less?))
      case _ => Arith(op, a, b)
  }

  /** Lines 166-175. */
  function InRange(v: Value, lo: Value, hi: Value): Value
  {
    if v.Null? || lo.Null? || hi.Null? then Null
    else Bool(!TotalCmp(v, lo).Less? && !TotalCmp(v, hi).Greater?)
  }

  /** SQL membership: true if some listed value matches, otherwise unknown if a null
      is listed, otherwise false; unknown for a null probe. */
  ghost function Member(probe: Value, items: seq<Value>): Value
  {
    if probe.Null? then Null
    else if exists i :: 0 <= i < |items| && !items[i].Null? && TotalCmp(probe, items[i]).Equal? then Bool(true)
    else if Null in items then Null
    else Bool(false)
  }

  // ----- the value of an expression ------------------------------------------------

  type Row = seq<Value>

  type Columns = map<string, nat>

  /** A column's cell; a column outside the row reads as null. */
  function Cell(cols: Columns, name: string, row: Row): Value
  {
    if name in cols && cols[name] < |row| then row[cols[name]] else Null
  }

  /** The value of an expression on a row, operands first; `None` on overflow. */
  ghost function ValueOf(cols: Columns, e: Expr, row: Row): Option<Value>
  {
    match e
    case Column(c) => Some(Cell(cols, c, row))
    case Qualified(_, c) => Some(Cell(cols, c, row))
    case LitInt(i) => Some(Int(i))
    case LitReal(r) => Some(Real(r))
    case LitBool(b) => Some(Bool(b))
    case NullLit => Some(Null)
    case Unary(op, x) =>
      var v := ValueOf(cols, x, row);
      if v.None? then None else ApplyUnary(op, v.value)
    case Binary(op, x, y) =>
      var v, w := ValueOf(cols, x, row), ValueOf(cols, y, row);
      if v.None? || w.None? then None else ApplyBinary(op, v.value, w.value)
    case IsNull(x, negated) =>
      var v := ValueOf(cols, x, row);
      if v.None? then None else Some(Bool(v.value.Null? != negated))
    case Between(x, lo, hi) =>
      var v, l, h := ValueOf(cols, x, row), ValueOf(cols, lo, row), ValueOf(cols, hi, row);
      if v.None? || l.None? || h.None? then None else Some(InRange(v.value, l.value, h.value))
    case InList(x, items) =>
      var v, vs := ValueOf(cols, x, row), ValuesOf(cols, items, row);
      if v.None? || vs.None? then None else Some(Member(v.value, vs.value))
    case _ => Some(Null)
  }

  ghost function ValuesOf(cols: Columns, es: seq<Expr>, row: Row): (r: Option<seq<Value>>)
    ensures r.Some? ==> |r.value| == |es|
  {
    if es == [] then Some([])
    else
      var vs, v := ValuesOf(cols, es[..|es| - 1], row), ValueOf(cols, es[|es| - 1], row);
      if vs.None? || v.None? then None else Some(vs.value + [v.value])
  }
}
