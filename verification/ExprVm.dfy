/** The bytecode compiler and stack machine for expressions (src/exprvm.rs). */
module ExprVm {
  import opened Options
  import opened Values
  import opened Expressions

  datatype Op =
    | PushConst(v: Value)
    | PushColumn(n: nat)
    | BinaryOp(bop: BinOp)
    | UnaryOp(uop: Expressions.UnaryOp)
    | NullTest(negated: bool)
    | RangeTest
    | MemberTest(n: nat)

  datatype CompileError = UnknownColumn(name: string) | Unsupported(what: string)

  // ----- the machine -------------------------------------------------------------

  /** Popping an empty stack yields null. */
  function Top(stack: seq<Value>): Value
  {
    if stack == [] then Null else stack[|stack| - 1]
  }

  function Rest(stack: seq<Value>): seq<Value>
  {
    if stack == [] then [] else stack[..|stack| - 1]
  }

  /** The top `n` values, last pushed first. */
  function Popped(stack: seq<Value>, n: nat): (vs: seq<Value>)
    ensures |vs| == n
  {
    if n == 0 then [] else [Top(stack)] + Popped(Rest(stack), n - 1)
  }

  function Dropped(stack: seq<Value>, n: nat): seq<Value>
  {
    if n == 0 then stack else Dropped(Rest(stack), n - 1)
  }

  /** One instruction (lines 150-207); `None` on overflow. */
  ghost function Step(op: Op, stack: seq<Value>, row: Row): Option<seq<Value>>
  {
    match op
    case PushConst(v) => Some(stack + [v])
    case PushColumn(n) => Some(stack + [if n < |row| then row[n] else Null])
    case UnaryOp(uop) =>
      var r := ApplyUnary(uop, Top(stack));
      if r.None? then None else Some(Rest(stack) + [r.value])
    case BinaryOp(bop) =>
      var r := ApplyBinary(bop, Top(Rest(stack)), Top(stack));
      if r.None? then None else Some(Rest(Rest(stack)) + [r.value])
    case NullTest(negated) => Some(Rest(stack) + [Bool(Top(stack).Null? != negated)])
    case RangeTest =>
      Some(Rest(Rest(Rest(stack))) + [InRange(Top(Rest(Rest(stack))), Top(Rest(stack)), Top(stack))])
    case MemberTest(n) =>
      var below := Dropped(stack, n);
      Some(Rest(below) + [Member(Top(below), Popped(stack, n))])
  }

  ghost function Run(ops: seq<Op>, stack: seq<Value>, row: Row): Option<seq<Value>>
  {
    if ops == [] then Some(stack)
    else
      var s := Run(ops[..|ops| - 1], stack, row);
      if s.None? then None else Step(ops[|ops| - 1], s.value, row)
  }

  lemma {:induction false} RunAppend(a: seq<Op>, b: seq<Op>, stack: seq<Value>, row: Row)
    ensures Run(a + b, stack, row) ==
      var s := Run(a, stack, row); if s.None? then None else Run(b, s.value, row)
  {
    if b == [] {
      assert a + b == a;
    } else {
      assert (a + b)[..|a + b| - 1] == a + b[..|b| - 1];
      RunAppend(a, b[..|b| - 1], stack, row);
    }
  }

  /** Lines 184-206: scan the listed values until a match; the order does not matter. */
  method FindMember(probe: Value, items: seq<Value>) returns (r: Value)
    ensures r == Member(probe, items)
  {
    if probe.Null? {
      return Null;
    }
    var found, sawNull := false, false;
    var i := 0;
    while i < |items|
      invariant i <= |items| && !found
      invariant forall k :: 0 <= k < i ==> items[k].Null? || !TotalCmp(probe, items[k]).Equal?
      invariant sawNull <==> Null in items[..i]
    {
      if items[i].Null? {
        sawNull := true;
      } else if TotalCmp(probe, items[i]).Equal? {
        found := true;
        break;
      }
      i := i + 1;
    }
    if found {
      return Bool(true);
    }
    assert items[..i] == items;
    r := if sawNull then Null else Bool(false);
  }

  /** Lines 147-210. `None` on overflow, otherwise what is on top of the stack. */
  method Eval(program: seq<Op>, row: Row) returns (r: Option<Value>)
    ensures r == var s := Run(program, [], row); if s.None? then None else Some(Top(s.value))
  {
    hide ApplyUnary, ApplyBinary, InRange, Member, TotalCmp, Popped, Dropped;
    var stack: seq<Value> := [];
    var pc := 0;
    while pc < |program|
      invariant pc <= |program| && Run(program[..pc], [], row) == Some(stack)
      decreases |program| - pc
    {
      var op := program[pc];
      assert program[..pc + 1][..pc] == program[..pc];
      match op {
      case PushConst(v) =>
        stack := stack + [v];
      case PushColumn(n) =>
        stack := stack + [if n < |row| then row[n] else Null];
      case UnaryOp(uop) =>
        var v := ApplyUnary(uop, Top(stack));
        if v.None? {
          RunStops(program, pc, row);
          return None;
        }
        stack := Rest(stack) + [v.value];
      case BinaryOp(bop) =>
        var v := ApplyBinary(bop, Top(Rest(stack)), Top(stack));
        if v.None? {
          RunStops(program, pc, row);
          return None;
        }
        stack := Rest(Rest(stack)) + [v.value];
      case NullTest(negated) =>
        stack := Rest(stack) + [Bool(Top(stack).Null? != negated)];
      case RangeTest =>
        stack := Rest(Rest(Rest(stack))) + [InRange(Top(Rest(Rest(stack))), Top(Rest(stack)), Top(stack))];
      case MemberTest(n) =>
        var items, below := PopItems(stack, n);
        var member := FindMember(Top(below), items);
        stack := Rest(below) + [member];
      }
      pc := pc + 1;
    }
    assert program[..pc] == program;
    r := Some(Top(stack));
  }

  /** Lines 179-182. */
  method PopItems(stack: seq<Value>, n: nat) returns (items: seq<Value>, below: seq<Value>)
    ensures items == Popped(stack, n) && below == Dropped(stack, n)
  {
    items, below := [], stack;
    for i := 0 to n
      invariant items + Popped(below, n - i) == Popped(stack, n) && Dropped(below, n - i) == Dropped(stack, n)
    {
      assert items + ([Top(below)] + Popped(Rest(below), n - i - 1))
        == (items + [Top(below)]) + Popped(Rest(below), n - i - 1);
      items, below := items + [Top(below)], Rest(below);
    }
  }

  /** An overflow stops the whole program. */
  lemma {:induction false} RunStops(program: seq<Op>, pc: nat, row: Row)
    requires pc < |program| && Run(program[..pc + 1], [], row).None?
    ensures Run(program, [], row).None?
  {
    hide Run;
    RunAppend(program[..pc + 1], program[pc + 1..], [], row);
    assert program == program[..pc + 1] + program[pc + 1..];
  }

  // ----- the compiler ---------------------------------------------------------------

  class Program {
    var ops: seq<Op>

    constructor ()
      ensures ops == []
    {
      ops := [];
    }
  }

  /** Why the compiler refuses an expression: the first offending part in emission
      order, if any. */
  ghost function Refusal(cols: Columns, e: Expr): Option<CompileError>
  {
    match e
    case Column(c) => if c in cols then None else Some(UnknownColumn(c))
    case Qualified(_, c) => if c in cols then None else Some(UnknownColumn(c))
    case LitStr(_) => Some(Unsupported("string literal without dictionary"))
    case Like(_, _) => Some(Unsupported("LIKE"))
    case Aggregate(_, _, _) => Some(Unsupported("aggregate"))
    case Star => Some(Unsupported("*"))
    case Unary(_, x) => Refusal(cols, x)
    case IsNull(x, _) => Refusal(cols, x)
    case Binary(_, x, y) => First(Refusal(cols, x), Refusal(cols, y))
    case Between(x, lo, hi) => First(Refusal(cols, x), First(Refusal(cols, lo), Refusal(cols, hi)))
    case InList(x, items) => First(Refusal(cols, x), RefusalIn(cols, items))
    case _ => None
  }

  ghost function RefusalIn(cols: Columns, es: seq<Expr>): Option<CompileError>
  {
    if es == [] then None else First(RefusalIn(cols, es[..|es| - 1]), Refusal(cols, es[|es| - 1]))
  }

  function First(a: Option<CompileError>, b: Option<CompileError>): Option<CompileError>
  {
    if a.Some? then a else b
  }

  /** Running `ops` on any stack and row pushes exactly the value of `e`, and
      overflows exactly when `e` does. */
  ghost predicate Computes(cols: Columns, ops: seq<Op>, e: Expr)
  {
    forall stack, row {:trigger Run(ops, stack, row)} ::
      Run(ops, stack, row) == var v := ValueOf(cols, e, row); if v.None? then None else Some(stack + [v.value])
  }

  ghost predicate ComputesAll(cols: Columns, ops: seq<Op>, es: seq<Expr>)
  {
    forall stack, row {:trigger Run(ops, stack, row)} ::
      Run(ops, stack, row) == var vs := ValuesOf(cols, es, row); if vs.None? then None else Some(stack + vs.value)
  }

  lemma RunOne(op: Op, stack: seq<Value>, row: Row)
    ensures Run([op], stack, row) == Step(op, stack, row)
  {
    assert [op][..0] == [];
  }

  lemma PopPush(stack: seq<Value>, v: Value)
    ensures Top(stack + [v]) == v && Rest(stack + [v]) == stack
  {
  }

  lemma ComputesLeaf(cols: Columns, e: Expr, op: Op)
    requires match op
      case PushConst(v) => forall row :: ValueOf(cols, e, row) == Some(v)
      case PushColumn(n) => forall row :: ValueOf(cols, e, row) == Some(if n < |row| then row[n] else Null)
      case _ => false
    ensures Computes(cols, [op], e)
  {
    hide Run;
    forall stack, row
      ensures Run([op], stack, row) == var v := ValueOf(cols, e, row); if v.None? then None else Some(stack + [v.value])
    {
      RunOne(op, stack, row);
    }
  }

  lemma ComputesUnary(cols: Columns, a: seq<Op>, x: Expr, op: Op, e: Expr)
    requires Computes(cols, a, x)
    requires (op.UnaryOp? && e == Unary(op.uop, x)) || (op.NullTest? && e == IsNull(x, op.negated))
    ensures Computes(cols, a + [op], e)
  {
    hide Run;
    forall stack, row
      ensures Run(a + [op], stack, row)
              == var v := ValueOf(cols, e, row); if v.None? then None else Some(stack + [v.value])
    {
      RunAppend(a, [op], stack, row);
      var v := ValueOf(cols, x, row);
      if v.Some? {
        RunOne(op, stack + [v.value], row);
        PopPush(stack, v.value);
      }
    }
  }

  lemma ComputesBinary(cols: Columns, a: seq<Op>, b: seq<Op>, bop: BinOp, x: Expr, y: Expr)
    requires Computes(cols, a, x) && Computes(cols, b, y)
    ensures Computes(cols, a + b + [BinaryOp(bop)], Binary(bop, x, y))
  {
    hide Run;
    var e := Binary(bop, x, y);
    forall stack, row
      ensures Run(a + b + [BinaryOp(bop)], stack, row)
              == var v := ValueOf(cols, e, row); if v.None? then None else Some(stack + [v.value])
    {
      RunAppend(a + b, [BinaryOp(bop)], stack, row);
      RunAppend(a, b, stack, row);
      var v, w := ValueOf(cols, x, row), ValueOf(cols, y, row);
      if v.Some? && w.Some? {
        RunOne(BinaryOp(bop), stack + [v.value] + [w.value], row);
        PopPush(stack + [v.value], w.value);
        PopPush(stack, v.value);
      }
    }
  }

  lemma ComputesBetween(cols: Columns, a: seq<Op>, b: seq<Op>, c: seq<Op>, x: Expr, lo: Expr, hi: Expr)
    requires Computes(cols, a, x) && Computes(cols, b, lo) && Computes(cols, c, hi)
    ensures Computes(cols, a + b + c + [RangeTest], Between(x, lo, hi))
  {
    hide Run;
    var e := Between(x, lo, hi);
    forall stack, row
      ensures Run(a + b + c + [RangeTest], stack, row)
              == var v := ValueOf(cols, e, row); if v.None? then None else Some(stack + [v.value])
    {
      RunAppend(a + b + c, [RangeTest], stack, row);
      RunAppend(a + b, c, stack, row);
      RunAppend(a, b, stack, row);
      var v, l, h := ValueOf(cols, x, row), ValueOf(cols, lo, row), ValueOf(cols, hi, row);
      if v.Some? && l.Some? && h.Some? {
        RunOne(RangeTest, stack + [v.value] + [l.value] + [h.value], row);
        PopPush(stack + [v.value] + [l.value], h.value);
        PopPush(stack + [v.value], l.value);
        PopPush(stack, v.value);
      }
    }
  }

  /** Popping what was pushed gives it back in reverse. */
  lemma {:induction false} PopMany(stack: seq<Value>, vs: seq<Value>)
    ensures Dropped(stack + vs, |vs|) == stack
    ensures forall v :: v in Popped(stack + vs, |vs|) <==> v in vs
  {
    if vs == [] {
      assert stack + vs == stack;
    } else {
      var rest, last := vs[..|vs| - 1], vs[|vs| - 1];
      assert stack + vs == (stack + rest) + [last];
      PopPush(stack + rest, last);
      PopMany(stack, rest);
      assert vs == rest + [last];
    }
  }

  lemma MemberIgnoresOrder(probe: Value, items: seq<Value>, others: seq<Value>)
    requires forall v :: v in items <==> v in others
    ensures Member(probe, items) == Member(probe, others)
  {
    if i :| 0 <= i < |items| && !items[i].Null? && TotalCmp(probe, items[i]).Equal? {
      assert items[i] in others;
    }
    if i :| 0 <= i < |others| && !others[i].Null? && TotalCmp(probe, others[i]).Equal? {
      assert others[i] in items;
    }
  }

  lemma ComputesInList(cols: Columns, a: seq<Op>, b: seq<Op>, x: Expr, items: seq<Expr>)
    requires Computes(cols, a, x) && ComputesAll(cols, b, items)
    ensures Computes(cols, a + b + [MemberTest(|items|)], InList(x, items))
  {
    hide Run;
    var e, op := InList(x, items), MemberTest(|items|);
    forall stack, row
      ensures Run(a + b + [op], stack, row)
              == var v := ValueOf(cols, e, row); if v.None? then None else Some(stack + [v.value])
    {
      RunAppend(a + b, [op], stack, row);
      RunAppend(a, b, stack, row);
      var v, vs := ValueOf(cols, x, row), ValuesOf(cols, items, row);
      if v.Some? && vs.Some? {
        RunOne(op, stack + [v.value] + vs.value, row);
        PopMany(stack + [v.value], vs.value);
        PopPush(stack, v.value);
        MemberIgnoresOrder(v.value, Popped(stack + [v.value] + vs.value, |items|), vs.value);
      }
    }
  }

  lemma ComputesOneMore(cols: Columns, a: seq<Op>, b: seq<Op>, es: seq<Expr>, e: Expr)
    requires ComputesAll(cols, a, es) && Computes(cols, b, e)
    ensures ComputesAll(cols, a + b, es + [e])
  {
    hide Run;
    assert (es + [e])[..|es|] == es;
    forall stack, row
      ensures Run(a + b, stack, row)
              == var vs := ValuesOf(cols, es + [e], row); if vs.None? then None else Some(stack + vs.value)
    {
      RunAppend(a, b, stack, row);
      var vs, v := ValuesOf(cols, es, row), ValueOf(cols, e, row);
      if vs.Some? && v.Some? {
        assert stack + vs.value + [v.value] == stack + (vs.value + [v.value]);
      }
    }
  }

  class Compiler {
    const columns: Columns

    constructor (columns: Columns)
      ensures this.columns == columns
    {
      this.columns := columns;
    }

    /** Lines 88-92. */
    method Compile(e: Expr) returns (r: Result<Program, CompileError>)
      ensures r.Ok? ==> fresh(r.value) && Refusal(columns, e).None? && Computes(columns, r.value.ops, e)
      ensures r.Err? ==> Refusal(columns, e) == Some(r.error)
    {
      hide Computes, Refusal;
      var prog := new Program();
      var err, code := Emit(e, prog);
      if err.Some? {
        return Err(err.value);
      }
      assert [] + code == code;
      return Ok(prog);
    }

    /** Lines 101-143: append code that computes `e`, or report why it cannot. */
    method Emit(e: Expr, prog: Program) returns (err: Option<CompileError>, ghost code: seq<Op>)
      modifies prog
      ensures err == Refusal(columns, e)
      ensures prog.ops == old(prog.ops) + code && (err.None? ==> Computes(columns, code, e))
      decreases e, 1
    {
      hide Computes, Run;
      match e
      case Unary(op, x) =>
        err, code := EmitOnUnary(e, x, UnaryOp(op), prog);
      case IsNull(x, negated) =>
        err, code := EmitOnUnary(e, x, NullTest(negated), prog);
      case Binary(op, x, y) =>
        err, code := EmitBinary(e, op, x, y, prog);
      case Between(x, lo, hi) =>
        err, code := EmitBetween(e, x, lo, hi, prog);
      case InList(x, items) =>
        err, code := EmitInList(e, x, items, prog);
      case _ =>
        err, code := EmitLeaf(e, prog);
    }

    /** Lines 103-111 and 138-140. */
    method EmitLeaf(e: Expr, prog: Program) returns (err: Option<CompileError>, ghost code: seq<Op>)
      requires !e.Unary? && !e.IsNull? && !e.Binary? && !e.Between? && !e.InList?
      modifies prog
      ensures err == Refusal(columns, e)
      ensures prog.ops == old(prog.ops) + code && (err.None? ==> Computes(columns, code, e))
    {
      hide Computes, Run;
      err, code := None, [];
      match e
      case LitInt(i) =>
        code := EmitConst(e, Int(i), prog);
      case LitReal(r) =>
        code := EmitConst(e, Real(r), prog);
      case LitBool(b) =>
        code := EmitConst(e, Bool(b), prog);
      case NullLit =>
        code := EmitConst(e, Null, prog);
      case Column(c) =>
        err, code := EmitColumn(e, c, prog);
      case Qualified(_, c) =>
        err, code := EmitColumn(e, c, prog);
      case LitStr(_) =>
        err := Some(Unsupported("string literal without dictionary"));
      case Like(_, _) =>
        err := Some(Unsupported("LIKE"));
      case Aggregate(_, _, _) =>
        err := Some(Unsupported("aggregate"));
      case Star =>
        err := Some(Unsupported("*"));
    }

    method EmitConst(e: Expr, v: Value, prog: Program) returns (ghost code: seq<Op>)
      requires forall row :: ValueOf(columns, e, row) == Some(v)
      modifies prog
      ensures prog.ops == old(prog.ops) + code && Computes(columns, code, e)
    {
      hide Computes, Run;
      prog.ops := prog.ops + [PushConst(v)];
      code := [PushConst(v)];
      ComputesLeaf(columns, e, PushConst(v));
    }

    /** Lines 94-99 and 110-111. */
    method EmitColumn(e: Expr, name: string, prog: Program) returns (err: Option<CompileError>, ghost code: seq<Op>)
      requires e == Column(name) || (e.Qualified? && e.name == name)
      modifies prog
      ensures err == Refusal(columns, e)
      ensures prog.ops == old(prog.ops) + code && (err.None? ==> Computes(columns, code, e))
    {
      hide Computes, Run;
      if name !in columns {
        return Some(UnknownColumn(name)), [];
      }
      code := [PushColumn(columns[name])];
      prog.ops := prog.ops + [PushColumn(columns[name])];
      ComputesLeaf(columns, e, PushColumn(columns[name]));
      err := None;
    }

    /** Lines 112-115 and 121-124. */
    method EmitOnUnary(e: Expr, x: Expr, op: Op, prog: Program) returns (err: Option<CompileError>, ghost code: seq<Op>)
      requires (op.UnaryOp? && e == Unary(op.uop, x)) || (op.NullTest? && e == IsNull(x, op.negated))
      modifies prog
      ensures err == Refusal(columns, e)
      ensures prog.ops == old(prog.ops) + code && (err.None? ==> Computes(columns, code, e))
      decreases e, 0
    {
      hide Computes, Run;
      err, code := Emit(x, prog);
      if err.None? {
        ComputesUnary(columns, code, x, op, e);
        prog.ops := prog.ops + [op];
        code := code + [op];
      }
    }

    /** Lines 116-120. */
    method EmitBinary(e: Expr, op: BinOp, x: Expr, y: Expr, prog: Program)
      returns (err: Option<CompileError>, ghost code: seq<Op>)
      requires e == Binary(op, x, y)
      modifies prog
      ensures err == Refusal(columns, e)
      ensures prog.ops == old(prog.ops) + code && (err.None? ==> Computes(columns, code, e))
      decreases e, 0
    {
      hide Computes, Run;
      ghost var a, b;
      err, a := Emit(x, prog);
      if err.Some? {
        return err, a;
      }
      err, b := Emit(y, prog);
      if err.Some? {
        return err, a + b;
      }
      ComputesBinary(columns, a, b, op, x, y);
      prog.ops := prog.ops + [BinaryOp(op)];
      code := a + b + [BinaryOp(op)];
    }

    /** Lines 125-130. */
    method EmitBetween(e: Expr, x: Expr, lo: Expr, hi: Expr, prog: Program)
      returns (err: Option<CompileError>, ghost code: seq<Op>)
      requires e == Between(x, lo, hi)
      modifies prog
      ensures err == Refusal(columns, e)
      ensures prog.ops == old(prog.ops) + code && (err.None? ==> Computes(columns, code, e))
      decreases e, 0
    {
      hide Computes, Run;
      ghost var a, b, c;
      err, a := Emit(x, prog);
      if err.Some? {
        return err, a;
      }
      err, b := Emit(lo, prog);
      if err.Some? {
        return err, a + b;
      }
      err, c := Emit(hi, prog);
      if err.Some? {
        return err, a + b + c;
      }
      ComputesBetween(columns, a, b, c, x, lo, hi);
      prog.ops := prog.ops + [RangeTest];
      code := a + b + c + [RangeTest];
    }

    /** Lines 131-137. */
    method EmitInList(e: Expr, x: Expr, items: seq<Expr>, prog: Program)
      returns (err: Option<CompileError>, ghost code: seq<Op>)
      requires e == InList(x, items)
      modifies prog
      ensures err == Refusal(columns, e)
      ensures prog.ops == old(prog.ops) + code && (err.None? ==> Computes(columns, code, e))
      decreases e, 0
    {
      hide Computes, Run, ComputesAll;
      ghost var a, b;
      err, a := Emit(x, prog);
      if err.Some? {
        return err, a;
      }
      err, b := EmitItems(items, prog);
      if err.Some? {
        return err, a + b;
      }
      ComputesInList(columns, a, b, x, items);
      prog.ops := prog.ops + [MemberTest(|items|)];
      code := a + b + [MemberTest(|items|)];
    }

    /** Lines 133-135. */
    method EmitItems(items: seq<Expr>, prog: Program) returns (err: Option<CompileError>, ghost code: seq<Op>)
      modifies prog
      ensures err == RefusalIn(columns, items)
      ensures prog.ops == old(prog.ops) + code && (err.None? ==> ComputesAll(columns, code, items))
      decreases items, 2
    {
      hide Computes, Run, ComputesAll;
      ComputesNone(columns);
      code := [];
      var i := 0;
      while i < |items|
        invariant i <= |items| && RefusalIn(columns, items[..i]).None?
        invariant prog.ops == old(prog.ops) + code && ComputesAll(columns, code, items[..i])
      {
        ghost var c;
        err, c := Emit(items[i], prog);
        assert items[..i + 1] == items[..i] + [items[i]];
        assert items[..i + 1][..i] == items[..i];
        if err.Some? {
          RefusalStays(columns, items, i + 1);
          return err, code + c;
        }
        ComputesOneMore(columns, code, c, items[..i], items[i]);
        code := code + c;
        i := i + 1;
      }
      assert items[..i] == items;
      err := None;
    }
  }

  lemma ComputesNone(cols: Columns)
    ensures ComputesAll(cols, [], [])
  {
    forall stack, row ensures Run([], stack, row) == Some(stack + []) { assert stack + [] == stack; }
  }

  /** The first refusal in a list is the refusal of the list. */
  lemma {:induction false} RefusalStays(cols: Columns, es: seq<Expr>, n: nat)
    requires n <= |es| && RefusalIn(cols, es[..n]).Some?
    ensures RefusalIn(cols, es) == RefusalIn(cols, es[..n])
    decreases |es|
  {
    if n < |es| {
      var rest := es[..|es| - 1];
      assert rest[..n] == es[..n];
      RefusalStays(cols, rest, n);
    } else {
      assert es[..n] == es;
    }
  }

  /** Compiling and evaluating is evaluating: for every expression the compiler
      accepts, and every row. */
  method CompileAndEval(cols: Columns, e: Expr, row: Row) returns (r: Result<Option<Value>, CompileError>)
    ensures r == var refused := Refusal(cols, e);
                 if refused.Some? then Err(refused.value) else Ok(ValueOf(cols, e, row))
  {
    var compiler := new Compiler(cols);
    var prog := compiler.Compile(e);
    if prog.Err? {
      return Err(prog.error);
    }
    var v := Eval(prog.value.ops, row);
    CompiledValue(cols, prog.value.ops, e, row);
    assert v == ValueOf(cols, e, row);
    r := Ok(v);
  }

  lemma CompiledValue(cols: Columns, ops: seq<Op>, e: Expr, row: Row)
    requires Computes(cols, ops, e)
    ensures var s := Run(ops, [], row); (if s.None? then None else Some(Top(s.value))) == ValueOf(cols, e, row)
  {
    hide Run;
    var v := ValueOf(cols, e, row);
    if v.Some? {
      PopPush([], v.value);
      assert Run(ops, [], row) == Some([] + [v.value]);
    } else {
      assert Run(ops, [], row) == None;
    }
  }
}
