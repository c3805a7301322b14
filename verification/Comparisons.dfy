/** The comparison operators of predicates (src/value.rs, lines 110-150). */
module Comparisons {
  import opened Doubles
  import opened Integers
  import opened Values

  datatype CmpOp = Eq | Ne | Lt | Le | Gt | Ge

  /** Lines 137-149. A comparison with a null holds for `Ne` only. */
  function Apply(op: CmpOp, a: Value, b: Value): bool
  {
    if a.Null? || b.Null? then op.Ne?
    else
      match op
      case Eq => a == b
      case Ne => a != b
      case Lt => TotalCmp(a, b).Less?
      case Le => !TotalCmp(a, b).Greater?
      case Gt => TotalCmp(a, b).Greater?
      case Ge => !TotalCmp(a, b).Less?
  }

  /** What each operator decides of two values that are not null. */
  lemma ApplyDecides(a: Value, b: Value)
    requires !a.Null? && !b.Null?
    ensures Apply(Lt, a, b) <==> Precedes(a, b)
    ensures Apply(Gt, a, b) <==> Precedes(b, a)
    ensures Apply(Le, a, b) <==> !Precedes(b, a)
    ensures Apply(Ge, a, b) <==> !Precedes(a, b)
    ensures Apply(Eq, a, b) <==> a == b
    ensures Apply(Ne, a, b) <==> a != b
  {
    OrderIs(a, b);
    hide TotalCmp, Precedes;
  }

  /** What an operator says of two numbers. */
  predicate Says(op: CmpOp, x: int, y: int)
  {
    match op
    case Eq => x == y
    case Ne => x != y
    case Lt => x < y
    case Le => x <= y
    case Gt => x > y
    case Ge => x >= y
  }

  /** Integers, down to the numbers; ... */
  lemma IntsCompare(x: I64, y: I64)
    ensures Apply(Lt, Int(x), Int(y)) <==> x < y
    ensures Apply(Le, Int(x), Int(y)) <==> x <= y
    ensures Apply(Gt, Int(x), Int(y)) <==> x > y
    ensures Apply(Ge, Int(x), Int(y)) <==> x >= y
    ensures Apply(Eq, Int(x), Int(y)) <==> x == y
    ensures Apply(Ne, Int(x), Int(y)) <==> x != y
    ensures forall op: CmpOp :: Apply(op, Int(x), Int(y)) <==> Says(op, x, y)
  {
  }

  /** ... reals; ... */
  lemma RealsCompare(x: real, y: real)
    ensures Apply(Lt, Real(x), Real(y)) <==> x < y
    ensures Apply(Le, Real(x), Real(y)) <==> x <= y
    ensures Apply(Gt, Real(x), Real(y)) <==> x > y
    ensures Apply(Ge, Real(x), Real(y)) <==> x >= y
    ensures Apply(Eq, Real(x), Real(y)) <==> x == y
    ensures Apply(Ne, Real(x), Real(y)) <==> x != y
  {
  }

  /** ... an integer against a real by its double, though the two are never equal; ... */
  lemma MixedCompare(x: I64, y: real)
    ensures Apply(Lt, Int(x), Real(y)) <==> ToDouble(x) < y
    ensures Apply(Le, Int(x), Real(y)) <==> ToDouble(x) <= y
    ensures Apply(Gt, Int(x), Real(y)) <==> ToDouble(x) > y
    ensures Apply(Ge, Int(x), Real(y)) <==> ToDouble(x) >= y
    ensures !Apply(Eq, Int(x), Real(y)) && Apply(Ne, Int(x), Real(y))
    ensures Apply(Lt, Real(y), Int(x)) <==> y < ToDouble(x)
    ensures Apply(Le, Real(y), Int(x)) <==> y <= ToDouble(x)
    ensures Apply(Gt, Real(y), Int(x)) <==> y > ToDouble(x)
    ensures Apply(Ge, Real(y), Int(x)) <==> y >= ToDouble(x)
    ensures !Apply(Eq, Real(y), Int(x)) && Apply(Ne, Real(y), Int(x))
  {
    hide ToDouble;
  }

  /** ... booleans, false first, and texts by their numbers. */
  lemma OthersCompare(p: bool, q: bool, x: nat, y: nat)
    ensures Apply(Lt, Bool(p), Bool(q)) <==> !p && q
    ensures Apply(Le, Bool(p), Bool(q)) <==> !p || q
    ensures Apply(Gt, Bool(p), Bool(q)) <==> p && !q
    ensures Apply(Ge, Bool(p), Bool(q)) <==> p || !q
    ensures Apply(Eq, Bool(p), Bool(q)) <==> p == q
    ensures Apply(Ne, Bool(p), Bool(q)) <==> p != q
    ensures Apply(Lt, Text(x), Text(y)) <==> x < y
    ensures Apply(Le, Text(x), Text(y)) <==> x <= y
    ensures Apply(Gt, Text(x), Text(y)) <==> x > y
    ensures Apply(Ge, Text(x), Text(y)) <==> x >= y
    ensures Apply(Eq, Text(x), Text(y)) <==> x == y
    ensures Apply(Ne, Text(x), Text(y)) <==> x != y
  {
  }

  /** Against a null only `Ne` holds. */
  lemma NullsCompare(op: CmpOp, v: Value)
    ensures Apply(op, v, Null) <==> op.Ne?
    ensures Apply(op, Null, v) <==> op.Ne?
  {
  }
}
