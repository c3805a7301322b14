/** What the operators of expressions compute (src/exprvm.rs, lines 212-296), as laws of arithmetic,
    order and three-valued logic that the values of expressions obey. */
module OperatorLaws {
  import opened Doubles
  import opened Integers
  import opened Options
  import opened Values
  import opened Expressions

  // ----- integers ----------------------------------------------------------------------------

  /** The same number modulo 2^64. */
  predicate Congruent(a: int, b: int)
  {
    (a - b) % U64_LIMIT == 0
  }

  /** A 64-bit integer is told by what it is congruent to. */
  lemma OneRepresentative(a: I64, b: I64)
    requires Congruent(a, b)
    ensures a == b
  {
  }

  lemma WrapCongruent(z: int)
    ensures Congruent(Wrap(z), z)
  {
    var k := (z - I64_MIN) / U64_LIMIT;
    assert Wrap(z) - z == -k * U64_LIMIT;
    MultipleOf(-k);
  }

  lemma MultipleOf(k: int)
    ensures (k * U64_LIMIT) % U64_LIMIT == 0
  {
  }

  lemma CongruentSum(a: int, a': int, b: int, b': int)
    requires Congruent(a, a') && Congruent(b, b')
    ensures Congruent(a + b, a' + b') && Congruent(a - b, a' - b')
  {
    var k, m := (a - a') / U64_LIMIT, (b - b') / U64_LIMIT;
    assert a - a' == k * U64_LIMIT && b - b' == m * U64_LIMIT;
    MultipleOf(k + m);
    MultipleOf(k - m);
    assert (a + b) - (a' + b') == (k + m) * U64_LIMIT && (a - b) - (a' - b') == (k - m) * U64_LIMIT;
  }

  lemma CongruentTimes(a: int, a': int, c: int)
    requires Congruent(a, a')
    ensures Congruent(c * a, c * a')
  {
    var k := (a - a') / U64_LIMIT;
    assert a - a' == k * U64_LIMIT;
    assert c * a - c * a' == c * (a - a') == (c * k) * U64_LIMIT;
    MultipleOf(c * k);
  }

  lemma CongruentTurned(a: int, b: int)
    requires Congruent(a, b)
    ensures Congruent(b, a)
  {
    CongruentTrans(a, b, b);
  }

  lemma CongruentTrans(a: int, b: int, c: int)
    requires Congruent(a, b) && Congruent(b, c)
    ensures Congruent(a, c) && Congruent(b, a)
  {
    var k, m := (a - b) / U64_LIMIT, (b - c) / U64_LIMIT;
    assert a - b == k * U64_LIMIT && b - c == m * U64_LIMIT;
    MultipleOf(k + m);
    MultipleOf(-k);
    assert a - c == (k + m) * U64_LIMIT && b - a == -k * U64_LIMIT;
  }

  /** The integer that this number is modulo 2^64, and the number itself if it has 64 bits. */
  ghost predicate Stands(v: Option<Value>, z: int)
  {
    v.Some? && v.value.Int? && Congruent(v.value.i, z) && (I64_MIN <= z <= I64_MAX ==> v.value.i == z)
  }

  lemma WrapStands(z: int)
    ensures Stands(Some(Int(Wrap(z))), z)
  {
    WrapCongruent(z);
  }

  /** Sums, differences and products of integers are right modulo 2^64, and are the mathematical ones
      if these have 64 bits. */
  lemma IntegerArithmetic(x: I64, y: I64)
    ensures Stands(ApplyBinary(Add, Int(x), Int(y)), x + y)
    ensures Stands(ApplyBinary(Sub, Int(x), Int(y)), x - y)
    ensures Stands(ApplyBinary(Mul, Int(x), Int(y)), x * y)
  {
    hide Wrap, Stands;
    WrapStands(x + y);
    WrapStands(x - y);
    WrapStands(x * y);
  }

  /** Quotient and remainder belong together, and the remainder has the sign of the dividend. Dividing
      by zero is null; the least integer by -1 overflows, and nothing else does. */
  lemma IntegerDivision(x: I64, y: I64)
    ensures var q, r := ApplyBinary(Div, Int(x), Int(y)), ApplyBinary(Mod, Int(x), Int(y));
            && (q == Some(Null) <==> y == 0) && (r == Some(Null) <==> y == 0)
            && (q == None <==> x == I64_MIN && y == -1) && (r == None <==> x == I64_MIN && y == -1)
            && (y != 0 && q.Some? ==>
                  && q.value.Int? && r.value.Int? && x == y * q.value.i + r.value.i
                  && -Magnitude(y) < r.value.i < Magnitude(y) && (x >= 0 ==> r.value.i >= 0)
                  && (x <= 0 ==> r.value.i <= 0))
  {
    if y != 0 && !(x == I64_MIN && y == -1) {
      TruncatedDivision(x, y);
      InRangeWraps(Quotient(x, y));
      InRangeWraps(Remainder(x, y));
    }
  }

  function Magnitude(x: int): int { if x < 0 then -x else x }

  lemma InRangeWraps(z: int)
    ensures I64_MIN <= z <= I64_MAX ==> Wrap(z) == z
  {
  }

  lemma TruncatedDivision(x: I64, y: I64)
    requires y != 0
    ensures var q, r := Quotient(x, y), Remainder(x, y);
            && x == y * q + r && -Magnitude(y) < r < Magnitude(y) && (x >= 0 ==> r >= 0) && (x <= 0 ==> r <= 0)
            && (!(x == I64_MIN && y == -1) ==> I64_MIN <= q <= I64_MAX && I64_MIN <= r <= I64_MAX)
  {
    var a: int, b: int := Abs(x), Abs(y);
    var m: int := a / b;
    SplitOff(a, b);
    QuotientSmall(a, b);
    var t: int := b * m;
    assert y * Quotient(x, y) == if x >= 0 then t else -t by { SignedProduct(x, y, b, m); }
  }

  lemma SignedProduct(x: int, y: int, b: int, m: int)
    requires y != 0 && b == Abs(y)
    ensures y * (if (x >= 0) == (y >= 0) then m else -m) == if x >= 0 then b * m else -(b * m)
  {
    assert y * -m == -(y * m) && -y * m == -(y * m);
  }

  lemma SplitOff(a: int, b: int)
    requires a >= 0 && b > 0
    ensures a == b * (a / b) + a % b && 0 <= a % b < b
  {
  }

  lemma QuotientSmall(a: int, b: int)
    requires a >= 0 && b > 0
    ensures 0 <= a / b <= a && (b >= 2 ==> 2 * (a / b) <= a)
  {
    var m := a / b;
    SplitOff(a, b);
    assert m >= 0;
    assert b * m == m + (b - 1) * m;
    if b >= 2 {
      assert b * m == 2 * m + (b - 2) * m;
    }
  }

  /** Negating is subtracting from zero, and overflows for the least integer only. */
  lemma IntegerNegation(x: I64)
    ensures ApplyUnary(Neg, Int(x)) == None <==> x == I64_MIN
    ensures x != I64_MIN ==> ApplyUnary(Neg, Int(x)) == ApplyBinary(Sub, Int(0), Int(x)) == Some(Int(-x))
  {
  }

  /** The expression's value on the row is this integer. */
  ghost predicate IsInt(cols: Columns, e: Expr, row: Row, x: I64)
  {
    ValueOf(cols, e, row) == Some(Int(x))
  }

  lemma BackAndForth(x: I64, y: I64)
    ensures ApplyBinary(Sub, ApplyBinary(Add, Int(x), Int(y)).value, Int(y)) == Some(Int(x))
    ensures ApplyBinary(Add, ApplyBinary(Sub, Int(x), Int(y)).value, Int(y)) == Some(Int(x))
  {
    hide ApplyBinary, Congruent;
    IntegerArithmetic(x, y);
    var s, d := ApplyBinary(Add, Int(x), Int(y)).value.i, ApplyBinary(Sub, Int(x), Int(y)).value.i;
    IntegerArithmetic(s, y);
    IntegerArithmetic(d, y);
    var back, again := ApplyBinary(Sub, Int(s), Int(y)).value.i, ApplyBinary(Add, Int(d), Int(y)).value.i;
    CongruentSame(y);
    CongruentSum(s, x + y, y, y);
    CongruentSum(d, x - y, y, y);
    CongruentTrans(back, s - y, x);
    CongruentTrans(again, d + y, x);
    OneRepresentative(back, x);
    OneRepresentative(again, x);
  }

  lemma CongruentSame(y: int)
    ensures Congruent(y, y)
  {
  }

  /** Adding and then subtracting gives every integer back, whatever wraps around in between; so does
      subtracting and then adding. */
  lemma AddThenSubtract(cols: Columns, e: Expr, f: Expr, row: Row, x: I64, y: I64)
    requires IsInt(cols, e, row, x) && IsInt(cols, f, row, y)
    ensures IsInt(cols, Binary(Sub, Binary(Add, e, f), f), row, x)
    ensures IsInt(cols, Binary(Add, Binary(Sub, e, f), f), row, x)
  {
    hide ApplyBinary, Congruent;
    IntegerArithmetic(x, y);
    BackAndForth(x, y);
    assert ValueOf(cols, Binary(Add, e, f), row) == ApplyBinary(Add, Int(x), Int(y));
    assert ValueOf(cols, Binary(Sub, e, f), row) == ApplyBinary(Sub, Int(x), Int(y));
  }

  lemma SameProduct(x: int, y: int, z: int, s: int, p: int, q: int, left: I64, right: I64)
    requires Congruent(s, y + z) && Congruent(p, x * y) && Congruent(q, x * z)
    requires Congruent(left, x * s) && Congruent(right, p + q)
    ensures left == right
  {
    hide Congruent;
    var whole := x * y + x * z;
    CongruentTimes(s, y + z, x);
    assert x * (y + z) == whole;
    CongruentTrans(left, x * s, whole);
    CongruentSum(p, x * y, q, x * z);
    CongruentTrans(right, p + q, whole);
    CongruentTurned(right, whole);
    CongruentTrans(left, whole, right);
    OneRepresentative(left, right);
  }

  lemma ProductOfSum(x: I64, y: I64, z: I64)
    ensures var s, p, q := ApplyBinary(Add, Int(y), Int(z)), ApplyBinary(Mul, Int(x), Int(y)),
                ApplyBinary(Mul, Int(x), Int(z));
            s.Some? && p.Some? && q.Some? && ApplyBinary(Mul, Int(x), s.value).Some?
            && ApplyBinary(Mul, Int(x), s.value).value.Int?
            && ApplyBinary(Mul, Int(x), s.value) == ApplyBinary(Add, p.value, q.value)
  {
    hide ApplyBinary, Congruent;
    IntegerArithmetic(y, z);
    IntegerArithmetic(x, y);
    IntegerArithmetic(x, z);
    var s := ApplyBinary(Add, Int(y), Int(z)).value.i;
    var p, q := ApplyBinary(Mul, Int(x), Int(y)).value.i, ApplyBinary(Mul, Int(x), Int(z)).value.i;
    IntegerArithmetic(x, s);
    IntegerArithmetic(p, q);
    var left, right := ApplyBinary(Mul, Int(x), Int(s)).value.i, ApplyBinary(Add, Int(p), Int(q)).value.i;
    SameProduct(x, y, z, s, p, q, left, right);
  }

  /** Multiplication distributes over addition, also where these wrap around. */
  lemma Distributes(cols: Columns, e: Expr, f: Expr, g: Expr, row: Row, x: I64, y: I64, z: I64)
    requires IsInt(cols, e, row, x) && IsInt(cols, f, row, y) && IsInt(cols, g, row, z)
    ensures var left, right := ValueOf(cols, Binary(Mul, e, Binary(Add, f, g)), row),
                ValueOf(cols, Binary(Add, Binary(Mul, e, f), Binary(Mul, e, g)), row);
            left.Some? && left.value.Int? && left == right
  {
    hide ApplyBinary;
    ProductOfSum(x, y, z);
    assert ValueOf(cols, Binary(Add, f, g), row) == ApplyBinary(Add, Int(y), Int(z));
    assert ValueOf(cols, Binary(Mul, e, f), row) == ApplyBinary(Mul, Int(x), Int(y));
    assert ValueOf(cols, Binary(Mul, e, g), row) == ApplyBinary(Mul, Int(x), Int(z));
  }

  // ----- reals -------------------------------------------------------------------------------

  /** A value that counts as a real: integers by their double, booleans as one and zero. */
  ghost predicate CountsAs(v: Value, x: real)
  {
    match v
    case Real(r) => x == r
    case Int(i) => x == ToDouble(i)
    case Bool(b) => x == if b then 1.0 else 0.0
    case _ => false
  }

  /** Unless both are integers, numbers are added, subtracted, multiplied and divided as reals; the
      remainder is what is left of the dividend after taking off the divisor as often as it goes. */
  lemma RealArithmetic(a: Value, b: Value, x: real, y: real)
    requires CountsAs(a, x) && CountsAs(b, y) && !(a.Int? && b.Int?)
    ensures ApplyBinary(Add, a, b) == Some(Real(x + y)) && ApplyBinary(Sub, a, b) == Some(Real(x - y))
    ensures ApplyBinary(Mul, a, b) == Some(Real(x * y))
    ensures var q, r := ApplyBinary(Div, a, b), ApplyBinary(Mod, a, b);
            if y == 0.0 then q == r == Some(Null) else
              && q.Some? && q.value.Real? && q.value.r * y == x
              && r.Some? && r.value.Real? && RemainderOf(x, y, r.value.r)
  {
    hide ToDouble, Truncate, RemainderOf;
    CountedReal(a, x);
    CountedReal(b, y);
    if y != 0.0 {
      TruncatedRemainder(x, y);
      Divided(x, y);
    }
  }

  lemma CountedReal(v: Value, x: real)
    requires CountsAs(v, x)
    ensures AsReal(v) == Some(x) && !v.Null?
  {
  }

  lemma Divided(x: real, y: real)
    requires y != 0.0
    ensures x / y * y == x
  {
  }

  /** What is left of a number after taking off another as often as it goes. */
  ghost predicate RemainderOf(x: real, y: real, r: real)
  {
    WholeTimes(x - r, y) && -Size(y) < r < Size(y) && (x >= 0.0 ==> r >= 0.0) && (x <= 0.0 ==> r <= 0.0)
  }

  function Size(x: real): real { if x < 0.0 then -x else x }

  ghost predicate WholeTimes(x: real, y: real)
  {
    exists k: int :: x == Times(k, y)
  }

  function Times(k: int, y: real): real { k as real * y }

  lemma TruncatedRemainder(x: real, y: real)
    requires y != 0.0
    ensures RemainderOf(x, y, x - y * (Truncate(x / y) as real))
  {
    var t, k := x / y, Truncate(x / y);
    assert x == t * y;
    var r, d := x - y * (k as real), t - k as real;
    assert x - r == Times(k, y);
    Cut(t);
    assert r == d * y;
    hide Truncate;
    SignOf(t, y);
    SignOf(d, y);
    Smaller(d, y);
  }

  lemma Cut(t: real)
    ensures var d := t - Truncate(t) as real;
            -1.0 < d < 1.0 && (t >= 0.0 ==> d >= 0.0) && (t <= 0.0 ==> d <= 0.0)
  {
  }

  lemma SignOf(t: real, y: real)
    ensures t * y >= 0.0 <==> t == 0.0 || y == 0.0 || (t > 0.0) == (y > 0.0)
    ensures t * y <= 0.0 <==> t == 0.0 || y == 0.0 || (t > 0.0) != (y > 0.0)
  {
    if t > 0.0 && y > 0.0 {
      assert t * y > 0.0;
    } else if t < 0.0 && y < 0.0 {
      assert -t * -y > 0.0;
    } else if t > 0.0 && y < 0.0 {
      assert t * -y > 0.0;
    } else if t < 0.0 && y > 0.0 {
      assert -t * y > 0.0;
    }
  }

  lemma Smaller(d: real, y: real)
    requires -1.0 < d < 1.0 && y != 0.0
    ensures -Size(y) < d * y < Size(y)
  {
    SignOf(1.0 - d, y);
    SignOf(1.0 + d, y);
    assert (1.0 - d) * y == y - d * y && (1.0 + d) * y == y + d * y;
  }

  lemma RealNegation(x: real)
    ensures ApplyUnary(Neg, Real(x)) == ApplyBinary(Sub, Real(0.0), Real(x))
  {
  }

  /** Everything else has no arithmetic: texts and nulls give null, and so does negating them. */
  lemma NoArithmetic(op: BinOp, a: Value, b: Value)
    requires op in {Add, Sub, Mul, Div, Mod} && (a.Null? || b.Null? || a.Text? || b.Text?)
    ensures ApplyBinary(op, a, b) == Some(Null)
    ensures a.Null? || a.Text? ==> ApplyUnary(Neg, a) == Some(Null) == ApplyUnary(Not, a)
  {
  }

  // ----- comparisons -------------------------------------------------------------------------

  /** Each comparison of two values that are not null decides what its sign says, by the order of the
      values: of integers and of reals by size, of an integer and a real by the integer's double, of
      booleans false first, of texts by their numbers. */
  lemma ComparisonsDecide(a: Value, b: Value)
    requires !a.Null? && !b.Null?
    ensures ApplyBinary(Lt, a, b) == Some(Bool(Precedes(a, b)))
    ensures ApplyBinary(Gt, a, b) == Some(Bool(Precedes(b, a)))
    ensures ApplyBinary(LtEq, a, b) == Some(Bool(!Precedes(b, a)))
    ensures ApplyBinary(GtEq, a, b) == Some(Bool(!Precedes(a, b)))
    ensures ApplyBinary(Eq, a, b) == Some(Bool(!Precedes(a, b) && !Precedes(b, a)))
    ensures ApplyBinary(NotEq, a, b) == Some(Bool(Precedes(a, b) || Precedes(b, a)))
  {
    OrderIs(a, b);
    hide TotalCmp, Precedes;
  }

  /** A comparison with a null is unknown. */
  lemma NullComparisons(op: BinOp, v: Value)
    requires op in {Eq, NotEq, Lt, LtEq, Gt, GtEq}
    ensures ApplyBinary(op, v, Null) == ApplyBinary(op, Null, v) == Some(Null)
  {
  }

  // ----- three-valued logic ------------------------------------------------------------------

  /** False, unknown, true. */
  function Truth(v: Value): int
  {
    if v == Bool(true) || (v.Int? && v.i != 0) then 2 else if v == Bool(false) || v == Int(0) then 0 else 1
  }

  /** The value a truth is written as. */
  function Written(t: int): Value
  {
    if t == 2 then Bool(true) else if t == 0 then Bool(false) else Null
  }

  /** AND is the less true of both operands, OR the truer, and NOT turns them round. */
  lemma ThreeValued(a: Value, b: Value)
    ensures ApplyBinary(And, a, b) == Some(Written(if Truth(a) < Truth(b) then Truth(a) else Truth(b)))
    ensures ApplyBinary(Or, a, b) == Some(Written(if Truth(a) < Truth(b) then Truth(b) else Truth(a)))
    ensures ApplyUnary(Not, a) == Some(Written(2 - Truth(a)))
  {
  }

  /** BETWEEN is to be `x >= lo AND x <= hi`. It is, unless one bound is null while the other alone
      makes that false: then BETWEEN is null. */
  lemma BetweenIs(cols: Columns, x: Expr, lo: Expr, hi: Expr, row: Row, v: Value, l: Value, h: Value)
    requires ValueOf(cols, x, row) == Some(v) && ValueOf(cols, lo, row) == Some(l) && ValueOf(cols, hi, row) == Some(h)
    ensures var range, both := ValueOf(cols, Between(x, lo, hi), row),
                ValueOf(cols, Binary(And, Binary(GtEq, x, lo), Binary(LtEq, x, hi)), row);
            && (range == both <==> !HalfDecided(v, l, h))
            && (HalfDecided(v, l, h) ==> range == Some(Null) && both == Some(Bool(false)))
  {
    hide ApplyBinary, InRange, HalfDecided;
    RangeIs(v, l, h);
  }

  lemma RangeIs(v: Value, l: Value, h: Value)
    ensures var above, below := ApplyBinary(GtEq, v, l), ApplyBinary(LtEq, v, h);
            above.Some? && below.Some?
            && var both := ApplyBinary(And, above.value, below.value);
               && (Some(InRange(v, l, h)) == both <==> !HalfDecided(v, l, h))
               && (HalfDecided(v, l, h) ==> InRange(v, l, h) == Null && both == Some(Bool(false)))
  {
    hide TotalCmp, Precedes;
    OrderIs(v, l);
    OrderIs(v, h);
  }

  /** One bound is null, and the value is on the wrong side of the other. */
  predicate HalfDecided(v: Value, l: Value, h: Value)
  {
    !v.Null? && ((l.Null? && !h.Null? && Precedes(h, v)) || (h.Null? && !l.Null? && Precedes(v, l)))
  }

  /** 5 BETWEEN NULL AND 3. */
  lemma BetweenCounterexample()
    ensures ValueOf(map[], Between(LitInt(5), NullLit, LitInt(3)), []) == Some(Null)
    ensures ValueOf(map[], Binary(And, Binary(GtEq, LitInt(5), NullLit), Binary(LtEq, LitInt(5), LitInt(3))), [])
            == Some(Bool(false))
  {
  }

  /** IN is the OR of equalities with the values listed. */
  lemma MemberIsEither(probe: Value, items: seq<Value>, v: Value)
    ensures Some(Member(probe, [v])) == ApplyBinary(Eq, probe, v)
    ensures items != [] ==>
              Some(Member(probe, items + [v])) == ApplyBinary(Or, Member(probe, items), ApplyBinary(Eq, probe, v).value)
  {
    hide TotalCmp;
    var more := items + [v];
    assert forall i :: 0 <= i < |items| ==> more[i] == items[i];
    assert more[|items|] == v;
    assert Null in more <==> Null in items || v == Null;
    assert [v][0] == v;
    if !probe.Null? && !v.Null? && TotalCmp(probe, v).Equal? {
      assert !more[|items|].Null? && TotalCmp(probe, more[|items|]).Equal?;
    }
    if i :| 0 <= i < |items| && !items[i].Null? && TotalCmp(probe, items[i]).Equal? {
      assert !more[i].Null? && TotalCmp(probe, more[i]).Equal?;
    }
  }
}
