/** Runtime values and their order (src/value.rs). Real cells are mathematical reals; an
    integer is rounded to a double before it is compared with one. */
module Values {
  import opened Doubles
  import opened Integers

  datatype Value = Null | Bool(b: bool) | Int(i: I64) | Real(r: real) | Text(id: nat)

  datatype Ordering = Less | Equal | Greater

  function CmpInt(a: int, b: int): Ordering
  {
    if a < b then Less else if a == b then Equal else Greater
  }

  function CmpReal(a: real, b: real): Ordering
  {
    if a < b then Less else if a == b then Equal else Greater
  }

  /** Place of a type's tag in the order of the tags' names: bool, int, real, text. */
  function KindRank(v: Value): nat
  {
    match v
    case Null => 0
    case Bool(_) => 1
    case Int(_) => 2
    case Real(_) => 3
    case Text(_) => 4
  }

  /** Lines 72-86: nulls first, numbers by size, otherwise by type tag. */
  function TotalCmp(a: Value, b: Value): Ordering
  {
    match (a, b)
    case (Null, Null) => Equal
    case (Null, _) => Less
    case (_, Null) => Greater
    case (Bool(x), Bool(y)) => if x == y then Equal else if y then Less else Greater
    case (Int(x), Int(y)) => CmpInt(x, y)
    case (Real(x), Real(y)) => CmpReal(x, y)
    case (Int(x), Real(y)) => CmpReal(ToDouble(x), y)
    case (Real(x), Int(y)) => CmpReal(x, ToDouble(y))
    case (Text(x), Text(y)) => CmpInt(x, y)
    case (x, y) => CmpInt(KindRank(x), KindRank(y))
  }

  /** Which of two values comes first, kind by kind: nulls before all others, booleans false first,
      numbers by size, an integer beside a real by its double, texts by their numbers, and else
      booleans before numbers and numbers before texts. */
  predicate Precedes(a: Value, b: Value)
  {
    match a
    case Null => !b.Null?
    case Bool(x) => if b.Bool? then !x && b.b else !b.Null?
    case Int(x) => if b.Int? then x < b.i else if b.Real? then ToDouble(x) < b.r else b.Text?
    case Real(x) => if b.Real? then x < b.r else if b.Int? then x < ToDouble(b.i) else b.Text?
    case Text(x) => b.Text? && x < b.id
  }

  /** The comparison says less of two values if the first comes first, greater if the second does. */
  lemma OrderIs(a: Value, b: Value)
    ensures TotalCmp(a, b).Less? <==> Precedes(a, b)
    ensures TotalCmp(a, b).Greater? <==> Precedes(b, a)
    ensures TotalCmp(a, b).Equal? <==> !Precedes(a, b) && !Precedes(b, a)
  {
  }

  predicate AtMost(a: Value, b: Value)
  {
    !TotalCmp(a, b).Greater?
  }

  /** Two integers that a double between them cannot tell apart. */
  predicate Blurred(a: Value, b: Value, c: Value)
  {
    a.Int? && b.Real? && c.Int? && a.i > c.i && ToDouble(a.i) == b.r == ToDouble(c.i)
  }

  /** The outcomes are always antisymmetric, and transitive but for one case: two integers
      in the wrong order that round to the double between them. */
  lemma TotalCmpOrders(a: Value, b: Value, c: Value)
    ensures TotalCmp(a, a) == Equal
    ensures TotalCmp(a, b) == Less <==> TotalCmp(b, a) == Greater
    ensures TotalCmp(a, b) == Equal <==> TotalCmp(b, a) == Equal
    ensures (AtMost(a, b) && AtMost(b, c) ==> AtMost(a, c)) <==> !Blurred(a, b, c)
  {
    hide ToDouble;
    if IsNumber(a) && IsNumber(b) && IsNumber(c) {
      ConvertMonotone(a, b);
      ConvertMonotone(b, c);
      ConvertMonotone(a, c);
      ConvertMonotone(c, a);
    }
  }

  predicate IsNumber(v: Value) { v.Int? || v.Real? }

  /** Rounding integers keeps their order. */
  lemma ConvertMonotone(a: Value, b: Value)
    ensures a.Int? && b.Int? && a.i <= b.i ==> ToDouble(a.i) <= ToDouble(b.i)
  {
    if a.Int? && b.Int? && a.i <= b.i {
      RoundedMonotone(a.i, b.i);
    }
  }

  ghost predicate Ordered(values: set<Value>)
  {
    forall a, b, c :: a in values && b in values && c in values && AtMost(a, b) && AtMost(b, c) ==> AtMost(a, c)
  }

  ghost predicate NoneBlurred(values: set<Value>)
  {
    forall a, b, c :: a in values && b in values && c in values ==> !Blurred(a, b, c)
  }

  /** Values are totally ordered exactly when none of the reals among them is what two
      different integers among them round to. */
  lemma OrderedIffNoneBlurred(values: set<Value>)
    ensures Ordered(values) <==> NoneBlurred(values)
  {
    hide TotalCmp, Blurred, AtMost;
    forall a, b, c | a in values && b in values && c in values
      ensures (AtMost(a, b) && AtMost(b, c) ==> AtMost(a, c)) <==> !Blurred(a, b, c)
    {
      TotalCmpOrders(a, b, c);
    }
  }

  /** So they are when their integers have at most 53 bits. */
  lemma SmallIntegersOrdered(values: set<Value>)
    requires forall v :: v in values && v.Int? ==> -EXACT <= v.i <= EXACT
    ensures Ordered(values)
  {
    forall a, b, c | a in values && b in values && c in values ensures !Blurred(a, b, c) {
      if a.Int? && c.Int? {
        SmallIsExact(a.i);
        SmallIsExact(c.i);
      }
    }
    OrderedIffNoneBlurred(values);
  }

  /** 2^53 + 1 and 2^53 both compare equal to the double 2^53, but not to one another. */
  lemma BlurredCounterexample()
    ensures var a, b, c := Int(EXACT + 1), Real(EXACT as real), Int(EXACT);
            TotalCmp(a, b) == Equal && TotalCmp(b, c) == Equal && TotalCmp(a, c) == Greater && !Ordered({a, b, c})
  {
    FirstInexact();
    SmallIsExact(EXACT);
    var a, b, c := Int(EXACT + 1), Real(EXACT as real), Int(EXACT);
    assert Blurred(a, b, c);
    OrderedIffNoneBlurred({a, b, c});
  }
}
