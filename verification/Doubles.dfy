/** 64-bit integers converted to doubles (`as f64`): exact up to 2^53, beyond that the nearest
    multiple of a power of two, ties going to the even one. */
module Doubles {
  import opened Integers

  const EXACT: int := 0x20_0000_0000_0000

  /** The distance between neighbouring doubles at this magnitude. */
  function Spacing(m: nat): (u: nat)
    ensures u > 0
  {
    if m < EXACT then 1 else 2 * Spacing(m / 2)
  }

  /** The nearest multiple of `u`, the even one of two equally near. */
  function ToMultiple(m: nat, u: nat): nat
    requires u > 0
  {
    var q, r := m / u, m % u;
    if 2 * r < u || (2 * r == u && q % 2 == 0) then q * u else (q + 1) * u
  }

  function Nearest(m: nat): int { ToMultiple(m, Spacing(m)) }

  function Rounded(x: int): int
  {
    if x < 0 then -Nearest(-x) else Nearest(x)
  }

  function ToDouble(x: int): real { Rounded(x) as real }

  /** A magnitude has at most 53 significant bits above the spacing, and not fewer unless the
      spacing is 1. */
  lemma {:induction false} SpacingBounds(m: nat)
    ensures m < EXACT * Spacing(m) && (Spacing(m) > 1 ==> EXACT / 2 * Spacing(m) <= m)
  {
    if m >= EXACT {
      SpacingBounds(m / 2);
      if Spacing(m / 2) > 1 {
        assert EXACT / 2 * (2 * Spacing(m / 2)) <= m;
      }
    }
  }

  /** The spacing stays or at least doubles. */
  lemma {:induction false} SpacingGrows(m: nat, n: nat)
    requires m <= n
    ensures Spacing(m) == Spacing(n) || 2 * Spacing(m) <= Spacing(n)
  {
    if m >= EXACT {
      SpacingGrows(m / 2, n / 2);
    } else if n >= EXACT {
      SpacingPositive(n / 2);
    }
  }

  lemma SpacingPositive(m: nat)
    ensures Spacing(m) >= 1
  {
  }

  lemma DivideMonotone(m: nat, n: nat, u: nat)
    requires u > 0 && m <= n
    ensures m / u <= n / u
  {
    assert m == u * (m / u) + m % u;
    AtLeast(n, u, m / u);
  }

  lemma MultipleBetween(m: nat, u: nat)
    requires u > 0
    ensures m / u * u <= ToMultiple(m, u) <= (m / u + 1) * u
  {
    assert (m / u + 1) * u == m / u * u + u;
  }

  lemma SameSpacing(m: nat, n: nat, u: nat)
    requires u > 0 && m <= n
    ensures ToMultiple(m, u) <= ToMultiple(n, u)
  {
    hide ToMultiple;
    DivideMonotone(m, n, u);
    MultipleBetween(m, u);
    MultipleBetween(n, u);
    if m / u == n / u {
      SameQuotient(m, n, u);
    } else {
      TimesMonotone(m / u + 1, n / u, u);
    }
  }

  lemma SameQuotient(m: nat, n: nat, u: nat)
    requires u > 0 && m <= n && m / u == n / u
    ensures ToMultiple(m, u) <= ToMultiple(n, u)
  {
    var q := m / u;
    assert m == u * q + m % u && n == u * q + n % u;
    assert (q + 1) * u == q * u + u;
  }

  lemma TimesMonotone(p: nat, q: nat, u: nat)
    requires p <= q
    ensures p * u <= q * u
  {
    assert q * u - p * u == (q - p) * u;
  }

  /** Rounding never turns an order round. */
  lemma NearestMonotone(m: nat, n: nat)
    requires m <= n
    ensures Nearest(m) <= Nearest(n)
  {
    var u, w := Spacing(m), Spacing(n);
    SpacingGrows(m, n);
    if u == w {
      SameSpacing(m, n, u);
    } else {
      var half := EXACT / 2;
      SpacingBounds(m);
      SpacingBounds(n);
      hide Spacing, ToMultiple;
      MultipleBetween(m, u);
      MultipleBetween(n, w);
      AtLeast(n, w, half);
      TimesMonotone(half, n / w, w);
      Below(m, u, EXACT);
      TimesMonotone(m / u + 1, EXACT, u);
      assert EXACT * u == half * (2 * u);
      TimesMonotone(2 * u, w, half);
    }
  }

  lemma AtLeast(n: nat, w: nat, k: nat)
    requires w > 0 && k * w <= n
    ensures k <= n / w
  {
    var q := n / w;
    assert (q + 1) * w == q * w + w && n == w * q + n % w;
    if q < k {
      TimesMonotone(q + 1, k, w);
    }
  }

  lemma Below(m: nat, u: nat, k: nat)
    requires u > 0 && m < k * u
    ensures m / u < k
  {
    var q := m / u;
    assert m == u * q + m % u;
    if q >= k {
      TimesMonotone(k, q, u);
    }
  }

  lemma RoundedMonotone(x: int, y: int)
    requires x <= y
    ensures Rounded(x) <= Rounded(y)
  {
    if x >= 0 {
      NearestMonotone(x, y);
    } else if y < 0 {
      NearestMonotone(-y, -x);
    }
  }

  /** Integers of at most 53 bits are converted exactly. */
  lemma SmallIsExact(x: int)
    requires -EXACT <= x <= EXACT
    ensures Rounded(x) == x
  {
    assert Spacing(EXACT) == 2 * Spacing(EXACT / 2) == 2;
    assert Nearest(EXACT) == EXACT;
  }

  /** The first integer that is not: it ties between its neighbours. */
  lemma FirstInexact()
    ensures Rounded(EXACT + 1) == EXACT
  {
    assert Spacing(EXACT + 1) == 2 * Spacing((EXACT + 1) / 2) == 2;
    assert (EXACT + 1) / 2 % 2 == 0 && (EXACT + 1) % 2 == 1;
  }

  // ----- the nearest double ------------------------------------------------------------------

  /** At most 53 significant bits, however many zeros follow. */
  ghost predicate IsDouble(n: int)
  {
    exists k: int, e: nat :: Scaled(n, k, e)
  }

  predicate Scaled(n: int, k: int, e: nat)
  {
    -EXACT <= k <= EXACT && n == k * Pow2(e)
  }

  function Distance(a: int, b: int): nat { if a < b then b - a else a - b }

  lemma {:induction false} SpacingIsPower(m: nat) returns (e: nat)
    ensures Spacing(m) == Pow2(e)
  {
    if m < EXACT {
      e := 0;
    } else {
      e := SpacingIsPower(m / 2);
      e := e + 1;
    }
  }

  lemma {:induction false} PowersNest(e: nat, f: nat) returns (q: nat)
    requires e <= f
    ensures Pow2(f) == q * Pow2(e) && q > 0 && (e < f ==> q % 2 == 0)
  {
    if e == f {
      q := 1;
    } else {
      q := PowersNest(e, f - 1);
      q := 2 * q;
    }
  }

  /** No multiple is nearer, and of two equally near the even one is taken. */
  lemma NearestMultiple(m: nat, u: nat, j: int)
    requires u > 0
    ensures Distance(ToMultiple(m, u), m) <= Distance(j * u, m)
    ensures Distance(ToMultiple(m, u), m) == Distance(j * u, m) && j * u != ToMultiple(m, u) ==>
              EvenAt(ToMultiple(m, u), u)
  {
    var q, r := m / u, m % u;
    Apart(j, q, u);
    SplitAt(m, u);
    if q % 2 == 0 {
      assert q * u == Twice(q / 2, u);
    } else {
      assert (q + 1) * u == Twice((q + 1) / 2, u);
    }
  }

  lemma SplitAt(m: nat, u: nat)
    requires u > 0
    ensures m == m / u * u + m % u && 0 <= m % u < u
  {
  }

  /** Where a multiple lies among its neighbours. */
  lemma Apart(j: int, q: nat, u: nat)
    ensures (q + 1) * u == q * u + u
    ensures j < q ==> j * u <= q * u - u
    ensures j > q + 1 ==> j * u >= q * u + 2 * u
  {
    if j < q {
      Ordered(j, q - 1, u);
      assert (q - 1) * u == q * u - u;
    } else if j > q + 1 {
      Ordered(q + 2, j, u);
      assert (q + 2) * u == q * u + 2 * u;
    }
  }

  function Twice(i: int, u: nat): int { 2 * i * u }

  lemma Ordered(p: int, q: int, u: nat)
    requires p <= q
    ensures p * u <= q * u
  {
    assert q * u - p * u == (q - p) * u;
  }

  /** A double is a multiple of the spacing, or not above the least magnitude with that spacing. */
  lemma DoubleIsMultiple(m: nat, d: int) returns (j: int)
    requires IsDouble(d)
    ensures d == j * Spacing(m) || (d < j * Spacing(m) <= m)
  {
    var k, f :| Scaled(d, k, f);
    var e := SpacingIsPower(m);
    if e <= f {
      var q := PowersNest(e, f);
      j := k * q;
      assert j * Pow2(e) == k * (q * Pow2(e));
    } else {
      var q := PowersNest(f, e);
      SpacingBounds(m);
      assert Pow2(e) > 1;
      j := EXACT / 2;
      assert EXACT * Pow2(f) <= j * Pow2(e) by { TwiceAtLeast(q, f, e); }
      Ordered(k, EXACT, Pow2(f));
    }
  }

  lemma TwiceAtLeast(q: nat, f: nat, e: nat)
    requires Pow2(e) == q * Pow2(f) && q > 0 && q % 2 == 0
    ensures EXACT * Pow2(f) <= EXACT / 2 * Pow2(e)
  {
    Ordered(2, q, Pow2(f));
    assert 2 * Pow2(f) <= Pow2(e);
    Ordered(2 * Pow2(f), Pow2(e), EXACT / 2);
  }

  /** What an integer is converted to is a double, none is nearer, and of two equally near it is the
      one of even significand. */
  lemma RoundsToNearest(x: int, d: int)
    requires IsDouble(d)
    ensures IsDouble(Rounded(x)) && Distance(Rounded(x), x) <= Distance(d, x)
    ensures Distance(Rounded(x), x) == Distance(d, x) && d != Rounded(x) ==> EvenAt(Rounded(x), Spacing(Distance(x, 0)))
  {
    if x >= 0 {
      NearestDouble(x, d);
    } else {
      Opposite(d);
      NearestDouble(-x, -d);
      Opposite(Nearest(-x));
      if EvenAt(Nearest(-x), Spacing(-x)) {
        EvenOpposite(Nearest(-x), Spacing(-x));
      }
    }
  }

  /** An even multiple. */
  ghost predicate EvenAt(n: int, u: nat)
  {
    exists i: int :: n == Twice(i, u)
  }

  lemma EvenOpposite(n: int, u: nat)
    requires EvenAt(n, u)
    ensures EvenAt(-n, u)
  {
    var i :| n == Twice(i, u);
    assert -n == Twice(-i, u);
  }

  lemma Opposite(d: int)
    requires IsDouble(d)
    ensures IsDouble(-d)
  {
    var k, e :| Scaled(d, k, e);
    assert -d == -k * Pow2(e);
    assert Scaled(-d, -k, e);
  }

  lemma NearestDouble(m: nat, d: int)
    requires IsDouble(d)
    ensures IsDouble(Nearest(m)) && Distance(Nearest(m), m) <= Distance(d, m)
    ensures Distance(Nearest(m), m) == Distance(d, m) && d != Nearest(m) ==> EvenAt(Nearest(m), Spacing(m))
  {
    var u := Spacing(m);
    NearestIsDouble(m);
    var j := DoubleIsMultiple(m, d);
    hide ToMultiple, Spacing;
    NearestMultiple(m, u, j);
  }

  lemma NearestIsDouble(m: nat)
    ensures IsDouble(Nearest(m))
  {
    var u := Spacing(m);
    var e := SpacingIsPower(m);
    SpacingBounds(m);
    Below(m, u, EXACT);
    var q := if Nearest(m) == m / u * u then m / u else m / u + 1;
    assert Scaled(Nearest(m), q, e);
  }
}
