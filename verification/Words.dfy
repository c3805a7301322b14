/** 64-bit words as sets of bit positions. */
module Words {
  function And(a: bv64, b: bv64): bv64 { a & b }

  function Or(a: bv64, b: bv64): bv64 { a | b }

  /** `a & !b`. */
  function AndNot(a: bv64, b: bv64): bv64 { a & !b }

  function Twice(m: bv64): bv64 { m << 1 }

  function Sixteenfold(m: bv64): bv64 { m << 4 }

  /** `1u64 << b`. */
  function Mask(b: nat): bv64
  {
    if b == 0 then 1 else Twice(Mask(b - 1))
  }

  /** Bit `b` of `w` is set. */
  predicate Bit(w: bv64, b: nat)
  {
    And(w, Mask(b)) != 0
  }

  predicate Single(m: bv64)
  {
    m != 0 && m & (m - 1) == 0
  }

  predicate Less(a: bv64, b: bv64) { a < b }

  // ----- facts about single operations, for the solver's bit-vector theory ----

  lemma TwiceFour(m: bv64)
    ensures Twice(Twice(Twice(Twice(m)))) == Sixteenfold(m)
  {
  }

  lemma TwiceZero(m: bv64)
    requires Twice(m) != 0
    ensures m != 0
  {
  }

  lemma TwiceSingle(m: bv64)
    requires Single(m) && Twice(m) != 0
    ensures Single(Twice(m)) && Less(m, Twice(m))
  {
  }

  lemma LessTrans(a: bv64, b: bv64, c: bv64)
    requires Less(a, b) && Less(b, c)
    ensures Less(a, c)
  {
  }

  lemma LessDiffers(a: bv64, b: bv64)
    requires Less(a, b)
    ensures a != b
  {
  }

  lemma SinglesMeet(a: bv64, b: bv64)
    requires Single(a) && Single(b)
    ensures And(a, b) != 0 <==> a == b
  {
  }

  lemma MeetsLeft(a: bv64, b: bv64, m: bv64)
    requires And(a, m) != 0
    ensures And(Or(a, b), m) != 0 && And(Or(b, a), m) != 0
  {
  }

  lemma MeetsNeither(a: bv64, b: bv64, m: bv64)
    requires And(a, m) == 0 && And(b, m) == 0
    ensures And(Or(a, b), m) == 0
  {
  }

  lemma ClearMeets(a: bv64, b: bv64, m: bv64)
    requires And(b, m) == 0
    ensures And(AndNot(a, b), m) == And(a, m)
  {
  }

  lemma ClearSelf(a: bv64, m: bv64)
    ensures And(AndNot(a, m), m) == 0
  {
  }

  lemma ZeroMeets(m: bv64)
    ensures And(0, m) == 0
  {
  }

  // ----- the masks of the 64 positions are distinct single bits ---------------

  lemma MaskFour(b: nat)
    ensures Mask(b + 4) == Sixteenfold(Mask(b))
  {
    hide Twice, Sixteenfold;
    assert Mask(b + 2) == Twice(Mask(b + 1));
    assert Mask(b + 4) == Twice(Mask(b + 3));
    TwiceFour(Mask(b));
  }

  /** Shifting 63 times does not push the bit out of the word. */
  lemma MaskTop()
    ensures Mask(63) != 0
  {
    MaskFour(0);
    MaskFour(4);
    MaskFour(8);
    MaskFour(12);
    MaskFour(16);
    MaskFour(20);
    MaskFour(24);
    MaskFour(28);
    MaskFour(32);
    MaskFour(36);
    MaskFour(40);
    MaskFour(44);
    MaskFour(48);
    MaskFour(52);
    MaskFour(56);
    assert Mask(0) == 1;
    assert Mask(62) == Twice(Mask(61));
    assert Mask(61) == Twice(Mask(60));
  }

  lemma {:induction false} MaskNonzero(b: nat)
    requires b < 64
    ensures Mask(b) != 0
    decreases 64 - b
  {
    if b == 63 {
      MaskTop();
    } else {
      hide Twice;
      MaskNonzero(b + 1);
      TwiceZero(Mask(b));
    }
  }

  lemma {:induction false} MaskSingle(b: nat)
    requires b < 64
    ensures Single(Mask(b))
  {
    if b > 0 {
      hide Twice, Single;
      MaskSingle(b - 1);
      MaskNonzero(b);
      TwiceSingle(Mask(b - 1));
    }
  }

  lemma {:induction false} MaskGrows(i: nat, j: nat)
    requires i < j < 64
    ensures Less(Mask(i), Mask(j))
  {
    hide Twice, Single, Less;
    MaskSingle(j - 1);
    MaskNonzero(j);
    TwiceSingle(Mask(j - 1));
    if i < j - 1 {
      MaskGrows(i, j - 1);
      LessTrans(Mask(i), Mask(j - 1), Mask(j));
    }
  }

  lemma MasksMeet(i: nat, j: nat)
    requires i < 64 && j < 64
    ensures And(Mask(i), Mask(j)) != 0 <==> i == j
  {
    hide Mask, Single, And, Less;
    MaskSingle(i);
    MaskSingle(j);
    if i < j {
      MaskGrows(i, j);
      LessDiffers(Mask(i), Mask(j));
    } else if j < i {
      MaskGrows(j, i);
      LessDiffers(Mask(j), Mask(i));
    }
    SinglesMeet(Mask(i), Mask(j));
  }

  // ----- what the word operations do to the bits -------------------------------

  /** `a | b` unites the bits. */
  lemma OrBits(a: bv64, b: bv64, i: nat)
    ensures Bit(Or(a, b), i) <==> Bit(a, i) || Bit(b, i)
  {
    hide Mask, And, Or;
    if Bit(a, i) {
      MeetsLeft(a, b, Mask(i));
    } else if Bit(b, i) {
      MeetsLeft(b, a, Mask(i));
    } else {
      MeetsNeither(a, b, Mask(i));
    }
  }

  /** `w | 1 << j` adds bit `j` and nothing else. */
  lemma SetBit(w: bv64, j: nat, i: nat)
    requires i < 64 && j < 64
    ensures Bit(Or(w, Mask(j)), i) <==> Bit(w, i) || i == j
  {
    hide Mask, And, Or;
    MasksMeet(j, i);
    OrBits(w, Mask(j), i);
  }

  /** `w & !(1 << j)` removes bit `j` and nothing else. */
  lemma ClearBit(w: bv64, j: nat, i: nat)
    requires i < 64 && j < 64
    ensures Bit(AndNot(w, Mask(j)), i) <==> Bit(w, i) && i != j
  {
    hide Mask, And, AndNot;
    if i == j {
      ClearSelf(w, Mask(i));
    } else {
      MasksMeet(j, i);
      ClearMeets(w, Mask(j), Mask(i));
    }
  }

  lemma ZeroBits(i: nat)
    ensures !Bit(0, i)
  {
    hide Mask, And;
    ZeroMeets(Mask(i));
  }
}
