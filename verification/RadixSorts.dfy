/** Least-significant-digit radix sort (src/radixsort.rs). */
module RadixSorts {
  import opened Integers

  const RADIX: nat := 256

  /** Byte `b` of a key: a shift and a mask. */
  function Digit(k: nat, b: nat): (d: nat)
    ensures d < RADIX
  {
    if b == 0 then k % 256 else Digit(k / 256, b - 1)
  }

  // ----- one pass as a function --------------------------------------------------------

  /** The items whose byte `b` is `d`, in order. */
  function Bucket<T>(xs: seq<T>, key: T -> U64, b: nat, d: nat): seq<T>
  {
    if xs == [] then []
    else
      var front, x := Bucket(xs[..|xs| - 1], key, b, d), xs[|xs| - 1];
      if Digit(key(x), b) == d then front + [x] else front
  }

  /** The first `n` buckets, one after the other. */
  function Buckets<T>(xs: seq<T>, key: T -> U64, b: nat, n: nat): seq<T>
  {
    if n == 0 then [] else Buckets(xs, key, b, n - 1) + Bucket(xs, key, b, n - 1)
  }

  /** The items with exactly this key, in order. */
  function ByKey<T>(xs: seq<T>, key: T -> U64, k: U64): seq<T>
  {
    if xs == [] then []
    else
      var front, x := ByKey(xs[..|xs| - 1], key, k), xs[|xs| - 1];
      if key(x) == k then front + [x] else front
  }

  ghost predicate SortedBy<T>(xs: seq<T>, key: T -> U64)
  {
    forall i, j :: 0 <= i < j < |xs| ==> key(xs[i]) <= key(xs[j])
  }

  /** A permutation that leaves items of one key in their order. */
  ghost predicate StablePermutation<T>(xs: seq<T>, ys: seq<T>, key: T -> U64)
  {
    |xs| == |ys| && forall k: U64 :: ByKey(ys, key, k) == ByKey(xs, key, k)
  }

  // --- counts

  lemma BucketTake<T>(xs: seq<T>, key: T -> U64, b: nat, d: nat, i: nat)
    requires i < |xs|
    ensures Bucket(xs[..i + 1], key, b, d) == Bucket(xs[..i], key, b, d) +
            if Digit(key(xs[i]), b) == d then [xs[i]] else []
  {
    assert xs[..i + 1][..i] == xs[..i];
  }

  lemma {:induction false} BucketGrows<T>(xs: seq<T>, key: T -> U64, b: nat, d: nat, i: nat)
    requires i <= |xs|
    ensures |Bucket(xs[..i], key, b, d)| <= |Bucket(xs, key, b, d)|
    decreases |xs| - i
  {
    if i < |xs| {
      BucketTake(xs, key, b, d, i);
      BucketGrows(xs, key, b, d, i + 1);
    } else {
      assert xs[..i] == xs;
    }
  }

  function Start<T>(xs: seq<T>, key: T -> U64, b: nat, d: nat): nat
  {
    |Buckets(xs, key, b, d)|
  }

  lemma StartNext<T>(xs: seq<T>, key: T -> U64, b: nat, d: nat)
    ensures Start(xs, key, b, d + 1) == Start(xs, key, b, d) + |Bucket(xs, key, b, d)|
  {
  }

  lemma {:induction false} StartMonotone<T>(xs: seq<T>, key: T -> U64, b: nat, d: nat, e: nat)
    requires d <= e
    ensures Start(xs, key, b, d) <= Start(xs, key, b, e)
    decreases e
  {
    if d < e {
      StartMonotone(xs, key, b, d, e - 1);
    }
  }

  lemma {:induction false} BucketsTake<T>(xs: seq<T>, key: T -> U64, b: nat, n: nat)
    requires xs != []
    ensures |Buckets(xs, key, b, n)|
            == |Buckets(xs[..|xs| - 1], key, b, n)| + if Digit(key(xs[|xs| - 1]), b) < n then 1 else 0
  {
    if n > 0 {
      BucketsTake(xs, key, b, n - 1);
    }
  }

  /** The buckets hold every item once. */
  lemma {:induction false} AllInBuckets<T>(xs: seq<T>, key: T -> U64, b: nat)
    ensures |Buckets(xs, key, b, RADIX)| == |xs|
  {
    if xs == [] {
      NoBuckets(key, b, RADIX);
    } else {
      BucketsTake(xs, key, b, RADIX);
      AllInBuckets(xs[..|xs| - 1], key, b);
    }
  }

  lemma {:induction false} NoBuckets<T>(key: T -> U64, b: nat, n: nat)
    ensures Buckets([], key, b, n) == []
  {
    if n > 0 {
      NoBuckets(key, b, n - 1);
    }
  }

  /** When one bucket holds everything the pass changes nothing. */
  lemma {:induction false} OneBucket<T>(xs: seq<T>, key: T -> U64, b: nat, d: nat, n: nat)
    requires |Bucket(xs, key, b, d)| == |xs|
    ensures Buckets(xs, key, b, n) == if d < n then xs else []
  {
    if n > 0 {
      OneBucket(xs, key, b, d, n - 1);
      FullBucket(xs, key, b, d, n - 1);
    }
  }

  lemma {:induction false} FullBucket<T>(xs: seq<T>, key: T -> U64, b: nat, d: nat, e: nat)
    requires |Bucket(xs, key, b, d)| == |xs|
    ensures Bucket(xs, key, b, e) == if e == d then xs else []
  {
    if xs != [] {
      var front := xs[..|xs| - 1];
      ShortBucket(front, key, b, d);
      FullBucket(front, key, b, d, e);
      assert xs == front + [xs[|xs| - 1]];
    }
  }

  lemma {:induction false} ShortBucket<T>(xs: seq<T>, key: T -> U64, b: nat, d: nat)
    ensures |Bucket(xs, key, b, d)| <= |xs|
  {
    if xs != [] {
      ShortBucket(xs[..|xs| - 1], key, b, d);
    }
  }

  // --- stability

  lemma ByKeySnoc<T>(xs: seq<T>, key: T -> U64, k: U64, x: T)
    ensures ByKey(xs + [x], key, k) == if key(x) == k then ByKey(xs, key, k) + [x] else ByKey(xs, key, k)
  {
    assert (xs + [x])[..|xs|] == xs;
  }

  lemma {:induction false} ByKeyConcat<T>(xs: seq<T>, ys: seq<T>, key: T -> U64, k: U64)
    ensures ByKey(xs + ys, key, k) == ByKey(xs, key, k) + ByKey(ys, key, k)
  {
    if ys == [] {
      assert xs + ys == xs;
    } else {
      var front, y := ys[..|ys| - 1], ys[|ys| - 1];
      assert xs + ys == (xs + front) + [y] && ys == front + [y];
      ByKeyConcat(xs, front, key, k);
      ByKeySnoc(xs + front, key, k, y);
    }
  }

  lemma {:induction false} ByKeyBucket<T>(xs: seq<T>, key: T -> U64, b: nat, d: nat, k: U64)
    ensures ByKey(Bucket(xs, key, b, d), key, k) == if Digit(k, b) == d then ByKey(xs, key, k) else []
  {
    if xs != [] {
      var front, x := xs[..|xs| - 1], xs[|xs| - 1];
      ByKeyBucket(front, key, b, d, k);
      if Digit(key(x), b) == d {
        ByKeySnoc(Bucket(front, key, b, d), key, k, x);
      }
    }
  }

  lemma {:induction false} ByKeyBuckets<T>(xs: seq<T>, key: T -> U64, b: nat, n: nat, k: U64)
    ensures ByKey(Buckets(xs, key, b, n), key, k) == if Digit(k, b) < n then ByKey(xs, key, k) else []
  {
    if n > 0 {
      ByKeyBuckets(xs, key, b, n - 1, k);
      ByKeyBucket(xs, key, b, n - 1, k);
      ByKeyConcat(Buckets(xs, key, b, n - 1), Bucket(xs, key, b, n - 1), key, k);
    }
  }

  /** A pass keeps the items of every key, in their order. */
  lemma PassIsStable<T>(xs: seq<T>, key: T -> U64, b: nat)
    ensures StablePermutation(xs, Buckets(xs, key, b, RADIX), key)
  {
    AllInBuckets(xs, key, b);
    forall k: U64 ensures ByKey(Buckets(xs, key, b, RADIX), key, k) == ByKey(xs, key, k) {
      ByKeyBuckets(xs, key, b, RADIX, k);
    }
  }

  lemma StableCompose<T>(xs: seq<T>, ys: seq<T>, zs: seq<T>, key: T -> U64)
    requires StablePermutation(xs, ys, key) && StablePermutation(ys, zs, key)
    ensures StablePermutation(xs, zs, key)
  {
  }

  lemma {:induction false} CountByKey<T>(xs: seq<T>, key: T -> U64, x: T)
    ensures multiset(xs)[x] == multiset(ByKey(xs, key, key(x)))[x]
  {
    if xs != [] {
      var front, last := xs[..|xs| - 1], xs[|xs| - 1];
      CountByKey(front, key, x);
      assert xs == front + [last];
    }
  }

  /** A stable permutation is a permutation. */
  lemma StableIsPermutation<T>(xs: seq<T>, ys: seq<T>, key: T -> U64)
    requires StablePermutation(xs, ys, key)
    ensures multiset(xs) == multiset(ys)
  {
    forall x: T ensures multiset(xs)[x] == multiset(ys)[x] {
      CountByKey(xs, key, x);
      CountByKey(ys, key, x);
    }
  }

  // --- order

  function PowRadix(b: nat): (r: nat)
    ensures r > 0
  {
    if b == 0 then 1 else RADIX * PowRadix(b - 1)
  }

  /** The value of the low `b` bytes. */
  function Low(k: nat, b: nat): nat
  {
    if b == 0 then 0 else Low(k, b - 1) + Digit(k, b - 1) * PowRadix(b - 1)
  }

  /** Comparing the low `b` + 1 bytes compares byte `b` first. */
  predicate LowAtMost(k: nat, m: nat, b: nat)
  {
    if b == 0 then true
    else Digit(k, b - 1) < Digit(m, b - 1) || (Digit(k, b - 1) == Digit(m, b - 1) && LowAtMost(k, m, b - 1))
  }

  ghost predicate SortedLow<T>(xs: seq<T>, key: T -> U64, b: nat)
  {
    forall i, j :: 0 <= i < j < |xs| ==> LowAtMost(key(xs[i]), key(xs[j]), b)
  }

  lemma {:induction false} BucketItems<T>(xs: seq<T>, key: T -> U64, b: nat, d: nat)
    requires SortedLow(xs, key, b)
    ensures SortedLow(Bucket(xs, key, b, d), key, b)
    ensures forall x :: x in Bucket(xs, key, b, d) ==> x in xs && Digit(key(x), b) == d
  {
    if xs != [] {
      var front, x := xs[..|xs| - 1], xs[|xs| - 1];
      BucketItems(front, key, b, d);
      forall y | y in front ensures LowAtMost(key(y), key(x), b) {
        var i :| 0 <= i < |front| && front[i] == y;
        assert xs[i] == y;
      }
    }
  }

  /** A pass on byte `b` turns order by the lower bytes into order by those and byte `b`. */
  lemma {:induction false} BucketsSorted<T>(xs: seq<T>, key: T -> U64, b: nat, n: nat)
    requires SortedLow(xs, key, b)
    ensures SortedLow(Buckets(xs, key, b, n), key, b + 1)
    ensures forall x :: x in Buckets(xs, key, b, n) ==> Digit(key(x), b) < n
  {
    if n > 0 {
      BucketsSorted(xs, key, b, n - 1);
      BucketItems(xs, key, b, n - 1);
      var a, c := Buckets(xs, key, b, n - 1), Bucket(xs, key, b, n - 1);
      forall i, j | 0 <= i < j < |a + c| ensures LowAtMost(key((a + c)[i]), key((a + c)[j]), b + 1) {
        if j >= |a| {
          assert (a + c)[j] == c[j - |a|] && c[j - |a|] in c;
          if i < |a| {
            assert (a + c)[i] == a[i] && a[i] in a;
          } else {
            assert (a + c)[i] == c[i - |a|] && c[i - |a|] in c;
          }
        }
      }
    }
  }

  lemma {:induction false} LowBelow(k: nat, b: nat)
    ensures Low(k, b) < PowRadix(b)
  {
    if b > 0 {
      LowBelow(k, b - 1);
      DigitStep(Digit(k, b - 1), RADIX, PowRadix(b - 1));
    }
  }

  lemma DigitStep(d: nat, e: nat, p: nat)
    requires d < e
    ensures d * p + p <= e * p
  {
    assert d * p + p == (d + 1) * p;
    if d + 1 < e {
      DigitStep(d, e - 1, p);
      assert e * p == (e - 1) * p + p;
    }
  }

  lemma {:induction false} LowShift(k: nat, b: nat)
    requires b > 0
    ensures Low(k, b) == k % 256 + 256 * Low(k / 256, b - 1)
  {
    LowNext(k, b - 1);
    if b == 1 {
      LowNone(k);
    } else {
      LowNext(k / 256, b - 2);
      hide Low, Digit, PowRadix;
      LowShift(k, b - 1);
      Shifted(Digit(k / 256, b - 2), PowRadix(b - 2));
    }
  }

  lemma LowNone(k: nat)
    ensures Low(k, 1) == k % 256 && Low(k / 256, 0) == 0
  {
    assert Low(k, 0) == 0 && Digit(k, 0) == k % 256 && PowRadix(0) == 1;
  }

  lemma LowNext(k: nat, b: nat)
    ensures Low(k, b + 1) == Low(k, b) + Digit(k, b) * PowRadix(b)
    ensures b > 0 ==> Digit(k, b) == Digit(k / 256, b - 1) && PowRadix(b) == 256 * PowRadix(b - 1)
  {
  }

  lemma Shifted(d: nat, p: nat)
    ensures d * (256 * p) == 256 * (d * p)
  {
  }

  /** A number that fits is made of its bytes. */
  lemma {:induction false} LowIsAll(k: nat, b: nat)
    requires k < PowRadix(b)
    ensures Low(k, b) == k
  {
    if b > 0 {
      LowShift(k, b);
      LowIsAll(k / 256, b - 1);
    }
  }

  /** Byte by byte order, most significant first, is the order of the low bytes. */
  lemma {:induction false} LowOrder(k: nat, m: nat, b: nat)
    requires LowAtMost(k, m, b)
    ensures Low(k, b) <= Low(m, b)
  {
    if b > 0 {
      if Digit(k, b - 1) < Digit(m, b - 1) {
        LowBelow(k, b - 1);
        DigitStep(Digit(k, b - 1), Digit(m, b - 1), PowRadix(b - 1));
      } else {
        LowOrder(k, m, b - 1);
      }
    }
  }

  /** Order by all eight bytes is order by key. */
  lemma SortedByAll<T>(xs: seq<T>, key: T -> U64)
    requires SortedLow(xs, key, 8)
    ensures SortedBy(xs, key)
  {
    EightBytes();
    forall i, j | 0 <= i < j < |xs| ensures key(xs[i]) <= key(xs[j]) {
      LowOrder(key(xs[i]), key(xs[j]), 8);
      LowIsAll(key(xs[i]), 8);
      LowIsAll(key(xs[j]), 8);
      hide LowAtMost, Low, PowRadix;
    }
  }

  lemma EightBytes()
    ensures PowRadix(8) == U64_LIMIT
  {
    assert PowRadix(4) == 0x1_0000_0000;
  }

  // ----- one pass as a loop ------------------------------------------------------------------

  /** The part of bucket `d` found among the first `i` items is in place. */
  ghost predicate InPlace<T>(dst: seq<T>, xs: seq<T>, key: T -> U64, b: nat, i: nat, d: nat)
    requires i <= |xs|
  {
    var start, part := Start(xs, key, b, d), Bucket(xs[..i], key, b, d);
    start + |part| <= |dst| && dst[start..start + |part|] == part
  }

  /** Where the next item of bucket `d` goes. */
  ghost function Next<T>(xs: seq<T>, key: T -> U64, b: nat, i: nat, d: nat): nat
    requires i <= |xs|
  {
    Start(xs, key, b, d) + |Bucket(xs[..i], key, b, d)|
  }

  /** Lines 28-32 and 74-78: how many items each bucket gets, one place further on. */
  method CountDigits<T>(src: array<T>, key: T -> U64, b: nat) returns (counts: array<nat>)
    ensures fresh(counts) && counts.Length == RADIX + 1
    ensures counts[0] == 0 && forall d :: 1 <= d <= RADIX ==> counts[d] == |Bucket(src[..], key, b, d - 1)|
  {
    counts := new nat[RADIX + 1](_ => 0);
    ghost var xs := src[..];
    for i := 0 to src.Length
      invariant fresh(counts) && src[..] == xs && counts[0] == 0
      invariant forall d :: 1 <= d <= RADIX ==> counts[d] == |Bucket(xs[..i], key, b, d - 1)|
    {
      CountStep(xs, key, b, i);
      var bucket := Digit(key(src[i]), b);
      counts[bucket + 1] := counts[bucket + 1] + 1;
    }
    assert xs[..src.Length] == xs;
  }

  lemma CountStep<T>(xs: seq<T>, key: T -> U64, b: nat, i: nat)
    requires i < |xs|
    ensures forall d :: 0 <= d < RADIX ==>
      |Bucket(xs[..i + 1], key, b, d)| == |Bucket(xs[..i], key, b, d)| + if Digit(key(xs[i]), b) == d then 1 else 0
  {
    forall d | 0 <= d < RADIX
      ensures |Bucket(xs[..i + 1], key, b, d)| == |Bucket(xs[..i], key, b, d)| + if Digit(key(xs[i]), b)
              == d then 1 else 0
    {
      BucketTake(xs, key, b, d, i);
    }
  }

  /** Lines 33-35: counts become starting places. */
  method PrefixSums<T>(counts: array<nat>, ghost xs: seq<T>, ghost key: T -> U64, ghost b: nat)
    requires counts.Length == RADIX + 1 && counts[0] == 0
    requires forall d :: 1 <= d <= RADIX ==> counts[d] == |Bucket(xs, key, b, d - 1)|
    modifies counts
    ensures forall d :: 0 <= d <= RADIX ==> counts[d] == Start(xs, key, b, d)
  {
    for i := 0 to RADIX
      invariant forall d :: 0 <= d <= i ==> counts[d] == Start(xs, key, b, d)
      invariant forall d :: i < d <= RADIX ==> counts[d] == |Bucket(xs, key, b, d - 1)|
    {
      StartNext(xs, key, b, i);
      counts[i + 1] := counts[i + 1] + counts[i];
    }
  }

  /** Lines 36-40: items go to their buckets, in order. */
  method Scatter<T>(src: array<T>, dst: array<T>, key: T -> U64, b: nat, counts: array<nat>)
    requires src != dst && src.Length == dst.Length && counts.Length == RADIX + 1
    requires (counts as object) != src && (counts as object) != dst
    requires forall d :: 0 <= d <= RADIX ==> counts[d] == Start(src[..], key, b, d)
    modifies dst, counts
    ensures dst[..] == Buckets(old(src[..]), key, b, RADIX) && src[..] == old(src[..])
  {
    hide InPlace, Next, Digit;
    ghost var xs := src[..];
    StartScatter(xs, dst[..], key, b);
    for i := 0 to src.Length
      invariant src[..] == xs
      invariant forall d :: 0 <= d < RADIX ==> counts[d] == Next(xs, key, b, i, d)
      invariant forall d :: 0 <= d < RADIX ==> InPlace(dst[..], xs, key, b, i, d)
    {
      var bucket := Digit(key(src[i]), b);
      ghost var after := ScatterStep(xs, dst[..], key, b, i, i + 1, bucket);
      dst[counts[bucket]] := src[i];
      assert dst[..] == after;
      counts[bucket] := counts[bucket] + 1;
      assert dst[..] == after;
    }
    ScatterDone(xs, dst[..], key, b, RADIX);
  }

  lemma StartScatter<T>(xs: seq<T>, dst: seq<T>, key: T -> U64, b: nat)
    requires |dst| == |xs|
    ensures forall d :: 0 <= d < RADIX ==>
            InPlace(dst, xs, key, b, 0, d) && Next(xs, key, b, 0, d) == Start(xs, key, b, d)
  {
    AllInBuckets(xs, key, b);
    forall d | 0 <= d < RADIX ensures InPlace(dst, xs, key, b, 0, d) && Next(xs, key, b, 0, d) == Start(xs, key, b, d) {
      StartMonotone(xs, key, b, d, RADIX);
      var start := Start(xs, key, b, d);
      assert xs[..0] == [] && dst[start..start + 0] == [];
    }
  }

  lemma ScatterStep<T>(xs: seq<T>, dst: seq<T>, key: T -> U64, b: nat, i: nat, next: nat, e: nat)
    returns (after: seq<T>)
    requires |dst| == |xs| && i < |xs| && next == i + 1 && e == Digit(key(xs[i]), b)
    requires forall d :: 0 <= d < RADIX ==> InPlace(dst, xs, key, b, i, d)
    ensures Next(xs, key, b, i, e) < |dst| && after == dst[Next(xs, key, b, i, e) := xs[i]]
    ensures forall d :: 0 <= d < RADIX ==> InPlace(after, xs, key, b, next, d)
    ensures forall d :: 0 <= d < RADIX ==> Next(xs, key, b, next, d) == Next(xs, key, b, i, d) + if d == e then 1 else 0
  {
    var at := Next(xs, key, b, i, e);
    Within(xs, key, b, i, e);
    AllInBuckets(xs, key, b);
    StartMonotone(xs, key, b, e + 1, RADIX);
    after := dst[at := xs[i]];
    forall d | 0 <= d < RADIX
      ensures InPlace(after, xs, key, b, next, d)
              && Next(xs, key, b, next, d) == Next(xs, key, b, i, d) + if d == e then 1 else 0
    {
      assert InPlace(dst, xs, key, b, i, d);
      OtherBucket(xs, dst, key, b, i, e, d);
    }
    hide InPlace, Next;
  }

  /** The place for an item lies before the next bucket. */
  lemma Within<T>(xs: seq<T>, key: T -> U64, b: nat, i: nat, e: nat)
    requires i < |xs| && e == Digit(key(xs[i]), b)
    ensures Next(xs, key, b, i, e) + 1 <= Start(xs, key, b, e + 1)
  {
    BucketTake(xs, key, b, e, i);
    BucketGrows(xs, key, b, e, i + 1);
    StartNext(xs, key, b, e);
  }

  lemma OtherBucket<T>(xs: seq<T>, dst: seq<T>, key: T -> U64, b: nat, i: nat, e: nat, d: nat)
    requires i < |xs| && e == Digit(key(xs[i]), b) && InPlace(dst, xs, key, b, i, d) && Next(xs, key, b, i, e) < |dst|
    ensures var at := Next(xs, key, b, i, e);
            InPlace(dst[at := xs[i]], xs, key, b, i + 1, d) && Next(xs, key, b, i + 1, d) ==
              if d == e then at + 1 else Next(xs, key, b, i, d)
  {
    var at, start, part := Next(xs, key, b, i, e), Start(xs, key, b, d), Bucket(xs[..i], key, b, d);
    BucketTake(xs, key, b, d, i);
    if d == e {
      assert dst[at := xs[i]][start..start + |part| + 1] == part + [xs[i]];
    } else {
      Apart(xs, key, b, i, e, d);
      assert dst[at := xs[i]][start..start + |part|] == dst[start..start + |part|];
    }
  }

  /** Different buckets have different places. */
  lemma Apart<T>(xs: seq<T>, key: T -> U64, b: nat, i: nat, e: nat, d: nat)
    requires i < |xs| && e == Digit(key(xs[i]), b) && d != e
    ensures Next(xs, key, b, i, e) < Start(xs, key, b, d) || Next(xs, key, b, i, d) <= Next(xs, key, b, i, e)
  {
    if d < e {
      BucketGrows(xs, key, b, d, i);
      StartNext(xs, key, b, d);
      StartMonotone(xs, key, b, d + 1, e);
    } else {
      Within(xs, key, b, i, e);
      StartMonotone(xs, key, b, e + 1, d);
    }
  }

  lemma {:induction false} ScatterDone<T>(xs: seq<T>, dst: seq<T>, key: T -> U64, b: nat, n: nat)
    requires |dst| == |xs| && n <= RADIX && forall d :: 0 <= d < RADIX ==> InPlace(dst, xs, key, b, |xs|, d)
    ensures Start(xs, key, b, n) <= |dst| && dst[..Start(xs, key, b, n)] == Buckets(xs, key, b, n)
    ensures n == RADIX ==> dst == Buckets(xs, key, b, n)
  {
    AllInBuckets(xs, key, b);
    StartMonotone(xs, key, b, n, RADIX);
    if n > 0 {
      ScatterDone(xs, dst, key, b, n - 1);
      assert InPlace(dst, xs, key, b, |xs|, n - 1) && xs[..|xs|] == xs;
      StartNext(xs, key, b, n - 1);
      var s, t := Start(xs, key, b, n - 1), Start(xs, key, b, n);
      assert dst[..t] == dst[..s] + dst[s..t];
    }
    if n == RADIX {
      assert dst[..|dst|] == dst;
    }
  }

  lemma SortedStart<T>(xs: seq<T>, key: T -> U64)
    ensures SortedLow(xs, key, 0) && StablePermutation(xs, xs, key) && (|xs| < 2 ==> SortedBy(xs, key))
  {
  }

  method CountingPass<T>(src: array<T>, dst: array<T>, key: T -> U64, b: nat)
    requires src != dst && src.Length == dst.Length
    modifies dst
    ensures dst[..] == Buckets(old(src[..]), key, b, RADIX) && src[..] == old(src[..])
  {
    var counts := CountDigits(src, key, b);
    PrefixSums(counts, src[..], key, b);
    Scatter(src, dst, key, b, counts);
  }

  // ----- the sorts -----------------------------------------------------------------------------

  lemma OneMorePass<T>(xs: seq<T>, ys: seq<T>, key: T -> U64, b: nat)
    requires StablePermutation(xs, ys, key) && SortedLow(ys, key, b)
    ensures StablePermutation(xs, Buckets(ys, key, b, RADIX), key) && SortedLow(Buckets(ys, key, b, RADIX), key, b + 1)
  {
    PassIsStable(ys, key, b);
    StableCompose(xs, ys, Buckets(ys, key, b, RADIX), key);
    BucketsSorted(ys, key, b, RADIX);
    hide StablePermutation, SortedLow;
  }

  /** Lines 18-44: eight passes between the slice and a buffer end in the slice. */
  method SortU64(keys: array<U64>)
    modifies keys
    ensures SortedBy(keys[..], Itself) && multiset(keys[..]) == multiset(old(keys[..]))
  {
    ghost var xs := keys[..];
    if keys.Length < 2 {
      return;
    }
    var buffer := new U64[keys.Length](_ => 0);
    var src, dst := keys, buffer;
    for b := 0 to 8
      invariant src != dst && src.Length == dst.Length == keys.Length
      invariant if b % 2 == 0 then src == keys && dst == buffer else src == buffer && dst == keys
      invariant StablePermutation(xs, src[..], Itself) && SortedLow(src[..], Itself, b)
    {
      OneMorePass(xs, src[..], Itself, b);
      CountingPass(src, dst, Itself, b);
      src, dst := dst, src;
    }
    SortedByAll(keys[..], Itself);
    StableIsPermutation(xs, keys[..], Itself);
  }

  function Itself(k: U64): U64 { k }

  /** Lines 47-49: the sign bit flipped. */
  function ToSortable(k: I64): U64
  {
    k - I64_MIN
  }

  /** Lines 52-54. */
  function FromSortable(u: U64): I64
  {
    u + I64_MIN
  }

  /** The flip keeps the order and is its own inverse. */
  lemma SortableOrder(a: I64, b: I64, u: U64)
    ensures a <= b <==> ToSortable(a) <= ToSortable(b)
    ensures FromSortable(ToSortable(a)) == a && ToSortable(FromSortable(u)) == u
  {
  }

  function Mapped(xs: seq<I64>): (r: seq<U64>)
    ensures |r| == |xs| && forall i :: 0 <= i < |xs| ==> r[i] == ToSortable(xs[i])
  {
    seq(|xs|, i requires 0 <= i < |xs| => ToSortable(xs[i]))
  }

  lemma {:induction false} MappedCount(xs: seq<I64>, x: I64)
    ensures multiset(Mapped(xs))[ToSortable(x)] == multiset(xs)[x]
  {
    if xs != [] {
      var front, last := xs[..|xs| - 1], xs[|xs| - 1];
      MappedCount(front, x);
      assert xs == front + [last] && Mapped(xs) == Mapped(front) + [ToSortable(last)];
    }
  }

  lemma MappedPermutation(xs: seq<I64>, ys: seq<I64>)
    requires multiset(Mapped(xs)) == multiset(Mapped(ys))
    ensures multiset(xs) == multiset(ys)
  {
    var a, b := multiset(xs), multiset(ys);
    forall x: I64 ensures a[x] == b[x] {
      MappedCount(xs, x);
      MappedCount(ys, x);
    }
  }

  /** Lines 57-63. */
  method SortI64(keys: array<I64>)
    modifies keys
    ensures forall i, j :: 0 <= i < j < keys.Length ==> keys[i] <= keys[j]
    ensures multiset(keys[..]) == multiset(old(keys[..]))
  {
    ghost var xs := keys[..];
    var mapped := new U64[keys.Length](i requires 0 <= i < keys.Length reads keys => ToSortable(keys[i]));
    assert mapped[..] == Mapped(xs);
    SortU64(mapped);
    ghost var us := mapped[..];
    for i := 0 to keys.Length
      invariant mapped[..] == us && forall j :: 0 <= j < i ==> keys[j] == FromSortable(us[j])
    {
      keys[i] := FromSortable(mapped[i]);
    }
    assert Mapped(keys[..]) == us;
    MappedPermutation(xs, keys[..]);
  }

  type Pair = (U64, nat)

  function KeyOf(p: Pair): U64 { p.0 }

  /** Line 79: is some count the number of items? */
  method HasFullBucket(counts: array<nat>, n: nat) returns (full: bool, ghost e: nat)
    requires counts.Length == RADIX + 1
    ensures full <==> exists d :: 1 <= d <= RADIX && counts[d] == n
    ensures full ==> 1 <= e <= RADIX && counts[e] == n
  {
    full, e := false, 0;
    for d := 1 to RADIX + 1
      invariant full ==> 1 <= e <= RADIX && counts[e] == n
      invariant !full ==> forall c :: 1 <= c < d ==> counts[c] != n
    {
      if counts[d] == n {
        full, e := true, d;
      }
    }
  }

  /** Lines 66-92: as above, but a pass that would put everything in one bucket is
      skipped. The result is returned in whichever of the two buffers holds it. */
  method SortPairs(pairs: array<Pair>) returns (sorted: array<Pair>)
    modifies pairs
    ensures sorted.Length == pairs.Length && SortedBy(sorted[..], KeyOf)
    ensures StablePermutation(old(pairs[..]), sorted[..], KeyOf)
  {
    hide Buckets, Bucket, Digit, SortedLow, StablePermutation, Start;
    ghost var xs := pairs[..];
    SortedStart(xs, KeyOf);
    sorted := pairs;
    if pairs.Length < 2 {
      return;
    }
    var buffer := new Pair[pairs.Length](_ => (0, 0));
    var spare := buffer;
    for b := 0 to 8
      invariant sorted != spare && (sorted == pairs || sorted == buffer) && (spare == pairs || spare == buffer)
      invariant sorted.Length == spare.Length == pairs.Length
      invariant StablePermutation(xs, sorted[..], KeyOf) && SortedLow(sorted[..], KeyOf, b)
    {
      OneMorePass(xs, sorted[..], KeyOf, b);
      var counts := CountDigits(sorted, KeyOf, b);
      ghost var e;
      var full;
      full, e := HasFullBucket(counts, sorted.Length);
      if full {
        OneBucket(sorted[..], KeyOf, b, e - 1, RADIX);
        continue;
      }
      PrefixSums(counts, sorted[..], KeyOf, b);
      Scatter(sorted, spare, KeyOf, b, counts);
      sorted, spare := spare, sorted;
    }
    SortedByAll(sorted[..], KeyOf);
  }
}
