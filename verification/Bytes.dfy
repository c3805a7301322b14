/** Byte strings: little-endian integers, base-128 varints and zig-zag (src/encoding.rs,
    lines 90-152). */
module Bytes {
  import opened Integers
  import opened Options

  type Buffer = seq<Byte>

  // ----- fixed width -----------------------------------------------------------------

  /** The low `n` bytes, least significant first. */
  function Le(x: nat, n: nat): (r: Buffer)
    ensures |r| == n
  {
    if n == 0 then [] else [x % 256] + Le(x / 256, n - 1)
  }

  function FromLe(b: Buffer): nat
  {
    if b == [] then 0 else b[0] + 256 * FromLe(b[1..])
  }

  function Pow256(n: nat): nat
  {
    if n == 0 then 1 else 256 * Pow256(n - 1)
  }

  lemma {:induction false} FromLeOfLe(x: nat, n: nat)
    requires x < Pow256(n)
    ensures FromLe(Le(x, n)) == x
  {
    if n > 0 {
      FromLeOfLe(x / 256, n - 1);
      assert Le(x, n)[1..] == Le(x / 256, n - 1);
    }
  }

  lemma {:induction false} FromLeBound(b: Buffer)
    ensures FromLe(b) < Pow256(|b|)
  {
    if b != [] {
      FromLeBound(b[1..]);
    }
  }

  function Unsigned(x: I64): U64
  {
    if x < 0 then x + U64_LIMIT else x
  }

  function Signed(x: U64): I64
  {
    if x > I64_MAX then x - U64_LIMIT else x
  }

  function LeI64(x: I64): (r: Buffer)
    ensures |r| == 8
  {
    Le(Unsigned(x), 8)
  }

  function FromLeI64(b: Buffer): I64
  {
    Signed(FromLe(b) % U64_LIMIT)
  }

  lemma FromLeI64OfLe(x: I64)
    ensures FromLeI64(LeI64(x)) == x
  {
    Pow256Is64();
    FromLeOfLe(Unsigned(x), 8);
  }

  lemma Pow256Is64()
    ensures Pow256(4) == 0x1_0000_0000 && Pow256(8) == U64_LIMIT
  {
    assert Pow256(4) == 256 * (256 * (256 * (256 * Pow256(0))));
    assert Pow256(8) == 256 * (256 * (256 * (256 * Pow256(4))));
  }

  // ----- varints -----------------------------------------------------------------------

  /** Seven bits a byte, low bits first, the top bit set on all bytes but the last. */
  function Varint(x: nat): (r: Buffer)
    ensures |r| > 0
  {
    if x < 128 then [x] else [x % 128 + 128] + Varint(x / 128)
  }

  /** Lines 119-125. */
  method WriteVarint(out0: Buffer, value: U64) returns (out: Buffer)
    ensures out == out0 + Varint(value)
  {
    out := out0;
    var v: nat := value;
    while v >= 128
      invariant out + Varint(v) == out0 + Varint(value)
    {
      assert out + ([v % 128 + 128] + Varint(v / 128)) == (out + [v % 128 + 128]) + Varint(v / 128);
      out := out + [v % 128 + 128];
      v := v / 128;
    }
    out := out + [v];
  }

  /** A left shift. */
  function Shifted(x: nat, shift: nat): nat
  {
    x * Pow2(shift)
  }

  /** The value of the varint starting at `pos`, and the position after it, read with the
      accumulated `result` and `shift`. None where the buffer ends inside it or it runs
      past ten bytes. */
  function ReadFrom(buf: Buffer, pos: nat, result: nat, shift: nat): (r: Option<(U64, nat)>)
    requires result < U64_LIMIT
    ensures r.Some? ==> pos < r.value.1 <= |buf|
    decreases |buf| - pos
  {
    if pos >= |buf| then None
    else
      var b := buf[pos];
      var next := (result + Shifted(b % 128, shift)) % U64_LIMIT;
      if b < 128 then Some((next, pos + 1))
      else if shift + 7 >= 64 then None
      else ReadFrom(buf, pos + 1, next, shift + 7)
  }

  function Read(buf: Buffer, pos: nat): (r: Option<(U64, nat)>)
    ensures r.Some? ==> pos < r.value.1 <= |buf|
  {
    ReadFrom(buf, pos, 0, 0)
  }

  /** Lines 129-143. */
  method ReadVarint(buf: Buffer, start: nat) returns (r: Option<(U64, nat)>)
    ensures r == Read(buf, start)
  {
    var result: nat, shift: nat := 0, 0;
    var i := start;
    while i < |buf|
      invariant start <= i && result < U64_LIMIT && (i <= |buf| || i == start)
      invariant Read(buf, start) == ReadFrom(buf, i, result, shift)
    {
      var b := buf[i];
      result := (result + Shifted(b % 128, shift)) % U64_LIMIT;
      if b < 128 {
        return Some((result, i + 1));
      }
      shift := shift + 7;
      if shift >= 64 {
        return None;
      }
      i := i + 1;
    }
    return None;
  }

  lemma Pow2Add(a: nat, b: nat)
    ensures Pow2(a + b) == Pow2(a) * Pow2(b)
    decreases b
  {
    if b > 0 {
      Pow2Add(a, b - 1);
      assert Pow2(a + b) == 2 * (Pow2(a) * Pow2(b - 1)) == Pow2(a) * (2 * Pow2(b - 1));
    }
  }

  lemma Pow2Monotone(a: nat, b: nat)
    requires a <= b
    ensures Pow2(a) <= Pow2(b)
    decreases b
  {
    if a < b {
      Pow2Monotone(a, b - 1);
    }
  }

  lemma Pow2Is64()
    ensures Pow2(7) == 128 && Pow2(16) == 65536 && Pow2(64) == U64_LIMIT
  {
    SmallPowers();
    hide Pow2;
    Pow2Add(7, 7);
    Pow2Add(14, 2);
    Pow2Add(16, 16);
    Pow2Add(32, 32);
  }

  lemma SmallPowers()
    ensures Pow2(2) == 4 && Pow2(7) == 128
  {
  }

  /** Reading what was written, in any context. */
  lemma {:induction false} ReadWritten(pre: Buffer, x: nat, post: Buffer, result: nat, shift: nat)
    requires result < Pow2(shift) && result + Shifted(x, shift) < U64_LIMIT && (shift < 64 || x == 0)
    ensures ReadFrom(pre + Varint(x) + post, |pre|, result, shift)
            == Some((result + Shifted(x, shift), |pre| + |Varint(x)|))
    decreases x
  {
    if x < 128 {
      LastByte(pre, x, post, result, shift);
    } else {
      hide *;
      var low, high := x % 128, x / 128;
      ShiftStep(x, shift, result);
      ReadWritten(pre + [low + 128], high, post, result + Shifted(low, shift), shift + 7);
      FirstByte(pre, x, post, result, shift);
    }
  }

  lemma LastByte(pre: Buffer, x: nat, post: Buffer, result: nat, shift: nat)
    requires x < 128 && result + Shifted(x, shift) < U64_LIMIT && result < U64_LIMIT
    ensures ReadFrom(pre + Varint(x) + post, |pre|, result, shift)
            == Some((result + Shifted(x, shift), |pre| + |Varint(x)|))
  {
    hide Shifted;
    var buf := pre + Varint(x) + post;
    assert buf[|pre|] == x && x % 128 == x;
  }

  lemma FirstByte(pre: Buffer, x: nat, post: Buffer, result: nat, shift: nat)
    requires 128 <= x && result < U64_LIMIT && result + Shifted(x % 128, shift) < U64_LIMIT && shift + 7 < 64
    ensures |pre + [x % 128 + 128]| == |pre| + 1 && |Varint(x)| == 1 + |Varint(x / 128)|
    ensures ReadFrom(pre + Varint(x) + post, |pre|, result, shift)
         == ReadFrom((pre + [x % 128 + 128]) + Varint(x / 128) + post, |pre| + 1, result + Shifted(x % 128, shift),
           shift + 7)
  {
    hide Shifted;
    var low, high := x % 128, x / 128;
    assert pre + Varint(x) + post == (pre + [low + 128]) + Varint(high) + post;
    assert (pre + Varint(x) + post)[|pre|] == low + 128;
  }

  lemma ShiftStep(x: nat, shift: nat, result: nat)
    requires 128 <= x && result < Pow2(shift) && result + Shifted(x, shift) < U64_LIMIT
    ensures var low, high := x % 128, x / 128;
            result + Shifted(low, shift) < Pow2(shift + 7) && result + Shifted(low, shift) < U64_LIMIT
            && (result + Shifted(low, shift)) + Shifted(high, shift + 7) == result + Shifted(x, shift) && shift + 7 < 64
  {
    var p := Pow2(shift);
    hide Pow2;
    Pow2Is64();
    Pow2Add(shift, 7);
    SplitProduct(p, x, result);
    if shift + 7 >= 64 {
      Pow2Monotone(64, shift + 7);
    }
  }

  lemma SplitProduct(p: nat, x: nat, result: nat)
    requires 128 <= x && result < p && result + x * p < U64_LIMIT
    ensures var low, high := x % 128, x / 128;
            result + low * p < p * 128 && result + low * p < U64_LIMIT
            && (result + low * p) + high * (p * 128) == result + x * p && p * 128 < U64_LIMIT
  {
    var low, high := x % 128, x / 128;
    Product(low, high, p);
    LessProduct(low, 127, p);
    LessProduct(128, x, p);
    LessProduct(low, x, p);
  }

  lemma Product(low: nat, high: nat, p: nat)
    ensures (low + 128 * high) * p == low * p + high * (p * 128)
  {
  }

  lemma LessProduct(a: nat, b: nat, p: nat)
    requires a <= b
    ensures a * p <= b * p
  {
  }

  lemma VarintRoundTrip(pre: Buffer, x: U64, post: Buffer)
    ensures Read(pre + Varint(x) + post, |pre|) == Some((x, |pre| + |Varint(x)|))
  {
    assert Pow2(0) == 1 && Shifted(x, 0) == x;
    ReadWritten(pre, x, post, 0, 0);
  }

  // ----- zig-zag -------------------------------------------------------------------------

  /** Lines 109-111: 0, -1, 1, -2, ... as 0, 1, 2, 3, ... */
  function ZigZag(x: I64): U64
  {
    if x >= 0 then 2 * x else -2 * x - 1
  }

  /** Lines 114-116. */
  function UnZigZag(u: U64): I64
  {
    if u % 2 == 0 then u / 2 else -(u / 2) - 1
  }

  lemma ZigZagRoundTrip(x: I64)
    ensures UnZigZag(ZigZag(x)) == x
  {
    if x >= 0 {
      Halves(x);
    } else {
      var m: int := x;
      Halves(-m - 1);
    }
  }

  lemma Halves(n: nat)
    ensures (2 * n) % 2 == 0 && (2 * n) / 2 == n && (2 * n + 1) % 2 == 1 && (2 * n + 1) / 2 == n
  {
  }

  // ----- runs of varints -----------------------------------------------------------------

  /** The varints of a list, one after the other. */
  function Varints(xs: seq<U64>): Buffer
  {
    if xs == [] then [] else Varints(xs[..|xs| - 1]) + Varint(xs[|xs| - 1])
  }

  /** `n` varints from `pos` on, and the position after them. */
  function ReadMany(buf: Buffer, pos: nat, n: nat): (r: Option<(seq<U64>, nat)>)
    ensures r.Some? ==> |r.value.0| == n && pos <= r.value.1
  {
    if n == 0 then Some(([], pos))
    else
      var front := ReadMany(buf, pos, n - 1);
      if front.None? then None
      else
        var last := Read(buf, front.value.1);
        if last.None? then None else Some((front.value.0 + [last.value.0], last.value.1))
  }

  lemma {:induction false} ReadManyFails(buf: Buffer, pos: nat, n: nat, m: nat)
    requires ReadMany(buf, pos, n).None? && n <= m
    ensures ReadMany(buf, pos, m).None?
    decreases m
  {
    if n < m {
      ReadManyFails(buf, pos, n, m - 1);
    }
  }

  lemma {:induction false} VarintsRoundTrip(pre: Buffer, xs: seq<U64>, post: Buffer)
    ensures ReadMany(pre + Varints(xs) + post, |pre|, |xs|) == Some((xs, |pre| + |Varints(xs)|))
  {
    if xs != [] {
      var front, last := xs[..|xs| - 1], xs[|xs| - 1];
      var buf, mid := pre + Varints(xs) + post, pre + Varints(front);
      SplitLast(pre, xs, post);
      VarintsRoundTrip(pre, front, Varint(last) + post);
      VarintRoundTrip(mid, last, post);
      ReadManyStep(buf, |pre|, front, last, |mid|);
      assert front + [last] == xs;
      hide *;
    }
  }

  lemma SplitLast(pre: Buffer, xs: seq<U64>, post: Buffer)
    requires xs != []
    ensures var front, last := xs[..|xs| - 1], xs[|xs| - 1];
            Varints(xs) == Varints(front) + Varint(last)
            && pre + Varints(xs) + post == pre + Varints(front) + (Varint(last) + post)
            && pre + Varints(xs) + post == (pre + Varints(front)) + Varint(last) + post
  {
  }

  lemma ReadManyStep(buf: Buffer, pos: nat, front: seq<U64>, last: U64, mid: nat)
    requires ReadMany(buf, pos, |front|) == Some((front, mid)) && Read(buf, mid).Some? && Read(buf, mid).value.0 == last
    ensures ReadMany(buf, pos, |front| + 1) == Some((front + [last], Read(buf, mid).value.1))
  {
  }
}
