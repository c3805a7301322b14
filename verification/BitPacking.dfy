/** Bit-packing (src/encoding.rs, lines 93-99 and 149-193). */
module BitPacking {
  import opened Integers
  import opened Bytes

  /** Bit `k` of a number. */
  predicate Bit(v: nat, k: nat)
    decreases k
  {
    if k == 0 then v % 2 == 1 else Bit(v / 2, k - 1)
  }

  /** Lines 94-99: the least width the number fits in. */
  function BitsNeeded(v: nat): (w: nat)
    ensures v < Pow2(w) && (w > 0 ==> Pow2(w - 1) <= v)
  {
    if v == 0 then 0 else 1 + BitsNeeded(v / 2)
  }

  lemma {:induction false} BitsNeededFits(v: nat, w: nat)
    requires v < Pow2(w)
    ensures BitsNeeded(v) <= w
  {
    if BitsNeeded(v) > w {
      Pow2Monotone(w, BitsNeeded(v) - 1);
    }
  }

  /** The low `w` bits as a number. */
  function Low(v: nat, w: nat): nat
  {
    if w == 0 then 0 else Low(v, w - 1) + if Bit(v, w - 1) then Pow2(w - 1) else 0
  }

  lemma {:induction false} LowHalf(v: nat, w: nat)
    requires w > 0
    ensures Low(v, w) == v % 2 + 2 * Low(v / 2, w - 1)
  {
    if w > 1 {
      LowHalf(v, w - 1);
    }
  }

  /** A number is made of its bits. */
  lemma {:induction false} LowIsAll(v: nat, w: nat)
    requires v < Pow2(w)
    ensures Low(v, w) == v
  {
    if w > 0 {
      LowHalf(v, w);
      LowIsAll(v / 2, w - 1);
    }
  }

  /** Setting a clear bit. */
  lemma {:induction false} SetBit(v: nat, k: nat, n: nat)
    requires v < Pow2(n) && k < n && !Bit(v, k)
    ensures v + Pow2(k) < Pow2(n)
    ensures forall j: nat :: Bit(v + Pow2(k), j) <==> j == k || Bit(v, j)
    decreases k
  {
    if k == 0 {
      assert (v + 1) / 2 == v / 2;
    } else {
      SetBit(v / 2, k - 1, n - 1);
      assert (v + Pow2(k)) / 2 == v / 2 + Pow2(k - 1);
      forall j: nat ensures Bit(v + Pow2(k), j) <==> j == k || Bit(v, j) {
        if j > 0 {
          assert Bit(v + Pow2(k), j) == Bit(v / 2 + Pow2(k - 1), j - 1);
        }
      }
    }
  }

  /** The position of value `i`'s first bit. */
  function Offset(i: nat, width: nat): nat
  {
    i * width
  }

  lemma OffsetNext(i: nat, width: nat)
    ensures Offset(i + 1, width) == Offset(i, width) + width && Offset(0, width) == 0
  {
  }

  // ----- bits of a buffer ---------------------------------------------------------------

  /** Bit `p` of a buffer, bits past the end clear. */
  predicate BitAt(buf: Buffer, p: nat)
  {
    p / 8 < |buf| && Bit(buf[p / 8], p % 8)
  }

  function BitsOf(v: nat, width: nat): (r: seq<bool>)
    ensures |r| == width && forall k :: 0 <= k < width ==> r[k] == Bit(v, k)
  {
    seq(width, k requires 0 <= k < width => Bit(v, k))
  }

  /** The values' low bits, one value after the other. */
  function Bits(values: seq<U64>, width: nat): (r: seq<bool>)
    ensures |r| == Offset(|values|, width)
  {
    if values == [] then
      OffsetNext(0, width);
      []
    else
      OffsetNext(|values| - 1, width);
      Bits(values[..|values| - 1], width) + BitsOf(values[|values| - 1], width)
  }

  /** The buffer holds exactly these bits, in whole bytes. */
  ghost predicate IsPacked(buf: Buffer, bits: seq<bool>)
  {
    |buf| == (|bits| + 7) / 8 && HasBits(buf, bits)
  }

  ghost predicate HasBits(buf: Buffer, bits: seq<bool>)
  {
    forall p: nat :: BitAt(buf, p) <==> p < |bits| && bits[p]
  }

  lemma SetBufferBit(buf: Buffer, bits: seq<bool>)
    requires HasBits(buf, bits) && |bits| < 8 * |buf|
    ensures var p := |bits|;
            buf[p / 8] + Pow2(p % 8) < 256 && HasBits(buf[p / 8 := buf[p / 8] + Pow2(p % 8)], bits + [true])
  {
    var p := |bits|;
    assert !BitAt(buf, p);
    assert Pow2(8) == 256;
    SetBit(buf[p / 8], p % 8, 8);
    var after := buf[p / 8 := buf[p / 8] + Pow2(p % 8)];
    forall q: nat ensures BitAt(after, q) <==> q < |bits| + 1 && (bits + [true])[q] {
      assert BitAt(buf, q) <==> q < |bits| && bits[q];
      if q / 8 == p / 8 {
        assert Bit(after[p / 8], q % 8) <==> q % 8 == p % 8 || Bit(buf[p / 8], q % 8);
      }
    }
  }

  lemma ClearBufferBit(buf: Buffer, bits: seq<bool>)
    requires HasBits(buf, bits)
    ensures HasBits(buf, bits + [false])
  {
  }

  lemma {:induction false} ZeroHasNoBits(n: nat, k: nat)
    ensures !Bit(0, k)
    decreases k
  {
    if k > 0 {
      ZeroHasNoBits(n, k - 1);
    }
  }

  lemma NoBits(buf: Buffer, values: seq<U64>, width: nat)
    requires forall i :: 0 <= i < |buf| ==> buf[i] == 0
    ensures HasBits(buf, []) && Bits(values[..0], width) == []
  {
    forall p: nat ensures !BitAt(buf, p) {
      ZeroHasNoBits(0, p % 8);
    }
  }

  lemma Room(i: nat, n: nat, b: nat, width: nat)
    requires i < n && b < width
    ensures Offset(i, width) + b < Offset(n, width) && Offset(i + 1, width) == Offset(i, width) + width
  {
    assert (i + 1) * width <= n * width;
  }

  lemma BitsTake(values: seq<U64>, i: nat, width: nat)
    requires i < |values|
    ensures Bits(values[..i + 1], width) == Bits(values[..i], width) + BitsOf(values[i], width)
  {
    assert values[..i + 1][..i] == values[..i];
  }

  /** Lines 152-171. */
  method BitPack(values: seq<U64>, width: nat) returns (out: Buffer)
    requires width <= 64
    ensures IsPacked(out, Bits(values, width))
  {
    if width == 0 {
      assert Bits(values, width) == [];
      return [];
    }
    hide Bit, HasBits, BitAt, Bits, Pow2, Offset;
    OffsetNext(0, width);
    var total := Offset(|values|, width);
    var a := new Byte[(total + 7) / 8](_ => 0);
    var pos: nat := 0;
    ghost var done: seq<bool> := [];
    NoBits(a[..], values, width);
    for i := 0 to |values|
      invariant pos == |done| == Offset(i, width) && done == Bits(values[..i], width) && HasBits(a[..], done)
    {
      Room(i, |values|, 0, width);
      OffsetNext(i, width);
      BitsTake(values, i, width);
      RoomFor(i, |values|, width);
      PackValue(a, values[i], width, pos, done);
      done := done + BitsOf(values[i], width);
      pos := pos + width;
    }
    assert values[..|values|] == values;
    out := a[..];
  }

  lemma RoomFor(i: nat, n: nat, width: nat)
    requires i < n
    ensures Offset(i, width) + width <= Offset(n, width)
  {
    assert (i + 1) * width <= n * width;
  }

  /** Lines 161-168: one value's bits. */
  method PackValue(a: array<Byte>, v: U64, width: nat, start: nat, ghost done: seq<bool>)
    requires HasBits(a[..], done) && start == |done| && start + width <= 8 * a.Length
    modifies a
    ensures HasBits(a[..], done + BitsOf(v, width))
  {
    hide Bit, HasBits, BitAt, Pow2;
    var pos := start;
    ghost var sofar := done;
    assert BitsOf(v, width)[..0] == [];
    for b := 0 to width
      invariant pos == |sofar| == start + b && sofar == done + BitsOf(v, width)[..b] && HasBits(a[..], sofar)
    {
      if Bit(v, b) {
        SetBufferBit(a[..], sofar);
        ghost var was := a[..];
        a[pos / 8] := a[pos / 8] + Pow2(pos % 8);
        assert a[..] == was[pos / 8 := was[pos / 8] + Pow2(pos % 8)];
        sofar := sofar + [true];
      } else {
        ClearBufferBit(a[..], sofar);
        sofar := sofar + [false];
      }
      pos := pos + 1;
    }
    assert BitsOf(v, width)[..width] == BitsOf(v, width);
  }

  // ----- unpacking ------------------------------------------------------------------------

  /** The number made of `width` bits from position `start` on. */
  function ValueAt(buf: Buffer, start: nat, width: nat): (v: nat)
    ensures v < Pow2(width)
  {
    if width == 0 then 0
    else ValueAt(buf, start, width - 1) + if BitAt(buf, start + width - 1) then Pow2(width - 1) else 0
  }

  function Unpacked(buf: Buffer, count: nat, width: nat): (r: seq<nat>)
    ensures |r| == count
  {
    seq(count, i requires 0 <= i < count => ValueAt(buf, Offset(i, width), width))
  }

  /** Lines 174-193. */
  method BitUnpack(buf: Buffer, count: nat, width: nat) returns (out: seq<nat>)
    requires width <= 64
    ensures out == Unpacked(buf, count, width)
  {
    out := [];
    if width == 0 {
      for i := 0 to count
        invariant out == Unpacked(buf, i, width)
      {
        out := out + [0];
      }
      return;
    }
    hide BitAt, Pow2, ValueAt, Unpacked, Offset;
    OffsetNext(0, width);
    var pos: nat := 0;
    UnpackedNone(buf, width);
    for i := 0 to count
      invariant pos == Offset(i, width) && out == Unpacked(buf, i, width)
    {
      ghost var base := pos;
      var v: nat := 0;
      ValueStep(buf, base, 0);
      for b := 0 to width
        invariant pos == base + b && v == ValueAt(buf, base, b)
      {
        ValueStep(buf, base, b);
        if BitAt(buf, pos) {
          v := v + Pow2(b);
        }
        pos := pos + 1;
      }
      UnpackedStep(buf, i, width);
      out := out + [v];
    }
  }

  lemma UnpackedNone(buf: Buffer, width: nat)
    ensures Unpacked(buf, 0, width) == []
  {
  }

  lemma ValueStep(buf: Buffer, start: nat, b: nat)
    ensures ValueAt(buf, start, 0) == 0
    ensures ValueAt(buf, start, b + 1) == ValueAt(buf, start, b) + if BitAt(buf, start + b) then Pow2(b) else 0
  {
  }

  lemma UnpackedStep(buf: Buffer, i: nat, width: nat)
    ensures Unpacked(buf, i + 1, width) == Unpacked(buf, i, width) + [ValueAt(buf, Offset(i, width), width)]
    ensures Offset(i + 1, width) == Offset(i, width) + width
  {
  }

  lemma {:induction false} ValueIsLow(buf: Buffer, start: nat, v: nat, w: nat)
    requires forall k: nat :: k < w ==> BitAt(buf, start + k) == Bit(v, k)
    ensures ValueAt(buf, start, w) == Low(v, w)
  {
    if w > 0 {
      ValueIsLow(buf, start, v, w - 1);
      assert BitAt(buf, start + (w - 1)) == Bit(v, w - 1);
    }
  }

  lemma {:induction false} BitsAt(values: seq<U64>, width: nat, i: nat, k: nat)
    requires i < |values| && k < width
    ensures Offset(i, width) + k < |Bits(values, width)|
            && Bits(values, width)[Offset(i, width) + k] == Bit(values[i], k)
  {
    var n := |values| - 1;
    Room(i, |values|, k, width);
    if i < n {
      Room(i, n, k, width);
      BitsAt(values[..n], width, i, k);
    } else {
      assert |Bits(values[..n], width)| == Offset(n, width);
    }
  }

  /** Unpacking gives back what was packed, if every value fits the width. */
  lemma UnpackPacked(buf: Buffer, values: seq<U64>, width: nat)
    requires HasBits(buf, Bits(values, width)) && forall i :: 0 <= i < |values| ==> values[i] < Pow2(width)
    ensures Unpacked(buf, |values|, width) == values
  {
    hide ValueAt, HasBits, Offset, Bits;
    forall i | 0 <= i < |values| ensures Unpacked(buf, |values|, width)[i] == values[i] {
      UnpackOne(buf, values, width, i);
    }
  }

  lemma UnpackOne(buf: Buffer, values: seq<U64>, width: nat, i: nat)
    requires HasBits(buf, Bits(values, width)) && i < |values| && values[i] < Pow2(width)
    ensures ValueAt(buf, Offset(i, width), width) == values[i]
  {
    hide Bit, BitAt, Bits, Offset, Low, Pow2, ValueAt;
    var start := Offset(i, width);
    forall k: nat | k < width ensures BitAt(buf, start + k) == Bit(values[i], k) {
      BitsAt(values, width, i, k);
    }
    ValueIsLow(buf, start, values[i], width);
    LowIsAll(values[i], width);
  }
}
