/** The integer encodings and the encoder that picks among them (src/encoding.rs, lines
    197-353, 417-467 and 548-606). */
module IntCodecs {
  import opened Integers
  import opened Options
  import opened Bytes
  import opened BitPacking

  /** `Overflow` is where checked arithmetic stops. */
  datatype DecodeError = BadEncoding | Truncated | Overflow

  type Ints = seq<I64>

  function WrappingSub(x: int, y: int): I64 { Wrap(x - y) }

  function WrappingAdd(x: int, y: int): I64 { Wrap(x + y) }

  lemma SubThenAdd(x: I64, base: I64)
    ensures WrappingAdd(base, WrappingSub(x, base)) == x
  {
    WrapUndone(x, base);
  }

  // ----- differences -------------------------------------------------------------------

  /** Wrapping differences of neighbours. */
  function Deltas(xs: Ints): (r: Ints)
    ensures |r| == if xs == [] then 0 else |xs| - 1
  {
    if xs == [] then [] else seq(|xs| - 1, i requires 0 <= i < |xs| - 1 => WrappingSub(xs[i + 1], xs[i]))
  }

  /** Wrapping running sums from `first` on. */
  function Undelta(first: I64, ds: Ints): (r: Ints)
    ensures |r| == |ds| + 1 && r[0] == first
  {
    if ds == [] then [first]
    else
      var front := Undelta(first, ds[..|ds| - 1]);
      front + [WrappingAdd(front[|ds| - 1], ds[|ds| - 1])]
  }

  lemma DeltasTake(xs: Ints, n: nat)
    requires 0 < n < |xs|
    ensures Deltas(xs[..n + 1]) == Deltas(xs[..n]) + [WrappingSub(xs[n], xs[n - 1])]
  {
    hide WrappingSub;
  }

  lemma {:induction false} UndeltaOfDeltasUpTo(xs: Ints, n: nat)
    requires 0 < n <= |xs|
    ensures Undelta(xs[0], Deltas(xs[..n])) == xs[..n]
  {
    hide Deltas, WrappingAdd, WrappingSub;
    if n == 1 {
      OneDelta(xs[..1]);
    } else {
      UndeltaOfDeltasUpTo(xs, n - 1);
      DeltasTake(xs, n - 1);
      UndeltaStep(xs[0], Deltas(xs[..n - 1]), WrappingSub(xs[n - 1], xs[n - 2]));
      SubThenAdd(xs[n - 1], xs[n - 2]);
      assert xs[..n] == xs[..n - 1] + [xs[n - 1]];
    }
  }

  lemma OneDelta(xs: Ints)
    requires |xs| == 1
    ensures Deltas(xs) == [] && xs == [xs[0]]
  {
  }

  /** Running sums undo differences, wrap-around included. */
  lemma UndeltaOfDeltas(xs: Ints)
    requires xs != []
    ensures Undelta(xs[0], Deltas(xs)) == xs
  {
    UndeltaOfDeltasUpTo(xs, |xs|);
    assert xs[..|xs|] == xs;
  }

  lemma UndeltaStep(first: I64, ds: Ints, d: I64)
    ensures Undelta(first, ds + [d]) == Undelta(first, ds) + [WrappingAdd(Undelta(first, ds)[|ds|], d)]
  {
    assert (ds + [d])[..|ds|] == ds;
  }

  function ZigZags(xs: Ints): (r: seq<U64>)
    ensures |r| == |xs|
  {
    seq(|xs|, i requires 0 <= i < |xs| => ZigZag(xs[i]))
  }

  function UnZigZags(us: seq<U64>): (r: Ints)
    ensures |r| == |us|
  {
    seq(|us|, i requires 0 <= i < |us| => UnZigZag(us[i]))
  }

  lemma ZigZagsRoundTrip(xs: Ints)
    ensures UnZigZags(ZigZags(xs)) == xs
  {
    forall i | 0 <= i < |xs| ensures UnZigZags(ZigZags(xs))[i] == xs[i] {
      ZigZagRoundTrip(xs[i]);
    }
  }

  function Repeat(x: I64, n: nat): (r: Ints)
    ensures |r| == n && forall i :: 0 <= i < n ==> r[i] == x
  {
    seq(n, _ => x)
  }

  // ----- the layouts -------------------------------------------------------------------

  function ConstLayout(x: I64, n: nat): Buffer
  {
    [6] + Varint(n) + LeI64(x)
  }

  function ZigZagLayout(xs: Ints): Buffer
  {
    [7] + Varint(|xs|) + Varints(ZigZags(xs))
  }

  function First(xs: Ints): I64 { if xs == [] then 0 else xs[0] }

  function Second(xs: Ints): I64 { if |xs| < 2 then First(xs) else xs[1] }

  function DeltaLayout(xs: Ints): Buffer
  {
    [3] + LeI64(First(xs)) + Varint(|xs|) + Varints(ZigZags(Deltas(xs)))
  }

  function DodLayout(xs: Ints): Buffer
  {
    [4] + LeI64(First(xs)) + LeI64(Second(xs)) + Varint(|xs|) + Varints(ZigZags(Deltas(Deltas(xs))))
  }

  function MinOf(xs: Ints): (m: I64)
    ensures if xs == [] then m == 0 else m in xs
    ensures forall i :: 0 <= i < |xs| ==> m <= xs[i]
  {
    if |xs| <= 1 then First(xs)
    else
      var m := MinOf(xs[..|xs| - 1]);
      if xs[|xs| - 1] < m then xs[|xs| - 1] else m
  }

  function MaxOf(xs: Ints): (m: I64)
    ensures if xs == [] then m == 0 else m in xs
    ensures forall i :: 0 <= i < |xs| ==> xs[i] <= m
  {
    if |xs| <= 1 then First(xs)
    else
      var m := MaxOf(xs[..|xs| - 1]);
      if xs[|xs| - 1] > m then xs[|xs| - 1] else m
  }

  function Above(min: I64, x: I64): (r: U64)
    requires min <= x
    ensures r == x - min
  {
    x - min
  }

  function Offsets(xs: Ints): (r: seq<U64>)
    ensures |r| == |xs| && forall i :: 0 <= i < |xs| ==> r[i] == xs[i] - MinOf(xs)
  {
    seq(|xs|, i requires 0 <= i < |xs| => Above(MinOf(xs), xs[i]))
  }

  function Spread(xs: Ints): nat
  {
    MaxOf(xs) - MinOf(xs)
  }

  function ForHeader(xs: Ints): Buffer
  {
    [2] + LeI64(MinOf(xs)) + [WidthByte(Spread(xs))] + Varint(|xs|)
  }

  function WidthByte(max: nat): Byte
  {
    if BitsNeeded(max) < 256 then BitsNeeded(max) else 255
  }

  /** Minimum, width and count, then the offsets from the minimum, packed. */
  ghost predicate IsFor(buf: Buffer, xs: Ints)
  {
    && |ForHeader(xs)| <= |buf| && buf[..|ForHeader(xs)|] == ForHeader(xs)
    && IsPacked(buf[|ForHeader(xs)|..], Bits(Offsets(xs), BitsNeeded(Spread(xs))))
  }

  /** Negative numbers count as zero (lines 198-203). */
  function Clamped(xs: Ints): (r: seq<U64>)
    ensures |r| == |xs| && forall i :: 0 <= i < |xs| ==> r[i] == if xs[i] < 0 then 0 else xs[i]
  {
    seq(|xs|, i requires 0 <= i < |xs| => if xs[i] < 0 then 0 else xs[i])
  }

  function Largest(xs: Ints): nat
  {
    if MaxOf(xs) > 0 then MaxOf(xs) else 0
  }

  function BitPackedHeader(xs: Ints): Buffer
  {
    [1, WidthByte(Largest(xs))] + Varint(|xs|)
  }

  /** Width and count, then the numbers, packed. */
  ghost predicate IsBitPacked(buf: Buffer, xs: Ints)
  {
    && |BitPackedHeader(xs)| <= |buf| && buf[..|BitPackedHeader(xs)|] == BitPackedHeader(xs)
    && IsPacked(buf[|BitPackedHeader(xs)|..], Bits(Clamped(xs), BitsNeeded(Largest(xs))))
  }

  // ----- decoders ------------------------------------------------------------------------

  type Decoded = Result<Ints, DecodeError>

  function DecodeConst(buf: Buffer): Decoded
  {
    var r := Read(buf, 1);
    if r.None? then Err(BadEncoding)
    else
      var (count, pos) := r.value;
      if pos + 8 > |buf| then Err(Truncated) else Ok(Repeat(FromLeI64(buf[pos..pos + 8]), count))
  }

  function DecodeZigZag(buf: Buffer): Decoded
  {
    var r := Read(buf, 1);
    if buf == [] then Ok([])
    else if r.None? then Err(BadEncoding)
    else
      var us := ReadMany(buf, r.value.1, r.value.0);
      if us.None? then Err(BadEncoding) else Ok(UnZigZags(us.value.0))
  }

  /** A count of zero still gives the first value. */
  function DecodeDelta(buf: Buffer): Decoded
  {
    if |buf| < 9 then Err(BadEncoding)
    else
      var r := Read(buf, 9);
      if r.None? then Err(BadEncoding)
      else
        var us := ReadMany(buf, r.value.1, if r.value.0 > 0 then r.value.0 - 1 else 0);
        if us.None? then Err(BadEncoding) else Ok(Undelta(FromLeI64(buf[1..9]), UnZigZags(us.value.0)))
  }

  function DecodeDod(buf: Buffer): Decoded
  {
    if |buf| < 17 then Err(BadEncoding)
    else
      var first, second := FromLeI64(buf[1..9]), FromLeI64(buf[9..17]);
      var r := Read(buf, 17);
      if r.None? then Err(BadEncoding)
      else if r.value.0 <= 1 then Ok([first])
      else
        var us := ReadMany(buf, r.value.1, r.value.0 - 2);
        if us.None? then Err(BadEncoding) else Ok(Undelta(first,
          Undelta(WrappingSub(second, first), UnZigZags(us.value.0))))
  }

  /** Widths above 64, which no encoder writes, are refused. */
  function DecodeFor(buf: Buffer): Decoded
  {
    if |buf| < 10 || buf[9] > 64 then Err(BadEncoding)
    else
      var r := Read(buf, 10);
      if r.None? then Err(BadEncoding)
      else
        var min, offsets := FromLeI64(buf[1..9]), Unpacked(buf[r.value.1..], r.value.0, buf[9]);
        if AllInRange(min, offsets) then Ok(Rebased(min, offsets)) else Err(Overflow)
  }

  /** The sum of the minimum and an offset, read as a signed number, is one. */
  predicate InRange(min: I64, offset: nat)
  {
    I64_MIN <= min + Wrap(offset) <= I64_MAX
  }

  predicate AllInRange(min: I64, offsets: seq<nat>)
  {
    forall i :: 0 <= i < |offsets| ==> InRange(min, offsets[i])
  }

  function Rebased(min: I64, offsets: seq<nat>): (r: Ints)
    ensures |r| == |offsets|
  {
    seq(|offsets|, i requires 0 <= i < |offsets| => WrappingAdd(min, offsets[i]))
  }

  function DecodeBitPacked(buf: Buffer): Decoded
  {
    if |buf| < 2 || buf[1] > 64 then Err(BadEncoding)
    else
      var r := Read(buf, 2);
      if r.None? then Err(BadEncoding) else Ok(Rebased(0, Unpacked(buf[r.value.1..], r.value.0, buf[1])))
  }

  /** Lines 590-606: dispatch on the sub-tag. Null-suppressed buffers are another
      encoder's. */
  function DecodeInts(buf: Buffer): Decoded
  {
    if buf == [] then Ok([])
    else
      match buf[0]
      case 0 => Ok([])
      case 1 => DecodeBitPacked(buf)
      case 2 => DecodeFor(buf)
      case 3 => DecodeDelta(buf)
      case 4 => DecodeDod(buf)
      case 6 => DecodeConst(buf)
      case 7 => DecodeZigZag(buf)
      case _ => Err(BadEncoding)
  }

  // ----- round trips ---------------------------------------------------------------------

  lemma ConstRoundTrip(x: I64, n: U64)
    ensures DecodeInts(ConstLayout(x, n)) == Ok(Repeat(x, n))
  {
    var buf := ConstLayout(x, n);
    VarintRoundTrip([6], n, LeI64(x));
    FromLeI64OfLe(x);
    var pos := 1 + |Varint(n)|;
    assert buf[pos..pos + 8] == LeI64(x);
  }

  lemma ZigZagRoundTripAll(xs: Ints)
    requires |xs| < U64_LIMIT
    ensures DecodeInts(ZigZagLayout(xs)) == Ok(xs)
  {
    hide Read, ReadMany, Varint, Varints;
    VarintRoundTrip([7], |xs|, Varints(ZigZags(xs)));
    VarintsRoundTrip([7] + Varint(|xs|), ZigZags(xs), []);
    assert ZigZagLayout(xs) == ([7] + Varint(|xs|)) + Varints(ZigZags(xs)) + [];
    ZigZagsRoundTrip(xs);
  }

  /** Only the empty list does not come back: a count of zero is read as one number. */
  lemma DeltaRoundTrip(xs: Ints)
    requires |xs| < U64_LIMIT
    ensures DecodeInts(DeltaLayout(xs)) == Ok(if xs == [] then [0] else xs)
    ensures DecodeInts(DeltaLayout(xs)) == Ok(xs) <==> xs != []
  {
    hide Read, ReadMany, Varint, Varints, LeI64, FromLeI64, Undelta, Deltas, ZigZags;
    var buf, us := DeltaLayout(xs), ZigZags(Deltas(xs));
    var head := [3] + LeI64(First(xs));
    VarintRoundTrip(head, |xs|, Varints(us));
    VarintsRoundTrip(head + Varint(|xs|), us, []);
    assert buf == (head + Varint(|xs|)) + Varints(us) + [];
    FromLeI64OfLe(First(xs));
    assert buf[1..9] == LeI64(First(xs));
    ZigZagsRoundTrip(Deltas(xs));
    if xs == [] {
      UndeltaNone(0);
      NoDeltas();
    } else {
      UndeltaOfDeltas(xs);
    }
  }

  lemma NoDeltas()
    ensures Deltas([]) == [] && ZigZags([]) == []
  {
  }

  lemma DodRoundTrip(xs: Ints)
    requires |xs| < U64_LIMIT
    ensures DecodeInts(DodLayout(xs)) == Ok(if xs == [] then [0] else xs)
    ensures DecodeInts(DodLayout(xs)) == Ok(xs) <==> xs != []
  {
    hide Read, ReadMany, Varint, Varints, LeI64, FromLeI64, Undelta, Deltas, ZigZags, WrappingSub;
    var ds := Deltas(xs);
    var buf, us := DodLayout(xs), ZigZags(Deltas(ds));
    var head := [4] + LeI64(First(xs)) + LeI64(Second(xs));
    VarintRoundTrip(head, |xs|, Varints(us));
    VarintsRoundTrip(head + Varint(|xs|), us, []);
    assert buf == (head + Varint(|xs|)) + Varints(us) + [];
    FromLeI64OfLe(First(xs));
    FromLeI64OfLe(Second(xs));
    assert buf[1..9] == LeI64(First(xs)) && buf[9..17] == LeI64(Second(xs));
    ZigZagsRoundTrip(Deltas(ds));
    if |xs| > 1 {
      FirstDelta(xs);
      UndeltaOfDeltas(ds);
      UndeltaOfDeltas(xs);
    } else if |xs| == 1 {
      assert xs == [xs[0]];
    }
  }

  lemma FirstDelta(xs: Ints)
    requires |xs| > 1
    ensures Deltas(xs) != [] && Deltas(xs)[0] == WrappingSub(xs[1], xs[0])
  {
  }

  lemma OffsetsFit(xs: Ints)
    ensures BitsNeeded(Spread(xs)) <= 64
    ensures forall i :: 0 <= i < |xs| ==> Offsets(xs)[i] < Pow2(BitsNeeded(Spread(xs)))
  {
    Pow2Is64();
    BitsNeededFits(Spread(xs), 64);
    hide Pow2;
  }

  /** The frame-of-reference layout is decoded back if and only if the numbers span no more than the
      largest one: further apart, the sums overflow. */
  lemma ForRoundTrip(buf: Buffer, xs: Ints)
    requires IsFor(buf, xs) && |xs| < U64_LIMIT
    ensures DecodeInts(buf) == Ok(xs) <==> Spread(xs) <= I64_MAX
    ensures Spread(xs) > I64_MAX ==> DecodeInts(buf) == Err(Overflow)
  {
    hide Read, Varint, LeI64, FromLeI64, Unpacked, Bits, IsPacked, BitsNeeded, MinOf, MaxOf, AllInRange;
    var min, head, width := MinOf(xs), ForHeader(xs), BitsNeeded(Spread(xs));
    var packed := buf[|head|..];
    OffsetsFit(xs);
    VarintRoundTrip([2] + LeI64(min) + [width], |xs|, packed);
    assert buf == head + packed;
    assert buf == ([2] + LeI64(min) + [width]) + Varint(|xs|) + packed;
    FromLeI64OfLe(min);
    assert buf[1..9] == LeI64(min) && buf[9] == width;
    PackedHas(packed, Bits(Offsets(xs), width));
    UnpackPacked(packed, Offsets(xs), width);
    OffsetsInRange(xs);
    assert Rebased(min, Offsets(xs)) == xs;
  }

  lemma OffsetsInRange(xs: Ints)
    ensures AllInRange(MinOf(xs), Offsets(xs)) <==> Spread(xs) <= I64_MAX
  {
    hide MinOf, MaxOf;
    if Spread(xs) > I64_MAX {
      var k :| 0 <= k < |xs| && xs[k] == MaxOf(xs);
      assert Wrap(Offsets(xs)[k]) == Offsets(xs)[k] - U64_LIMIT;
      assert !InRange(MinOf(xs), Offsets(xs)[k]);
    }
  }

  /** The bit-packed layout is decoded back if and only if no number is negative. */
  lemma BitPackedRoundTrip(buf: Buffer, xs: Ints)
    requires IsBitPacked(buf, xs) && |xs| < U64_LIMIT
    ensures DecodeInts(buf) == Ok(xs) <==> forall i :: 0 <= i < |xs| ==> xs[i] >= 0
  {
    hide Read, Varint, Unpacked, Bits, IsPacked, BitsNeeded, MaxOf;
    var head, width := BitPackedHeader(xs), BitsNeeded(Largest(xs));
    var packed := buf[|head|..];
    ClampedFit(xs);
    VarintRoundTrip([1, width], |xs|, packed);
    assert buf == head + packed;
    assert buf == [1, width] + Varint(|xs|) + packed;
    PackedHas(packed, Bits(Clamped(xs), width));
    UnpackPacked(packed, Clamped(xs), width);
    assert forall i :: 0 <= i < |xs| ==> Rebased(0, Clamped(xs))[i] == Clamped(xs)[i];
    assert (forall i :: 0 <= i < |xs| ==> xs[i] >= 0) ==> Rebased(0, Clamped(xs)) == xs;
    assert Rebased(0, Clamped(xs)) == xs ==> forall i :: 0 <= i < |xs| ==> xs[i] == Clamped(xs)[i];
  }

  lemma ClampedFit(xs: Ints)
    ensures BitsNeeded(Largest(xs)) <= 64
    ensures forall i :: 0 <= i < |xs| ==> Clamped(xs)[i] < Pow2(BitsNeeded(Largest(xs)))
  {
    Pow2Is64();
    BitsNeededFits(Largest(xs), 64);
    hide Pow2;
  }

  lemma PackedHas(buf: Buffer, bits: seq<bool>)
    requires IsPacked(buf, bits)
    ensures HasBits(buf, bits)
  {
  }

  // ----- choosing an encoder -----------------------------------------------------------------

  predicate AllEqual(xs: Ints)
  {
    forall i :: 0 < i < |xs| ==> xs[i] == xs[i - 1]
  }

  lemma {:induction false} AllEqualIsConstant(xs: Ints)
    requires xs != []
    ensures AllEqual(xs) <==> xs == Repeat(xs[0], |xs|)
  {
    if AllEqual(xs) && |xs| > 1 {
      AllEqualIsConstant(xs[..|xs| - 1]);
      assert xs[..|xs| - 1][|xs| - 2] == xs[0];
    }
  }

  datatype Choice = Const | DeltaOfDelta | Delta | FrameOfReference | BitPacked | Varying

  /** The tests of lines 549-583, in order. */
  function Choose(xs: Ints): Choice
  {
    if xs == [] || AllEqual(xs) then Const
    else if AllEqual(Deltas(Deltas(xs))) && |xs| > 3 then DeltaOfDelta
    else if AllEqual(Deltas(xs)) && |xs| > 2 then Delta
    else if Spread(xs) <= 0xFFFF && |xs| > 1 then FrameOfReference
    else if BitsNeeded(LargestZigZag(xs)) <= 16 then BitPacked
    else Varying
  }

  function LargestZigZag(xs: Ints): (m: U64)
    ensures forall i :: 0 <= i < |xs| ==> ZigZag(xs[i]) <= m
  {
    if xs == [] then 0
    else
      var m, z := LargestZigZag(xs[..|xs| - 1]), ZigZag(xs[|xs| - 1]);
      if z > m then z else m
  }

  /** The bit-packed encoder, which would turn negative numbers into zeros, is never
      chosen: numbers that pass its test have passed the range test before it. */
  lemma BitPackedIsUnreachable(xs: Ints)
    ensures !Choose(xs).BitPacked?
  {
    if xs != [] && BitsNeeded(LargestZigZag(xs)) <= 16 {
      Pow2Is64();
      Pow2Monotone(BitsNeeded(LargestZigZag(xs)), 16);
      assert ZigZag(MaxOf(xs)) <= LargestZigZag(xs) && ZigZag(MinOf(xs)) <= LargestZigZag(xs);
      assert Spread(xs) <= 0xFFFF;
    }
  }

  /** What the chosen encoder writes. */
  ghost predicate Encodes(buf: Buffer, xs: Ints)
  {
    match Choose(xs)
    case Const => buf == ConstLayout(First(xs), |xs|)
    case DeltaOfDelta => buf == DodLayout(xs)
    case Delta => buf == DeltaLayout(xs)
    case FrameOfReference => IsFor(buf, xs)
    case BitPacked => false
    case Varying => buf == ZigZagLayout(xs)
  }

  /** Every list of 64-bit integers is decoded back from its best encoding. */
  lemma BestRoundTrip(buf: Buffer, xs: Ints)
    requires Encodes(buf, xs) && |xs| < U64_LIMIT
    ensures DecodeInts(buf) == Ok(xs)
  {
    hide ConstLayout, DodLayout, DeltaLayout, ZigZagLayout, IsFor, DecodeInts, AllEqual, Deltas, MinOf, MaxOf,
         LargestZigZag, BitsNeeded;
    match Choose(xs)
    case Const =>
      ConstRoundTrip(First(xs), |xs|);
      if xs != [] {
        AllEqualIsConstant(xs);
      }
    case DeltaOfDelta => DodRoundTrip(xs);
    case Delta => DeltaRoundTrip(xs);
    case FrameOfReference => ForRoundTrip(buf, xs);
    case BitPacked =>
    case Varying => ZigZagRoundTripAll(xs);
  }

  // ----- the encoders' loops --------------------------------------------------------------------

  /** Lines 417-423. */
  method EncodeConst(x: I64, n: U64) returns (out: Buffer)
    ensures out == ConstLayout(x, n)
  {
    out := WriteVarint([6], n);
    out := out + LeI64(x);
  }

  /** Lines 443-451. */
  method EncodeZigZag(xs: Ints) returns (out: Buffer)
    requires |xs| < U64_LIMIT
    ensures out == ZigZagLayout(xs)
  {
    out := WriteVarint([7], |xs|);
    out := WriteAll(out, xs);
  }

  method WriteAll(out0: Buffer, xs: Ints) returns (out: Buffer)
    ensures out == out0 + Varints(ZigZags(xs))
  {
    out := out0;
    for i := 0 to |xs|
      invariant out == out0 + Varints(ZigZags(xs[..i]))
    {
      VarintsStep(xs, i);
      out := WriteVarint(out, ZigZag(xs[i]));
    }
    assert xs[..|xs|] == xs;
  }

  lemma NoVarints(xs: Ints)
    ensures Varints(ZigZags(xs[..0])) == []
  {
  }

  lemma VarintsStep(xs: Ints, i: nat)
    requires i < |xs|
    ensures Varints(ZigZags(xs[..i + 1])) == Varints(ZigZags(xs[..i])) + Varint(ZigZag(xs[i]))
  {
    assert ZigZags(xs[..i + 1])[..i] == ZigZags(xs[..i]);
  }

  /** Lines 262-275. */
  method EncodeDelta(xs: Ints) returns (out: Buffer)
    requires |xs| < U64_LIMIT
    ensures out == DeltaLayout(xs)
  {
    hide Varint, Varints, LeI64, ZigZags, WrappingSub, ZigZag;
    out := WriteVarint([3] + LeI64(First(xs)), |xs|);
    NoVarints(Deltas(xs));
    ghost var head := out;
    var prev := First(xs);
    for i := 1 to if xs == [] then 1 else |xs|
      invariant xs != [] ==> prev == xs[i - 1]
      invariant out == head + Varints(ZigZags(Deltas(xs)[..i - 1]))
    {
      VarintsStep(Deltas(xs), i - 1);
      out := WriteVarint(out, ZigZag(WrappingSub(xs[i], prev)));
      prev := xs[i];
    }
    assert Deltas(xs)[..if xs == [] then 0 else |xs| - 1] == Deltas(xs);
  }

  /** Lines 306-324. */
  method EncodeDod(xs: Ints) returns (out: Buffer)
    requires |xs| < U64_LIMIT
    ensures out == DodLayout(xs)
  {
    hide Varint, Varints, LeI64, ZigZags, WrappingSub, ZigZag;
    out := WriteVarint([4] + LeI64(First(xs)) + LeI64(Second(xs)), |xs|);
    NoVarints(Deltas(Deltas(xs)));
    ghost var head := out;
    var prev, prevDelta := Second(xs), WrappingSub(Second(xs), First(xs));
    for i := 2 to if |xs| < 2 then 2 else |xs|
      invariant |xs| > 1 ==> prev == xs[i - 1] && prevDelta == Deltas(xs)[i - 2]
      invariant out == head + Varints(ZigZags(Deltas(Deltas(xs))[..i - 2]))
    {
      VarintsStep(Deltas(Deltas(xs)), i - 2);
      var delta := WrappingSub(xs[i], prev);
      out := WriteVarint(out, ZigZag(WrappingSub(delta, prevDelta)));
      prevDelta := delta;
      prev := xs[i];
    }
    assert Deltas(Deltas(xs))[..if |xs| < 2 then 0 else |xs| - 2] == Deltas(Deltas(xs));
  }

  /** Lines 228-240: checked subtraction stops when the numbers are too far apart. */
  method EncodeFor(xs: Ints) returns (out: Option<Buffer>)
    requires |xs| < U64_LIMIT
    ensures out.Some? <==> Spread(xs) <= I64_MAX
    ensures out.Some? ==> IsFor(out.value, xs)
  {
    var min := MinOf(xs);
    for i := 0 to |xs|
      invariant forall k :: 0 <= k < i ==> xs[k] - min <= I64_MAX
    {
      if xs[i] - min > I64_MAX {
        assert MaxOf(xs) >= xs[i];
        return None;
      }
    }
    assert xs != [] ==> MaxOf(xs) in xs;
    var buf := PackFor(xs);
    return Some(buf);
  }

  method PackFor(xs: Ints) returns (out: Buffer)
    requires |xs| < U64_LIMIT
    ensures IsFor(out, xs)
  {
    var offsets, width := Offsets(xs), BitsNeeded(Spread(xs));
    OffsetsFit(xs);
    out := WriteVarint([2] + LeI64(MinOf(xs)) + [width], |xs|);
    var packed := BitPack(offsets, width);
    assert out == ForHeader(xs);
    assert (out + packed)[..|out|] == out && (out + packed)[|out|..] == packed;
    out := out + packed;
  }

  /** Lines 197-207. */
  method EncodeBitPacked(xs: Ints) returns (out: Buffer)
    requires |xs| < U64_LIMIT
    ensures IsBitPacked(out, xs)
  {
    var values, width := Clamped(xs), BitsNeeded(Largest(xs));
    ClampedFit(xs);
    out := WriteVarint([1, width], |xs|);
    var packed := BitPack(values, width);
    assert out == BitPackedHeader(xs);
    assert (out + packed)[..|out|] == out && (out + packed)[|out|..] == packed;
    out := out + packed;
  }

  /** Lines 548-587. */
  method EncodeIntsBest(xs: Ints) returns (out: Buffer)
    requires |xs| < U64_LIMIT
    ensures Encodes(out, xs) && DecodeInts(out) == Ok(xs)
  {
    BitPackedIsUnreachable(xs);
    match Choose(xs) {
      case Const => out := EncodeConst(First(xs), |xs|);
      case DeltaOfDelta => out := EncodeDod(xs);
      case Delta => out := EncodeDelta(xs);
      case FrameOfReference =>
        var framed := EncodeFor(xs);
        out := framed.value;
      case Varying => out := EncodeZigZag(xs);
    }
    BestRoundTrip(out, xs);
  }

  // ----- the decoders' loops --------------------------------------------------------------------

  /** Lines 277-297. */
  method RunDecodeDelta(buf: Buffer) returns (r: Decoded)
    ensures r == DecodeDelta(buf)
  {
    hide Read, ReadMany, Undelta, UnZigZags, UnZigZag, WrappingAdd, WrappingSub, FromLeI64;
    UnZigZagsStep([], 0);
    if |buf| < 9 {
      return Err(BadEncoding);
    }
    var first := FromLeI64(buf[1..9]);
    var header := ReadVarint(buf, 9);
    if header.None? {
      return Err(BadEncoding);
    }
    var (count, start) := header.value;
    var out, prev, pos := [first], first, start;
    ghost var us: seq<U64> := [];
    ReadNone(buf, start);
    UndeltaNone(first);
    for k := 0 to if count > 0 then count - 1 else 0
      invariant |us| == k && ReadMany(buf, start, k) == Some((us, pos))
      invariant out == Undelta(first, UnZigZags(us)) && prev == out[|out| - 1]
    {
      var next := ReadVarint(buf, pos);
      ReadNext(buf, start, k, if count > 0 then count - 1 else 0);
      if next.None? {
        return Err(BadEncoding);
      }
      var d := UnZigZag(next.value.0);
      UndeltaStep(first, UnZigZags(us), d);
      UnZigZagsStep(us, next.value.0);
      us := us + [next.value.0];
      prev := WrappingAdd(prev, d);
      out := out + [prev];
      pos := next.value.1;
    }
    return Ok(out);
  }

  lemma UndeltaNone(first: I64)
    ensures Undelta(first, []) == [first]
  {
  }

  lemma UnZigZagsStep(us: seq<U64>, u: U64)
    ensures UnZigZags(us + [u]) == UnZigZags(us) + [UnZigZag(u)] && UnZigZags([]) == []
  {
  }

  lemma ReadNone(buf: Buffer, pos: nat)
    ensures ReadMany(buf, pos, 0) == Some(([], pos))
  {
  }

  lemma ReadNext(buf: Buffer, pos: nat, k: nat, n: nat)
    requires ReadMany(buf, pos, k).Some? && k < n
    ensures var (us, at) := ReadMany(buf, pos, k).value;
            var next := Read(buf, at);
            if next.None? then ReadMany(buf, pos, n).None?
            else ReadMany(buf, pos, k + 1) == Some((us + [next.value.0], next.value.1))
  {
    if Read(buf, ReadMany(buf, pos, k).value.1).None? {
      assert ReadMany(buf, pos, k + 1).None?;
      ReadManyFails(buf, pos, k + 1, n);
    }
  }

  /** Lines 326-353. */
  method RunDecodeDod(buf: Buffer) returns (r: Decoded)
    ensures r == DecodeDod(buf)
  {
    hide Read, ReadMany, Undelta, UnZigZags, UnZigZag, WrappingAdd, WrappingSub, FromLeI64;
    UnZigZagsStep([], 0);
    if |buf| < 17 {
      return Err(BadEncoding);
    }
    var first, second := FromLeI64(buf[1..9]), FromLeI64(buf[9..17]);
    var header := ReadVarint(buf, 17);
    if header.None? {
      return Err(BadEncoding);
    }
    var (count, start) := header.value;
    var out := [first];
    if count <= 1 {
      return Ok(out);
    }
    out := out + [second];
    var prev, delta, pos := second, WrappingSub(second, first), start;
    ghost var us: seq<U64> := [];
    ghost var ds := [delta];
    ReadNone(buf, start);
    SubThenAdd(second, first);
    UndeltaNone(first);
    UndeltaNone(delta);
    UndeltaStep(first, [], delta);
    assert [] + [delta] == ds;
    for k := 0 to count - 2
      invariant |us| == k && ReadMany(buf, start, k) == Some((us, pos))
      invariant ds == Undelta(WrappingSub(second, first), UnZigZags(us)) && delta == ds[|ds| - 1]
      invariant out == Undelta(first, ds) && prev == out[|out| - 1]
    {
      var next := ReadVarint(buf, pos);
      ReadNext(buf, start, k, count - 2);
      if next.None? {
        return Err(BadEncoding);
      }
      var dod := UnZigZag(next.value.0);
      UndeltaStep(WrappingSub(second, first), UnZigZags(us), dod);
      UnZigZagsStep(us, next.value.0);
      us := us + [next.value.0];
      delta := WrappingAdd(delta, dod);
      UndeltaStep(first, ds, delta);
      ds := ds + [delta];
      prev := WrappingAdd(prev, delta);
      out := out + [prev];
      pos := next.value.1;
    }
    return Ok(out);
  }

  /** Lines 453-467. */
  method RunDecodeZigZag(buf: Buffer) returns (r: Decoded)
    ensures r == DecodeZigZag(buf)
  {
    hide Read, ReadMany;
    if buf == [] {
      return Ok([]);
    }
    var header := ReadVarint(buf, 1);
    if header.None? {
      return Err(BadEncoding);
    }
    var (count, start) := header.value;
    var out: Ints, pos := [], start;
    ghost var us: seq<U64> := [];
    ReadNone(buf, start);
    for k := 0 to count
      invariant |us| == k && ReadMany(buf, start, k) == Some((us, pos)) && out == UnZigZags(us)
    {
      var next := ReadVarint(buf, pos);
      ReadNext(buf, start, k, count);
      if next.None? {
        return Err(BadEncoding);
      }
      us := us + [next.value.0];
      out := out + [UnZigZag(next.value.0)];
      pos := next.value.1;
    }
    return Ok(out);
  }

  /** Lines 590-606. */
  method RunDecodeInts(buf: Buffer) returns (r: Decoded)
    ensures r == DecodeInts(buf)
  {
    if buf == [] {
      return Ok([]);
    }
    match buf[0] {
      case 0 => r := Ok([]);
      case 1 => r := RunDecodeBitPacked(buf);
      case 2 => r := RunDecodeFor(buf);
      case 3 => r := RunDecodeDelta(buf);
      case 4 => r := RunDecodeDod(buf);
      case 6 => r := RunDecodeConst(buf);
      case 7 => r := RunDecodeZigZag(buf);
      case _ => r := Err(BadEncoding);
    }
  }

  /** Lines 425-435. */
  method RunDecodeConst(buf: Buffer) returns (r: Decoded)
    ensures r == DecodeConst(buf)
  {
    var header := ReadVarint(buf, 1);
    if header.None? {
      return Err(BadEncoding);
    }
    var (count, pos) := header.value;
    if pos + 8 > |buf| {
      return Err(Truncated);
    }
    return Ok(Repeat(FromLeI64(buf[pos..pos + 8]), count));
  }

  /** Lines 242-253. */
  method RunDecodeFor(buf: Buffer) returns (r: Decoded)
    ensures r == DecodeFor(buf)
  {
    if |buf| < 10 || buf[9] > 64 {
      return Err(BadEncoding);
    }
    var header := ReadVarint(buf, 10);
    if header.None? {
      return Err(BadEncoding);
    }
    var offsets := BitUnpack(buf[header.value.1..], header.value.0, buf[9]);
    var min := FromLeI64(buf[1..9]);
    for i := 0 to |offsets|
      invariant forall k :: 0 <= k < i ==> InRange(min, offsets[k])
    {
      if !InRange(min, offsets[i]) {
        return Err(Overflow);
      }
    }
    return Ok(Rebased(min, offsets));
  }

  /** Lines 210-220. */
  method RunDecodeBitPacked(buf: Buffer) returns (r: Decoded)
    ensures r == DecodeBitPacked(buf)
  {
    if |buf| < 2 || buf[1] > 64 {
      return Err(BadEncoding);
    }
    var header := ReadVarint(buf, 2);
    if header.None? {
      return Err(BadEncoding);
    }
    var values := BitUnpack(buf[header.value.1..], header.value.0, buf[1]);
    return Ok(Rebased(0, values));
  }
}
