/** Block compression (src/compress.rs). The decoders are functions of the bytes; the
    encoders are proved against them. */
module Compression {
  import opened Integers
  import opened Options
  import opened Bytes
  import opened BitPacking

  datatype Codec = Store | Rle | Lz

  datatype DecompressError =
    | ShortHeader
    | BadCodec(tag: Byte)
    | Truncated
    | LengthMismatch(expected: nat, got: nat)

  type Decoded = Result<Buffer, DecompressError>

  // ----- byte run-length decoding ---------------------------------------------------------

  function Copies(b: Byte, n: nat): (r: Buffer)
    ensures |r| == n && forall i :: 0 <= i < n ==> r[i] == b
  {
    seq(n, _ => b)
  }

  /** Decodes the remaining bytes after `out` has been produced. */
  function RleDecode(src: Buffer, out: Buffer): Decoded
  {
    if src == [] then Ok(out)
    else if src[0] < 128 then
      var count := src[0] + 1;
      if 1 + count > |src| then Err(Truncated) else RleDecode(src[1 + count..], out + src[1..1 + count])
    else if |src| < 2 then Err(Truncated)
    else RleDecode(src[2..], out + Copies(src[1], src[0] - 128 + 3))
  }

  /** Lines 185-210. */
  method RleDecompress(src: Buffer) returns (r: Decoded)
    ensures r == RleDecode(src, [])
  {
    var out: Buffer, i: nat := [], 0;
    while i < |src|
      invariant i <= |src| && RleDecode(src, []) == RleDecode(src[i..], out)
    {
      ghost var rest := src[i..];
      var c := src[i];
      i := i + 1;
      if c < 128 {
        var count: nat := c + 1;
        if i + count > |src| {
          return Err(Truncated);
        }
        assert rest[1..1 + count] == src[i..i + count] && rest[1 + count..] == src[i + count..];
        out := out + src[i..i + count];
        i := i + count;
      } else {
        var count: nat := c - 128 + 3;
        if i >= |src| {
          return Err(Truncated);
        }
        assert rest[2..] == src[i + 1..];
        out := out + Copies(src[i], count);
        i := i + 1;
      }
    }
    return Ok(out);
  }

  // ----- byte run-length encoding ---------------------------------------------------------

  /** Whatever follows, decoding `code` produces `plain` and goes on with what follows. */
  ghost predicate RleStandsFor(code: Buffer, plain: Buffer)
  {
    forall rest: Buffer :: RleDecode(code + rest, []) == RleDecode(rest, plain)
  }

  lemma DecodeLiteral(bytes: Buffer, rest: Buffer, out: Buffer)
    requires 1 <= |bytes| <= 128
    ensures RleDecode([|bytes| - 1] + bytes + rest, out) == RleDecode(rest, out + bytes)
  {
    var src := [|bytes| - 1] + bytes + rest;
    assert src[0] == |bytes| - 1 && src[1..1 + |bytes|] == bytes && src[1 + |bytes|..] == rest;
  }

  lemma DecodeRepeat(b: Byte, run: nat, rest: Buffer, out: Buffer)
    requires 3 <= run <= 130
    ensures RleDecode([128 + (run - 3), b] + rest, out) == RleDecode(rest, out + Copies(b, run))
  {
    var src := [128 + (run - 3), b] + rest;
    assert src[0] == 128 + (run - 3) && src[1] == b && src[2..] == rest;
  }

  lemma RleLiteral(code: Buffer, plain: Buffer, bytes: Buffer)
    requires RleStandsFor(code, plain) && 1 <= |bytes| <= 128
    ensures RleStandsFor(code + ([|bytes| - 1] + bytes), plain + bytes)
  {
    hide RleDecode;
    var token: Buffer := [|bytes| - 1] + bytes;
    forall rest: Buffer ensures RleDecode((code + token) + rest, []) == RleDecode(rest, plain + bytes) {
      assert (code + token) + rest == code + (token + rest);
      DecodeLiteral(bytes, rest, plain);
    }
  }

  lemma RleRepeat(code: Buffer, plain: Buffer, b: Byte, run: nat)
    requires RleStandsFor(code, plain) && 3 <= run <= 130
    ensures RleStandsFor(code + [128 + (run - 3), b], plain + Copies(b, run))
  {
    hide RleDecode;
    var token: Buffer := [128 + (run - 3), b];
    forall rest: Buffer ensures RleDecode((code + token) + rest, []) == RleDecode(rest, plain + Copies(b, run)) {
      assert (code + token) + rest == code + (token + rest);
      DecodeRepeat(b, run, rest, plain);
    }
  }

  /** Literals in chunks of at most 128. */
  function LiteralCode(bytes: Buffer): Buffer
  {
    if bytes == [] then []
    else
      var chunk := if |bytes| < 128 then |bytes| else 128;
      [chunk - 1] + bytes[..chunk] + LiteralCode(bytes[chunk..])
  }

  /** How many equal bytes stand in front. */
  function Front(bytes: Buffer): (n: nat)
    ensures n <= |bytes| && (bytes != [] ==> n > 0)
  {
    if |bytes| > 1 && bytes[0] == bytes[1] then 1 + Front(bytes[1..]) else if bytes == [] then 0 else 1
  }

  /** The code of some literals not yet written and of the bytes after them: every run of
      three or more, cut at 130, becomes a repeat, and everything else stays literal. */
  function RleCode(bytes: Buffer, literals: Buffer): Buffer
    decreases |bytes|
  {
    if bytes == [] then LiteralCode(literals)
    else
      var run := if Front(bytes) < 130 then Front(bytes) else 130;
      if run >= 3 then LiteralCode(literals) + [128 + (run - 3), bytes[0]] + RleCode(bytes[run..], [])
      else RleCode(bytes[1..], literals + [bytes[0]])
  }

  lemma {:induction false} FrontIs(bytes: Buffer, run: nat)
    requires 1 <= run <= |bytes| && (forall k :: 0 <= k < run ==> bytes[k] == bytes[0])
    ensures Front(bytes) >= run && (run < |bytes| && bytes[run] != bytes[0] ==> Front(bytes) == run)
    ensures run == |bytes| ==> Front(bytes) == run
  {
    if run > 1 {
      assert bytes[1..][0] == bytes[1];
      FrontIs(bytes[1..], run - 1);
    }
  }

  lemma LiteralNext(input: Buffer, s: nat, to: nat, chunk: nat)
    requires s < to <= |input| && chunk == if to - s < 128 then to - s else 128
    ensures LiteralCode(input[s..to]) == ([chunk - 1] + input[s..s + chunk]) + LiteralCode(input[s + chunk..to])
  {
    assert input[s..to][..chunk] == input[s..s + chunk] && input[s..to][chunk..] == input[s + chunk..to];
  }

  lemma Grouped(a: Buffer, b: Buffer, c: Buffer)
    ensures (a + b) + c == a + (b + c)
  {
  }

  lemma NoLiterals(input: Buffer, to: nat)
    requires to <= |input|
    ensures LiteralCode(input[to..to]) == []
  {
  }

  /** One step of the encoder, at place `i` with the bytes from `start` on not yet written. */
  lemma RleNext(input: Buffer, start: nat, i: nat, run: nat)
    requires start <= i < |input| && run == if Front(input[i..]) < 130 then Front(input[i..]) else 130
    requires i + run <= |input|
    ensures RleCode(input[i..], input[start..i]) ==
      if run >= 3 then (LiteralCode(input[start..i]) + [128 + (run - 3), input[i]])
        + RleCode(input[i + run..], input[i + run..i + run])
      else RleCode(input[i + 1..], input[start..i + 1])
  {
    hide LiteralCode, Front;
    assert input[i..][run..] == input[i + run..] && input[i..][1..] == input[i + 1..];
    assert input[start..i] + [input[i]] == input[start..i + 1] && input[i + run..i + run] == [];
  }

  lemma RleEnd(input: Buffer, start: nat)
    requires start <= |input|
    ensures RleCode(input[|input|..], input[start..]) == LiteralCode(input[start..])
    ensures RleCode(input[0..], input[0..0]) == RleCode(input, [])
  {
    assert input[|input|..] == [] && input[0..] == input && input[0..0] == [];
  }

  /** Lines 152-160. */
  method FlushLiterals(out0: Buffer, input: Buffer, from: nat, to: nat) returns (out: Buffer)
    requires from <= to <= |input| && RleStandsFor(out0, input[..from])
    ensures RleStandsFor(out, input[..to]) && out == out0 + LiteralCode(input[from..to])
  {
    hide RleStandsFor, LiteralCode;
    out := out0;
    var s := from;
    NoLiterals(input, to);
    while s < to
      invariant from <= s <= to && RleStandsFor(out, input[..s])
      invariant out + LiteralCode(input[s..to]) == out0 + LiteralCode(input[from..to])
    {
      var chunk := if to - s < 128 then to - s else 128;
      RleLiteral(out, input[..s], input[s..s + chunk]);
      assert input[..s] + input[s..s + chunk] == input[..s + chunk];
      LiteralNext(input, s, to, chunk);
      Grouped(out, [chunk - 1] + input[s..s + chunk], LiteralCode(input[s + chunk..to]));
      out := out + ([chunk - 1] + input[s..s + chunk]);
      s := s + chunk;
    }
  }

  /** The run of equal bytes at `i`, at most 130 long (lines 163-168). */
  method RunLength(input: Buffer, i: nat) returns (run: nat)
    requires i < |input|
    ensures 1 <= run <= 130 && i + run <= |input| && input[i..i + run] == Copies(input[i], run)
    ensures run == if Front(input[i..]) < 130 then Front(input[i..]) else 130
  {
    run := 1;
    while i + run < |input| && input[i + run] == input[i] && run < 127 + 3
      invariant 1 <= run <= 130 && i + run <= |input|
      invariant forall k :: i <= k < i + run ==> input[k] == input[i]
    {
      run := run + 1;
    }
    ghost var rest := input[i..];
    forall k | 0 <= k < run ensures rest[k] == rest[0] {
      assert rest[k] == input[i + k];
    }
    FrontIs(rest, run);
  }

  /** Lines 146-182. */
  method RleCompress(input: Buffer) returns (out: Buffer)
    ensures RleDecode(out, []) == Ok(input) && out == RleCode(input, [])
  {
    hide RleStandsFor, RleDecode, RleCode, LiteralCode, Front;
    out := [];
    var i: nat, literalStart: nat := 0, 0;
    RleNothing();
    RleEnd(input, 0);
    assert input[..0] == [];
    while i < |input|
      invariant literalStart <= i <= |input| && RleStandsFor(out, input[..literalStart])
      invariant out + RleCode(input[i..], input[literalStart..i]) == RleCode(input, [])
    {
      var run := RunLength(input, i);
      RleNext(input, literalStart, i, run);
      if run >= 3 {
        ghost var code: Buffer, more := [128 + (run - 3), input[i]], RleCode(input[i + run..], input[i + run..i + run]);
        Grouped(out, LiteralCode(input[literalStart..i]) + code, more);
        Grouped(out, LiteralCode(input[literalStart..i]), code);
        out := FlushLiterals(out, input, literalStart, i);
        RleRepeat(out, input[..i], input[i], run);
        assert input[..i] + input[i..i + run] == input[..i + run];
        out := out + [128 + (run - 3), input[i]];
        i := i + run;
        literalStart := i;
      } else {
        i := i + 1;
      }
    }
    RleEnd(input, literalStart);
    out := FlushLiterals(out, input, literalStart, |input|);
    assert input[..|input|] == input;
    RleDone(out, input);
  }

  lemma RleDone(code: Buffer, plain: Buffer)
    requires RleStandsFor(code, plain)
    ensures RleDecode(code, []) == Ok(plain)
  {
    assert code + [] == code;
    assert RleDecode(code + [], []) == RleDecode([], plain);
  }

  lemma RleNothing()
    ensures RleStandsFor([], [])
  {
    forall rest: Buffer ensures RleDecode([] + rest, []) == RleDecode(rest, []) {
      assert [] + rest == rest;
    }
  }

  // ----- LZ77 decoding -----------------------------------------------------------------------

  const LZ_WINDOW: nat := 4096
  const LZ_MIN_MATCH: nat := 4
  const LZ_MAX_MATCH: nat := 255 + LZ_MIN_MATCH

  /** Copying `len` bytes from `start` on; the copy may run into itself. */
  function CopyFrom(out: Buffer, start: nat, len: nat): (r: Buffer)
    requires start < |out|
    ensures |r| == |out| + len
  {
    if len == 0 then out
    else
      var front := CopyFrom(out, start, len - 1);
      front + [front[start + len - 1]]
  }

  function U16(low: nat, high: nat): nat { low + 256 * high }

  /** Decodes groups: a control byte, then up to eight units. */
  function LzDecode(src: Buffer, out: Buffer): Decoded
    decreases |src|, 0
  {
    if src == [] then Ok(out) else LzUnits(src[1..], src[0], 0, out)
  }

  /** Decodes the units of a group from bit `bit` of its control byte on. */
  function LzUnits(src: Buffer, control: nat, bit: nat, out: Buffer): Decoded
    decreases |src|, 1
  {
    if bit >= 8 || src == [] then LzDecode(src, out)
    else if Bit(control, bit) then
      if |src| < 3 then Err(Truncated)
      else
        var dist: nat, len: nat := U16(src[0], src[1]), src[2] + LZ_MIN_MATCH;
        if dist == 0 || dist > |out| then Err(Truncated)
        else LzUnits(src[3..], control, bit + 1, CopyFrom(out, |out| - dist, len))
    else LzUnits(src[1..], control, bit + 1, out + [src[0]])
  }

  /** Lines 282-316. */
  method LzDecompress(src: Buffer) returns (r: Decoded)
    ensures r == LzDecode(src, [])
  {
    hide Bit, CopyFrom, LzDecode, LzUnits;
    var out: Buffer, i: nat := [], 0;
    assert src[0..] == src;
    while i < |src|
      invariant i <= |src| && LzDecode(src, []) == LzDecode(src[i..], out)
      decreases |src| - i
    {
      GroupStart(src, i, out);
      ghost var start := i;
      var control := src[i];
      i := i + 1;
      var bit: nat := 0;
      while bit < 8 && i < |src|
        invariant bit <= 8 && start < i <= |src| && LzDecode(src, []) == LzUnits(src[i..], control, bit, out)
        decreases 8 - bit
      {
        UnitStep(src, i, control, bit, out);
        if Bit(control, bit) {
          if i + 3 > |src| {
            return Err(Truncated);
          }
          var dist: nat, len: nat := U16(src[i], src[i + 1]), src[i + 2] + LZ_MIN_MATCH;
          i := i + 3;
          if dist == 0 || dist > |out| {
            return Err(Truncated);
          }
          out := CopyBytes(out, |out| - dist, len);
        } else {
          out := out + [src[i]];
          i := i + 1;
        }
        bit := bit + 1;
      }
      GroupEnd(src, i, control, bit, out);
    }
    GroupEnd(src, i, 0, 8, out);
    return Ok(out);
  }

  lemma GroupStart(src: Buffer, i: nat, out: Buffer)
    requires i < |src|
    ensures LzDecode(src[i..], out) == LzUnits(src[i + 1..], src[i], 0, out)
  {
    assert src[i..][1..] == src[i + 1..];
  }

  lemma GroupEnd(src: Buffer, i: nat, control: nat, bit: nat, out: Buffer)
    requires i <= |src| && (bit >= 8 || i == |src|)
    ensures LzUnits(src[i..], control, bit, out) == LzDecode(src[i..], out)
    ensures i == |src| ==> LzDecode(src[i..], out) == Ok(out)
  {
  }

  lemma UnitStep(src: Buffer, i: nat, control: nat, bit: nat, out: Buffer)
    requires i < |src| && bit < 8
    ensures var all := LzUnits(src[i..], control, bit, out);
            if !Bit(control, bit) then all == LzUnits(src[i + 1..], control, bit + 1, out + [src[i]])
            else if i + 3 > |src| then all == Err(Truncated)
            else
              var dist: nat, len: nat := U16(src[i], src[i + 1]), src[i + 2] + LZ_MIN_MATCH;
              if dist == 0 || dist > |out| then all == Err(Truncated)
              else all == LzUnits(src[i + 3..], control, bit + 1, CopyFrom(out, |out| - dist, len))
  {
    hide Bit, CopyFrom;
    assert src[i..][1..] == src[i + 1..];
    assert i + 3 <= |src| ==> src[i..][3..] == src[i + 3..];
  }

  method CopyBytes(out0: Buffer, start: nat, len: nat) returns (out: Buffer)
    requires start < |out0|
    ensures out == CopyFrom(out0, start, len)
  {
    out := out0;
    for k := 0 to len
      invariant out == CopyFrom(out0, start, k)
    {
      out := out + [out[start + k]];
    }
  }

  // ----- LZ77 encoding ---------------------------------------------------------------------------

  ghost predicate EqualAt(input: Buffer, cand: nat, pos: nat, k: nat)
  {
    cand + k < |input| && pos + k < |input| && input[cand + k] == input[pos + k]
  }

  ghost predicate Matches(input: Buffer, cand: nat, pos: nat, len: nat)
  {
    cand < pos && pos + len <= |input| && forall k: nat :: k < len ==> EqualAt(input, cand, pos, k)
  }

  /** No start from `from` up to `to` has a match longer than `len`. */
  ghost predicate NoLonger(input: Buffer, pos: nat, from: int, to: nat, len: nat)
  {
    forall cand: nat, l: nat :: from <= cand < to && l <= LZ_MAX_MATCH && Matches(input, cand, pos, l) ==> l <= len
  }

  /** How far the bytes at two places agree, up to a bound. */
  function Common(input: Buffer, cand: nat, pos: nat, max: nat): (n: nat)
    requires cand < pos <= |input|
    ensures n <= max && pos + n <= |input|
    decreases max
  {
    if max == 0 || pos == |input| || input[cand] != input[pos] then 0 else 1 + Common(input, cand + 1, pos + 1, max - 1)
  }

  function WindowStart(pos: nat): nat { if pos > LZ_WINDOW then pos - LZ_WINDOW else 0 }

  /** The distance and length of the longest match among the starts below `to`, the first of
      several. */
  function Best(input: Buffer, pos: nat, to: nat): (r: (nat, nat))
    requires to <= pos <= |input|
    ensures r.1 > 0 ==> 1 <= r.0 <= pos && r.0 <= LZ_WINDOW
    ensures r.1 <= LZ_MAX_MATCH && pos + r.1 <= |input|
  {
    if to <= WindowStart(pos) then (0, 0)
    else
      var before, n := Best(input, pos, to - 1), Common(input, to - 1, pos, LZ_MAX_MATCH);
      if n > before.1 then (pos - (to - 1), n) else before
  }

  function BestReference(input: Buffer, pos: nat): (r: (nat, nat))
    requires pos <= |input|
    ensures r.1 > 0 ==> 1 <= r.0 <= pos && r.0 <= LZ_WINDOW
    ensures r.1 <= LZ_MAX_MATCH && pos + r.1 <= |input|
  {
    if |input| - pos < LZ_MIN_MATCH then (0, 0) else Best(input, pos, pos)
  }

  /** A match as long as can be is not replaced. */
  lemma {:induction false} BestStays(input: Buffer, pos: nat, from: nat, upTo: nat)
    requires from <= upTo <= pos <= |input| && WindowStart(pos) <= from
    requires Best(input, pos, from).1 == LZ_MAX_MATCH || pos + Best(input, pos, from).1 == |input|
    ensures Best(input, pos, upTo) == Best(input, pos, from)
    decreases upTo
  {
    if from < upTo {
      BestStays(input, pos, from, upTo - 1);
    }
  }

  /** The control bits, units and end of a group, from bit `bit` on. */
  datatype Group = Group(control: nat, units: Buffer, end: nat)

  function GroupFrom(input: Buffer, pos: nat, bit: nat): (g: Group)
    requires pos <= |input| && bit <= 8
    ensures pos <= g.end <= |input| && (bit < 8 && pos < |input| ==> pos < g.end)
    ensures g.control + Pow2(bit) <= 256
    decreases 8 - bit
  {
    assert Pow2(8) == 256;
    Pow2Monotone(bit, 8);
    if bit == 8 || pos == |input| then Group(0, [], pos)
    else
      var r := BestReference(input, pos);
      if r.1 >= LZ_MIN_MATCH then
        var g := GroupFrom(input, pos + r.1, bit + 1);
        Group(Pow2(bit) + g.control, [r.0 % 256, r.0 / 256, r.1 - LZ_MIN_MATCH] + g.units, g.end)
      else
        var g := GroupFrom(input, pos + 1, bit + 1);
        Group(g.control, [input[pos]] + g.units, g.end)
  }

  /** Groups of up to eight units, each the best reference if that is long enough, else a
      literal. */
  function LzCode(input: Buffer, pos: nat): Buffer
    requires pos <= |input|
    decreases |input| - pos
  {
    if pos == |input| then []
    else
      var g := GroupFrom(input, pos, 0);
      [g.control] + g.units + LzCode(input, g.end)
  }

  lemma {:induction false} CommonIsLongest(input: Buffer, cand: nat, pos: nat, max: nat)
    requires cand < pos <= |input|
    ensures Matches(input, cand, pos, Common(input, cand, pos, max))
    ensures forall m: nat :: m <= max && Matches(input, cand, pos, m) ==> m <= Common(input, cand, pos, max)
    decreases max
  {
    if max > 0 && pos < |input| && input[cand] == input[pos] {
      CommonIsLongest(input, cand + 1, pos + 1, max - 1);
      forall k: nat | k < Common(input, cand, pos, max) ensures EqualAt(input, cand, pos, k) {
        assert k == 0 || EqualAt(input, cand + 1, pos + 1, k - 1);
      }
      forall m: nat | m <= max && Matches(input, cand, pos, m) ensures m <= Common(input, cand, pos, max) {
        if m > 0 {
          Shifted(input, cand, pos, m);
        }
      }
    } else if max > 0 {
      forall m: nat | m <= max && Matches(input, cand, pos, m) ensures m == 0 {
        assert m > 0 ==> EqualAt(input, cand, pos, 0);
      }
    }
  }

  lemma Shifted(input: Buffer, cand: nat, pos: nat, m: nat)
    requires m > 0 && Matches(input, cand, pos, m)
    ensures Matches(input, cand + 1, pos + 1, m - 1)
  {
    var c, q := cand + 1, pos + 1;
    forall k: nat | k < m - 1 ensures EqualAt(input, c, q, k) {
      assert EqualAt(input, cand, pos, k + 1);
    }
  }

  /** The best match is a match, none is longer, and none that starts earlier is as long. */
  lemma {:induction false} BestIsLongest(input: Buffer, pos: nat, upTo: nat)
    requires upTo <= pos <= |input|
    ensures var (dist, len) := Best(input, pos, upTo);
            && (len > 0 ==> 1 <= dist <= pos && dist <= LZ_WINDOW && Matches(input, pos - dist, pos, len))
            && NoLonger(input, pos, pos - LZ_WINDOW, upTo, len)
            && (len > 0 ==> NoLonger(input, pos, pos - LZ_WINDOW, pos - dist, len - 1))
    decreases upTo
  {
    if upTo > WindowStart(pos) {
      BestIsLongest(input, pos, upTo - 1);
      CommonIsLongest(input, upTo - 1, pos, LZ_MAX_MATCH);
      hide Common, Matches;
    }
  }

  /** Lines 254-279: the first of the starts in the window with a longest match. */
  method LongestMatch(input: Buffer, pos: nat) returns (dist: nat, len: nat)
    requires pos < |input|
    ensures len > 0 ==>
            1 <= dist <= pos && dist <= LZ_WINDOW && len <= LZ_MAX_MATCH && Matches(input, pos - dist, pos, len)
    ensures |input| - pos >= LZ_MIN_MATCH ==> NoLonger(input, pos, pos - LZ_WINDOW, pos, len)
    ensures len > 0 ==> NoLonger(input, pos, pos - LZ_WINDOW, pos - dist, len - 1)
    ensures |input| - pos < LZ_MIN_MATCH ==> len == 0
    ensures (dist, len) == BestReference(input, pos)
  {
    hide Matches, NoLonger;
    var windowStart := WindowStart(pos);
    var maxLen := if |input| - pos < LZ_MAX_MATCH then |input| - pos else LZ_MAX_MATCH;
    BestIsLongest(input, pos, pos);
    dist, len := 0, 0;
    if maxLen < LZ_MIN_MATCH {
      return;
    }
    var cand := windowStart;
    while cand < pos
      invariant windowStart <= cand <= pos && (dist, len) == Best(input, pos, cand)
    {
      var l := MatchLength(input, cand, pos, maxLen);
      if l > len {
        len := l;
        dist := pos - cand;
        if l == maxLen {
          BestStays(input, pos, cand + 1, pos);
          return;
        }
      }
      cand := cand + 1;
    }
  }

  /** Lines 265-268. */
  method MatchLength(input: Buffer, cand: nat, pos: nat, maxLen: nat) returns (l: nat)
    requires cand < pos && pos + maxLen <= |input|
             && (maxLen == LZ_MAX_MATCH || (maxLen < LZ_MAX_MATCH && pos + maxLen == |input|))
    ensures l <= maxLen && l == Common(input, cand, pos, LZ_MAX_MATCH)
  {
    l := 0;
    while l < maxLen && input[cand + l] == input[pos + l]
      invariant l <= maxLen
      invariant l + Common(input, cand + l, pos + l, LZ_MAX_MATCH - l) == Common(input, cand, pos, LZ_MAX_MATCH)
    {
      l := l + 1;
    }
  }

  /** Copying a match reproduces the input, even when it overlaps what it copies. */
  lemma {:induction false} CopyReproduces(input: Buffer, pos: nat, dist: nat, len: nat)
    requires 1 <= dist <= pos && Matches(input, pos - dist, pos, len)
    ensures CopyFrom(input[..pos], pos - dist, len) == input[..pos + len]
  {
    if len > 0 {
      assert Matches(input, pos - dist, pos, len - 1);
      CopyReproduces(input, pos, dist, len - 1);
      assert EqualAt(input, pos - dist, pos, len - 1);
      assert input[..pos + len] == input[..pos + (len - 1)] + [input[pos + (len - 1)]];
    }
  }

  ghost predicate LzStandsFor(code: Buffer, plain: Buffer)
  {
    forall rest: Buffer :: LzDecode(code + rest, []) == LzDecode(rest, plain)
  }

  ghost predicate SameLow(a: nat, b: nat, n: nat)
  {
    forall k: nat :: k < n ==> Bit(a, k) == Bit(b, k)
  }

  /** With any control byte that starts with these bits, the units take the output from
      `before` to `after`. */
  ghost predicate UnitsStandFor(units: Buffer, control: nat, bits: nat, before: Buffer, after: Buffer)
  {
    forall rest: Buffer, c: nat :: SameLow(c, control, bits) ==>
      LzUnits(units + rest, c, 0, before) == LzUnits(rest, c, bits, after)
  }

  lemma ExtendUnits(units: Buffer, control: nat, bits: nat, before: Buffer, after: Buffer, unit: Buffer, control': nat,
          next: Buffer)
    requires UnitsStandFor(units, control, bits, before, after) && SameLow(control', control, bits)
    requires forall rest: Buffer, c: nat :: SameLow(c, control', bits + 1) ==>
             LzUnits(unit + rest, c, bits, after) == LzUnits(rest, c, bits + 1, next)
    ensures UnitsStandFor(units + unit, control', bits + 1, before, next)
  {
    hide LzUnits;
    forall rest: Buffer, c: nat | SameLow(c, control', bits + 1)
      ensures LzUnits((units + unit) + rest, c, 0, before) == LzUnits(rest, c, bits + 1, next)
    {
      LowerBits(c, control', control, bits);
      assert (units + unit) + rest == units + (unit + rest);
      assert LzUnits(units + (unit + rest), c, 0, before) == LzUnits(unit + rest, c, bits, after);
    }
  }

  lemma LowerBits(c: nat, control': nat, control: nat, bits: nat)
    requires SameLow(c, control', bits + 1) && SameLow(control', control, bits)
    ensures SameLow(c, control, bits)
  {
    hide Bit;
    forall k: nat | k < bits ensures Bit(c, k) == Bit(control, k) {
      assert k < bits + 1;
    }
  }

  lemma LiteralUnit(units: Buffer, control: nat, bits: nat, before: Buffer, after: Buffer, b: Byte)
    requires UnitsStandFor(units, control, bits, before, after) && bits < 8 && !Bit(control, bits)
    ensures UnitsStandFor(units + [b], control, bits + 1, before, after + [b])
  {
    var unit := [b];
    forall rest: Buffer, c: nat | SameLow(c, control, bits + 1)
      ensures LzUnits(unit + rest, c, bits, after) == LzUnits(rest, c, bits + 1, after + [b])
    {
      assert !Bit(c, bits);
      assert (unit + rest)[1..] == rest;
    }
    hide LzUnits, Bit;
    ExtendUnits(units, control, bits, before, after, unit, control, after + [b]);
  }

  lemma ReferenceUnit(units: Buffer, control: nat, bits: nat, before: Buffer, after: Buffer, dist: nat, len: nat)
    requires UnitsStandFor(units, control, bits, before, after) && bits < 8 && control < 256 && !Bit(control, bits)
    requires 1 <= dist <= |after| && dist < 65536 && LZ_MIN_MATCH <= len <= LZ_MAX_MATCH
    ensures control + Pow2(bits) < 256
    ensures UnitsStandFor(units + [dist % 256, dist / 256, len - LZ_MIN_MATCH], control + Pow2(bits), bits + 1, before,
                          CopyFrom(after, |after| - dist, len))
  {
    assert Pow2(8) == 256;
    SetBit(control, bits, 8);
    var unit, next := [dist % 256, dist / 256, len - LZ_MIN_MATCH], CopyFrom(after, |after| - dist, len);
    hide CopyFrom;
    forall rest: Buffer, c: nat | SameLow(c, control + Pow2(bits), bits + 1)
      ensures LzUnits(unit + rest, c, bits, after) == LzUnits(rest, c, bits + 1, next)
    {
      assert Bit(c, bits);
      assert (unit + rest)[3..] == rest;
    }
    hide LzUnits, Bit;
    ExtendUnits(units, control, bits, before, after, unit, control + Pow2(bits), next);
  }

  /** A control byte and its eight units. */
  lemma FullGroup(code: Buffer, before: Buffer, control: Byte, units: Buffer, after: Buffer)
    requires LzStandsFor(code, before) && UnitsStandFor(units, control, 8, before, after)
    ensures LzStandsFor(code + ([control] + units), after)
  {
    forall rest: Buffer ensures LzDecode((code + ([control] + units)) + rest, []) == LzDecode(rest, after) {
      var src := [control] + (units + rest);
      assert (code + ([control] + units)) + rest == code + src;
      assert LzDecode(code + src, []) == LzDecode(src, before);
      assert src[1..] == units + rest && SameLow(control, control, 8);
    }
  }

  /** The last group may stop early. */
  lemma LastGroup(code: Buffer, before: Buffer, control: Byte, bits: nat, units: Buffer, after: Buffer)
    requires LzStandsFor(code, before) && UnitsStandFor(units, control, bits, before, after)
    ensures LzDecode(code + ([control] + units), []) == Ok(after)
  {
    var src := [control] + (units + []);
    assert code + ([control] + units) == code + src;
    assert LzDecode(code + src, []) == LzDecode(src, before);
    assert src[1..] == units + [] && SameLow(control, control, bits);
    assert LzUnits(units + [], control, 0, before) == LzUnits([], control, bits, after);
  }

  lemma NoUnits(before: Buffer)
    ensures UnitsStandFor([], 0, 0, before, before) && forall k: nat :: !Bit(0, k)
  {
    forall rest: Buffer, c: nat | SameLow(c, 0, 0)
      ensures LzUnits([] + rest, c, 0, before) == LzUnits(rest, c, 0, before)
    {
      assert [] + rest == rest;
    }
    forall k: nat ensures !Bit(0, k) {
      ZeroHasNoBits(0, k);
    }
  }

  /** What one more unit adds to a group. */
  lemma GroupNext(input: Buffer, pos: nat, bit: nat)
    requires pos < |input| && bit < 8
    ensures
      var r := BestReference(input, pos);
      if r.1 >= LZ_MIN_MATCH then
        var g := GroupFrom(input, pos + r.1, bit + 1);
        GroupFrom(input, pos, bit) == Group(Pow2(bit) + g.control,
          [r.0 % 256, r.0 / 256, r.1 - LZ_MIN_MATCH] + g.units, g.end)
      else
        var g := GroupFrom(input, pos + 1, bit + 1);
        GroupFrom(input, pos, bit) == Group(g.control, [input[pos]] + g.units, g.end)
  {
    hide BestReference;
  }

  lemma GroupDone(input: Buffer, pos: nat, bit: nat)
    requires pos <= |input| && bit <= 8 && (bit == 8 || pos == |input|)
    ensures GroupFrom(input, pos, bit) == Group(0, [], pos)
  {
  }

  /** One group: lines 229-247. */
  method CompressGroup(input: Buffer, start: nat) returns (control: Byte, bits: nat, units: Buffer, end: nat)
    requires start < |input|
    ensures start < end <= |input| && bits <= 8 && (bits < 8 ==> end == |input|)
    ensures UnitsStandFor(units, control, bits, input[..start], input[..end])
    ensures GroupFrom(input, start, 0) == Group(control, units, end)
  {
    hide UnitsStandFor, CopyFrom, BestReference, Matches, NoLonger, GroupFrom, Bit, Pow2;
    control, units, end := 0, [], start;
    bits := 0;
    NoUnits(input[..start]);
    while bits < 8 && end < |input|
      invariant start <= end <= |input| && bits <= 8 && (bits > 0 ==> start < end)
      invariant UnitsStandFor(units, control, bits, input[..start], input[..end])
      invariant forall k: nat :: k >= bits ==> !Bit(control, k)
      invariant var g, rest := GroupFrom(input, start, 0), GroupFrom(input, end, bits);
                g == Group(control + rest.control, units + rest.units, rest.end)
      decreases 8 - bits
    {
      var dist, len := LongestMatch(input, end);
      GroupNext(input, end, bits);
      if len >= LZ_MIN_MATCH {
        SetBits(control, bits, control + Pow2(bits));
        ReferenceUnit(units, control, bits, input[..start], input[..end], dist, len);
        CopyReproduces(input, end, dist, len);
        control := control + Pow2(bits);
        Grouped(units, [dist % 256, dist / 256, len - LZ_MIN_MATCH], GroupFrom(input, end + len, bits + 1).units);
        units := units + [dist % 256, dist / 256, len - LZ_MIN_MATCH];
        end := end + len;
      } else {
        LiteralUnit(units, control, bits, input[..start], input[..end], input[end]);
        assert input[..end] + [input[end]] == input[..end + 1];
        Grouped(units, [input[end]], GroupFrom(input, end + 1, bits + 1).units);
        units := units + [input[end]];
        end := end + 1;
      }
      bits := bits + 1;
    }
    GroupDone(input, end, bits);
  }

  lemma SetBits(control: Byte, bits: nat, next: nat)
    requires bits < 8 && next == control + Pow2(bits) && forall k: nat :: k >= bits ==> !Bit(control, k)
    ensures next < 256 && forall k: nat :: k >= bits + 1 ==> !Bit(next, k)
  {
    assert Pow2(8) == 256;
    SetBit(control, bits, 8);
    forall k: nat | k >= bits + 1 ensures !Bit(next, k) {
      assert Bit(control + Pow2(bits), k) <==> k == bits || Bit(control, k);
    }
  }

  /** Lines 224-251. */
  method LzCompress(input: Buffer) returns (out: Buffer)
    ensures LzDecode(out, []) == Ok(input) && out == LzCode(input, 0)
  {
    hide LzStandsFor, UnitsStandFor, LzDecode, GroupFrom, LzCode;
    out := [];
    var i: nat := 0;
    LzNothing(input);
    while i < |input|
      invariant i <= |input| && out + LzCode(input, i) == LzCode(input, 0)
      invariant i <= |input| && (i < |input| ==> LzStandsFor(out, input[..i]))
                && (i == |input| ==> LzDecode(out, []) == Ok(input))
    {
      LzNext(input, i);
      var control, bits, units, end := CompressGroup(input, i);
      if end == |input| {
        LastGroup(out, input[..i], control, bits, units, input[..end]);
        assert input[..end] == input;
      } else {
        FullGroup(out, input[..i], control, units, input[..end]);
      }
      Grouped(out, [control] + units, LzCode(input, end));
      out := out + ([control] + units);
      i := end;
    }
    NoGroups(input);
  }

  lemma NoGroups(input: Buffer)
    ensures LzCode(input, |input|) == []
  {
  }

  lemma LzNext(input: Buffer, pos: nat)
    requires pos < |input|
    ensures LzCode(input, pos) == var g := GroupFrom(input, pos, 0); ([g.control] + g.units) + LzCode(input, g.end)
  {
    hide GroupFrom;
  }

  lemma LzNothing(input: Buffer)
    ensures LzStandsFor([], input[..0]) && (input == [] ==> LzDecode([], []) == Ok(input))
  {
    forall rest: Buffer ensures LzDecode([] + rest, []) == LzDecode(rest, input[..0]) {
      assert [] + rest == rest && input[..0] == [];
    }
  }

  // ----- frames ------------------------------------------------------------------------------------

  const FRAME_MAGIC: Byte := 0xC5

  function Tag(codec: Codec): Byte
  {
    match codec
    case Store => 0
    case Rle => 1
    case Lz => 2
  }

  function FromTag(b: Byte): Option<Codec>
  {
    if b == 0 then Some(Store) else if b == 1 then Some(Rle) else if b == 2 then Some(Lz) else None
  }

  function DecodeBody(codec: Codec, body: Buffer): Decoded
  {
    match codec
    case Store => Ok(body)
    case Rle => RleDecode(body, [])
    case Lz => LzDecode(body, [])
  }

  /** Lines 112-136. */
  function Unframed(src: Buffer): Decoded
  {
    if |src| < 6 || src[0] != FRAME_MAGIC then Err(ShortHeader)
    else
      var codec := FromTag(src[1]);
      if codec.None? then Err(BadCodec(src[1]))
      else
        var length, out := FromLe(src[2..6]), DecodeBody(codec.value, src[6..]);
        if out.Ok? && |out.value| != length then Err(LengthMismatch(length, |out.value|)) else out
  }

  method Unframe(src: Buffer) returns (r: Decoded)
    ensures r == Unframed(src)
  {
    if |src| < 6 || src[0] != FRAME_MAGIC {
      return Err(ShortHeader);
    }
    var codec := FromTag(src[1]);
    if codec.None? {
      return Err(BadCodec(src[1]));
    }
    match codec.value {
      case Store => r := Ok(src[6..]);
      case Rle => r := RleDecompress(src[6..]);
      case Lz => r := LzDecompress(src[6..]);
    }
    if r.Ok? && |r.value| != FromLe(src[2..6]) {
      r := Err(LengthMismatch(FromLe(src[2..6]), |r.value|));
    }
  }

  function BodyOf(codec: Codec, input: Buffer): Buffer
  {
    match codec
    case Store => input
    case Rle => RleCode(input, [])
    case Lz => LzCode(input, 0)
  }

  function FrameOf(codec: Codec, input: Buffer): Buffer
  {
    [FRAME_MAGIC, Tag(codec)] + Le(|input|, 4) + BodyOf(codec, input)
  }

  /** Lines 84-96: every codec's frame of a block shorter than 2^32 bytes gives the block
      back. */
  method Frame(codec: Codec, input: Buffer) returns (out: Buffer)
    requires |input| < 0x1_0000_0000
    ensures Unframed(out) == Ok(input) && out == FrameOf(codec, input)
    ensures codec.Store? ==> |out| == |input| + 6
  {
    var body: Buffer;
    match codec {
      case Store => body := input;
      case Rle => body := RleCompress(input);
      case Lz => body := LzCompress(input);
    }
    out := [FRAME_MAGIC, Tag(codec)] + Le(|input|, 4) + body;
    FramedBack(codec, input, body);
  }

  lemma FramedBack(codec: Codec, input: Buffer, body: Buffer)
    requires |input| < 0x1_0000_0000 && DecodeBody(codec, body) == Ok(input)
    ensures Unframed([FRAME_MAGIC, Tag(codec)] + Le(|input|, 4) + body) == Ok(input)
  {
    hide LzDecode, RleDecode;
    var out := [FRAME_MAGIC, Tag(codec)] + Le(|input|, 4) + body;
    assert out[2..6] == Le(|input|, 4) && out[6..] == body;
    Pow256Is64();
    FromLeOfLe(|input|, 4);
  }

  /** No frame is smaller, and none that comes earlier is as small. */
  ghost predicate IsSmallest(codec: Codec, input: Buffer)
  {
    forall c: Codec ::
      |FrameOf(codec, input)| <= |FrameOf(c, input)|
        && (Tag(c) < Tag(codec) ==> |FrameOf(codec, input)| < |FrameOf(c, input)|)
  }

  /** Lines 99-109: the smallest of the three frames. */
  method CompressBest(input: Buffer) returns (out: Buffer)
    requires |input| < 0x1_0000_0000
    ensures Unframed(out) == Ok(input) && |out| <= |input| + 6
    ensures exists codec :: out == FrameOf(codec, input) && IsSmallest(codec, input)
  {
    hide FrameOf;
    out := Frame(Store, input);
    ghost var chosen := Store;
    var rle := Frame(Rle, input);
    var lz := Frame(Lz, input);
    if |rle| < |out| {
      out, chosen := rle, Rle;
    }
    if |lz| < |out| {
      out, chosen := lz, Lz;
    }
    forall c: Codec
      ensures |FrameOf(chosen, input)| <= |FrameOf(c, input)|
              && (Tag(c) < Tag(chosen) ==> |FrameOf(chosen, input)| < |FrameOf(c, input)|)
    {
      match c case Store => case Rle => case Lz =>
    }
    assert IsSmallest(chosen, input);
  }
}
