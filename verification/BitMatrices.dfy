/** A dense bit matrix and its in-place transitive closure (src/bitmatrix.rs). */
module BitMatrices {
  import opened Words

  /** Line 50: the word of row `r` that holds column `c`. */
  function Cell(wordsPerRow: nat, r: nat, c: nat): nat
  {
    r * wordsPerRow + c / 64
  }

  lemma CellBounds(rows: nat, wordsPerRow: nat, r: nat, c: nat)
    requires r < rows && c < 64 * wordsPerRow
    ensures r * wordsPerRow <= Cell(wordsPerRow, r, c) < (r + 1) * wordsPerRow <= rows * wordsPerRow
  {
    assert (rows - (r + 1)) * wordsPerRow >= 0;
  }

  /** Rows occupy disjoint stretches of the words. */
  lemma RowsApart(wordsPerRow: nat, r: nat, s: nat)
    requires r < s
    ensures (r + 1) * wordsPerRow <= s * wordsPerRow
  {
    assert (s - (r + 1)) * wordsPerRow >= 0;
  }

  /** Bit `(r, c)` of the words. */
  ghost predicate BitAt(data: seq<bv64>, wordsPerRow: nat, r: nat, c: nat)
  {
    var w := Cell(wordsPerRow, r, c);
    w < |data| && Bit(data[w], c % 64)
  }

  /** The words are `rows` rows of enough words, and bits past the last column are 0. */
  ghost predicate Packed(data: seq<bv64>, wordsPerRow: nat, rows: nat, cols: nat)
  {
    && cols <= 64 * wordsPerRow
    && |data| == rows * wordsPerRow
    && forall r, c :: 0 <= r < rows && cols <= c < 64 * wordsPerRow ==> !BitAt(data, wordsPerRow, r, c)
  }

  /** `data` with bit `(r, c)` set or cleared. */
  ghost predicate Updated(data: seq<bv64>, data': seq<bv64>, wordsPerRow: nat, rows: nat, r: nat, c: nat, value: bool)
  {
    && |data'| == |data|
    && forall q, d :: 0 <= q < rows && 0 <= d < 64 * wordsPerRow ==>
      (BitAt(data', wordsPerRow, q, d) <==> if q == r && d == c then value else BitAt(data, wordsPerRow, q, d))
  }

  lemma UpdateCell(data: seq<bv64>, wordsPerRow: nat, rows: nat, r: nat, c: nat, value: bool, word: bv64)
    requires |data| == rows * wordsPerRow && r < rows && c < 64 * wordsPerRow
    requires var w := Cell(wordsPerRow, r, c);
             w < |data| && word == if value then Or(data[w], Mask(c % 64)) else AndNot(data[w], Mask(c % 64))
    ensures Updated(data, data[Cell(wordsPerRow, r, c) := word], wordsPerRow, rows, r, c, value)
  {
    var w := Cell(wordsPerRow, r, c);
    hide Bit, Mask, Or, AndNot;
    var data' := data[w := word];
    forall q, d | 0 <= q < rows && 0 <= d < 64 * wordsPerRow
      ensures BitAt(data', wordsPerRow, q, d) <==> if q == r && d == c then value else BitAt(data, wordsPerRow, q, d)
    {
      SameCell(rows, wordsPerRow, r, c, q, d);
      SetBit(data[w], c % 64, d % 64);
      ClearBit(data[w], c % 64, d % 64);
    }
  }

  /** Two positions share a word and a bit only if they are the same position. */
  lemma SameCell(rows: nat, wordsPerRow: nat, r: nat, c: nat, q: nat, d: nat)
    requires r < rows && q < rows && c < 64 * wordsPerRow && d < 64 * wordsPerRow
    ensures Cell(wordsPerRow, q, d) < rows * wordsPerRow
    ensures Cell(wordsPerRow, r, c) == Cell(wordsPerRow, q, d) ==> r == q && c / 64 == d / 64
    ensures c / 64 == d / 64 && c % 64 == d % 64 ==> c == d
  {
    CellBounds(rows, wordsPerRow, r, c);
    CellBounds(rows, wordsPerRow, q, d);
    RowsDisjoint(wordsPerRow, rows, r, q);
    if c / 64 == d / 64 && c % 64 == d % 64 {
      assert c == 64 * (c / 64) + c % 64;
    }
  }

  class BitMatrix {
    var rows: nat
    var cols: nat
    var wordsPerRow: nat
    var data: seq<bv64>

    ghost predicate Valid()
      reads this
    {
      Packed(data, wordsPerRow, rows, cols)
    }

    /** The bits inside the matrix, row by row. */
    ghost function Bits(): (m: seq<seq<bool>>)
      reads this
      ensures |m| == rows && forall r :: 0 <= r < rows ==> |m[r]| == cols
      ensures forall r, c :: 0 <= r < rows && 0 <= c < cols ==> m[r][c] == BitAt(data, wordsPerRow, r, c)
    {
      BitsOf(data, wordsPerRow, rows, cols)
    }

    /** Lines 20-28. */
    constructor (rows: nat, cols: nat)
      ensures Valid() && this.rows == rows && this.cols == cols
      ensures forall r, c :: 0 <= r < rows && 0 <= c < cols ==> !Bits()[r][c]
    {
      var n := if (cols + 63) / 64 > 1 then (cols + 63) / 64 else 1;
      this.rows, this.cols, wordsPerRow := rows, cols, n;
      data := seq(rows * n, _ => 0);
      new;
      hide Bit;
      ZeroWord();
    }

    /** Lines 55-61. */
    method Get(r: nat, c: nat) returns (bit: bool)
      requires Valid()
      ensures bit <==> r < rows && c < cols && Bits()[r][c]
    {
      if r >= rows || c >= cols {
        return false;
      }
      CellBounds(rows, wordsPerRow, r, c);
      var word := r * wordsPerRow + c / 64;
      bit := And(data[word], Mask(c % 64)) != 0;
    }

    /** Lines 64-74. */
    method Set(r: nat, c: nat, value: bool)
      requires Valid()
      modifies this`data
      ensures Valid()
      ensures forall q, d :: 0 <= q < rows && 0 <= d < cols ==>
        Bits()[q][d] == if q == r && d == c then value else old(Bits())[q][d]
    {
      hide Bit, Mask, Or, AndNot;
      if r >= rows || c >= cols {
        return;
      }
      CellBounds(rows, wordsPerRow, r, c);
      var word := r * wordsPerRow + c / 64;
      ghost var before := data;
      if value {
        data := data[word := Or(data[word], Mask(c % 64))];
      } else {
        data := data[word := AndNot(data[word], Mask(c % 64))];
      }
      UpdateCell(before, wordsPerRow, rows, r, c, value, data[word]);
    }

    /** Lines 95-108: OR row `src` into row `dst`, word by word. */
    method OrRowInto(dst: nat, src: nat) returns (changed: bool)
      requires Valid() && dst < rows && src < rows
      modifies this`data
      ensures Valid() && (changed <==> data != old(data))
      ensures forall q, d :: 0 <= q < rows && 0 <= d < cols && q != dst ==> Bits()[q][d] == old(Bits())[q][d]
      ensures forall d :: 0 <= d < cols ==> Bits()[dst][d] == (old(Bits())[dst][d] || old(Bits())[src][d])
    {
      hide Bit, Or, Packed, RowOred;
      PackedSize(data, wordsPerRow, rows, cols);
      changed := false;
      var dbase := dst * wordsPerRow;
      var sbase := src * wordsPerRow;
      RowRange(wordsPerRow, rows, dst);
      RowRange(wordsPerRow, rows, src);
      RowsDisjoint(wordsPerRow, rows, dst, src);
      changed := OrWords(dbase, sbase);
      OrRows(old(data), data, wordsPerRow, rows, cols, dst, src);
    }

    /** Lines 99-106. */
    method OrWords(dbase: nat, sbase: nat) returns (changed: bool)
      requires dbase + wordsPerRow <= |data| && sbase + wordsPerRow <= |data|
      requires dbase == sbase || dbase + wordsPerRow <= sbase || sbase + wordsPerRow <= dbase
      modifies this`data
      ensures |data| == |old(data)| && RowOred(old(data), data, dbase, sbase, wordsPerRow)
      ensures changed <==> data != old(data)
    {
      hide Or, RowOred;
      StartOred(data, dbase, sbase);
      changed := false;
      var i := 0;
      while i < wordsPerRow
        invariant i <= wordsPerRow && |data| == |old(data)|
        invariant RowOred(old(data), data, dbase, sbase, i)
        invariant changed <==> data != old(data)
      {
        var before := data[dbase + i];
        var after := Or(before, data[sbase + i]);
        OredNext(old(data), data, dbase, sbase, i);
        OneMoreChange(old(data), data, dbase + i, after);
        if after != before {
          changed := true;
        }
        data := data[dbase + i := after];
        i := i + 1;
      }
    }

    /** Lines 113-122: afterwards bit `(i, j)` is set exactly when a non-empty path
        led from `i` to `j` before. */
    method TransitiveClosure()
      requires Valid() && rows == cols
      modifies this`data
      ensures Valid()
      ensures forall i, j :: 0 <= i < rows && 0 <= j < rows ==> (Bits()[i][j] <==> Connected(old(Bits()), i, j))
    {
      ghost var m := Bits();
      hide Packed, BitAt, MidRound;
      StartRounds(m);
      var k := 0;
      while k < rows
        invariant k <= rows && Valid()
        invariant MidRound(m, Bits(), k, 0)
      {
        var i := 0;
        while i < rows
          invariant i <= rows && Valid()
          invariant MidRound(m, Bits(), k, i)
        {
          ghost var before := Bits();
          var bit := Get(i, k);
          if bit {
            var _ := OrRowInto(i, k);
          }
          RoundStep(m, before, Bits(), k, i);
          i := i + 1;
        }
        NextRound(m, Bits(), k);
        k := k + 1;
      }
      EndRounds(m, Bits());
      forall i, j | 0 <= i < rows && 0 <= j < rows
        ensures Bits()[i][j] <==> Connected(m, i, j)
      {
        ViaAllIsConnected(m, i, j);
      }
    }
  }

  ghost function BitsOf(data: seq<bv64>, wordsPerRow: nat, rows: nat, cols: nat): (m: seq<seq<bool>>)
    ensures |m| == rows && forall r :: 0 <= r < rows ==> |m[r]| == cols
    ensures forall r, c :: 0 <= r < rows && 0 <= c < cols ==> m[r][c] == BitAt(data, wordsPerRow, r, c)
  {
    seq(rows, r requires 0 <= r < rows => seq(cols, c requires 0 <= c < cols => BitAt(data, wordsPerRow, r, c)))
  }

  lemma ZeroWord()
    ensures forall b :: !Bit(0, b)
  {
    forall b ensures !Bit(0, b) { ZeroBits(b); }
  }

  lemma PackedSize(data: seq<bv64>, wordsPerRow: nat, rows: nat, cols: nat)
    requires Packed(data, wordsPerRow, rows, cols)
    ensures |data| == rows * wordsPerRow && cols <= 64 * wordsPerRow
  {
  }

  lemma RowRange(wordsPerRow: nat, rows: nat, r: nat)
    requires r < rows
    ensures 0 <= r * wordsPerRow && r * wordsPerRow + wordsPerRow <= rows * wordsPerRow
  {
    RowsApart(wordsPerRow, r, rows);
  }

  /** The words of row `src` lie outside those of another row. */
  lemma SourceUntouched(wordsPerRow: nat, dst: nat, src: nat, i: nat)
    requires dst != src && i < wordsPerRow
    ensures !(dst * wordsPerRow <= src * wordsPerRow + i < dst * wordsPerRow + wordsPerRow)
  {
    if dst < src {
      RowsApart(wordsPerRow, dst, src);
    } else {
      RowsApart(wordsPerRow, src, dst);
    }
  }

  /** `data'` is `data` after the first `n` words of the row at `dbase` have been
      ORed with those of the row at `sbase`. */
  ghost predicate RowOred(data: seq<bv64>, data': seq<bv64>, dbase: nat, sbase: nat, n: nat)
  {
    && |data'| == |data| && dbase + n <= |data| && sbase + n <= |data|
    && (forall x :: 0 <= x < |data| && !(dbase <= x < dbase + n) ==> data'[x] == data[x])
    && (forall x :: dbase <= x < dbase + n ==> data'[x] == Or(data[x], data[sbase + (x - dbase)]))
  }

  lemma StartOred(data: seq<bv64>, dbase: nat, sbase: nat)
    requires dbase <= |data| && sbase <= |data|
    ensures RowOred(data, data, dbase, sbase, 0)
  {
  }

  lemma OredNext(data: seq<bv64>, data': seq<bv64>, dbase: nat, sbase: nat, i: nat)
    requires RowOred(data, data', dbase, sbase, i) && dbase + i < |data| && sbase + i < |data|
    requires dbase == sbase || !(dbase <= sbase + i <= dbase + i)
    ensures RowOred(data, data'[dbase + i := Or(data'[dbase + i], data'[sbase + i])], dbase, sbase, i + 1)
    ensures data'[dbase + i] == data[dbase + i]
  {
    hide Or;
  }

  lemma OneMoreChange(data: seq<bv64>, data': seq<bv64>, d: nat, word: bv64)
    requires |data'| == |data| && d < |data| && data'[d] == data[d]
    ensures data'[d := word] == data <==> data' == data && word == data[d]
  {
    if data'[d := word] == data {
      assert data'[d := word][d] == data[d];
      assert data' == data'[d := word];
    }
  }

  /** The rows of the words are disjoint. */
  lemma RowsDisjoint(wordsPerRow: nat, rows: nat, dst: nat, src: nat)
    requires dst < rows && src < rows
    ensures dst != src ==>
      dst * wordsPerRow + wordsPerRow <= src * wordsPerRow || src * wordsPerRow + wordsPerRow <= dst * wordsPerRow
  {
    if dst < src {
      RowsApart(wordsPerRow, dst, src);
    } else if src < dst {
      RowsApart(wordsPerRow, src, dst);
    }
  }

  /** Word-wise OR of a row is bit-wise OR of the row, padding included. */
  lemma OrRows(data: seq<bv64>, data': seq<bv64>, wordsPerRow: nat, rows: nat, cols: nat, dst: nat, src: nat)
    requires Packed(data, wordsPerRow, rows, cols) && dst < rows && src < rows && |data'| == |data|
    requires RowOred(data, data', dst * wordsPerRow, src * wordsPerRow, wordsPerRow)
    ensures forall q, d :: 0 <= q < rows && 0 <= d < 64 * wordsPerRow ==>
      (BitAt(data', wordsPerRow, q, d) <==>
        BitAt(data, wordsPerRow, q, d) || (q == dst && BitAt(data, wordsPerRow, src, d)))
    ensures Packed(data', wordsPerRow, rows, cols)
  {
    hide Bit, Or;
    forall q, d | 0 <= q < rows && 0 <= d < 64 * wordsPerRow
      ensures BitAt(data', wordsPerRow, q, d) <==>
              BitAt(data, wordsPerRow, q, d) || (q == dst && BitAt(data, wordsPerRow, src, d))
    {
      var x := Cell(wordsPerRow, q, d);
      CellBounds(rows, wordsPerRow, q, d);
      CellBounds(rows, wordsPerRow, src, d);
      assert d / 64 < wordsPerRow;
      if q == dst {
        assert data'[x] == Or(data[x], data[src * wordsPerRow + d / 64]);
        OrBits(data[x], data[src * wordsPerRow + d / 64], d % 64);
      } else {
        SourceUntouched(wordsPerRow, dst, q, d / 64);
      }
    }
  }

  // ----- Warshall's recurrence and paths --------------------------------------

  ghost predicate Square(m: seq<seq<bool>>)
  {
    forall r :: 0 <= r < |m| ==> |m[r]| == |m|
  }

  /** There is a path from `i` to `j` through inner vertices below `k`. */
  ghost predicate Via(m: seq<seq<bool>>, k: nat, i: nat, j: nat)
    requires Square(m) && k <= |m| && i < |m| && j < |m|
    decreases k
  {
    if k == 0 then m[i][j] else Via(m, k - 1, i, j) || (Via(m, k - 1, i, k - 1) && Via(m, k - 1, k - 1, j))
  }

  /** What one round of Warshall does to row `i`, and that row `k` does not move. */
  lemma ViaRound(m: seq<seq<bool>>, k: nat, i: nat)
    requires Square(m) && k < |m| && i < |m|
    ensures forall j :: 0 <= j < |m| ==>
            Via(m, k + 1, i, j) == (Via(m, k, i, j) || (Via(m, k, i, k) && Via(m, k, k, j)))
    ensures forall j :: 0 <= j < |m| ==> Via(m, k + 1, k, j) == Via(m, k, k, j)
  {
  }

  /** Rows below `i` have had round `k`, the others have not. */
  ghost predicate MidRound(m: seq<seq<bool>>, now: seq<seq<bool>>, k: nat, i: nat)
  {
    && Square(m) && Square(now) && |now| == |m| && k + (if i > 0 then 1 else 0) <= |m|
    && (forall q, j :: 0 <= q < |m| && 0 <= j < |m| && q < i ==> now[q][j] == Via(m, k + 1, q, j))
    && (forall q, j :: 0 <= q < |m| && 0 <= j < |m| && i <= q ==> now[q][j] == Via(m, k, q, j))
  }

  lemma StartRounds(m: seq<seq<bool>>)
    requires Square(m)
    ensures MidRound(m, m, 0, 0)
  {
  }

  lemma RoundStep(m: seq<seq<bool>>, now: seq<seq<bool>>, next: seq<seq<bool>>, k: nat, i: nat)
    requires MidRound(m, now, k, i) && i < |m| && k < |m| && Square(next) && |next| == |m|
    requires forall q, d :: 0 <= q < |m| && 0 <= d < |m| && q != i ==> next[q][d] == now[q][d]
    requires forall d :: 0 <= d < |m| ==> next[i][d] == (now[i][d] || (now[i][k] && now[k][d]))
    ensures MidRound(m, next, k, i + 1)
  {
    ViaRound(m, k, i);
    hide Via;
    forall q, j | 0 <= q < |m| && 0 <= j < |m|
      ensures q < i + 1 ==> next[q][j] == Via(m, k + 1, q, j)
      ensures i + 1 <= q ==> next[q][j] == Via(m, k, q, j)
    {
      assert q == i ==> next[i][j] == (now[i][j] || (now[i][k] && now[k][j]));
    }
  }

  lemma NextRound(m: seq<seq<bool>>, now: seq<seq<bool>>, k: nat)
    requires k < |m| && MidRound(m, now, k, |m|)
    ensures MidRound(m, now, k + 1, 0)
  {
  }

  lemma EndRounds(m: seq<seq<bool>>, now: seq<seq<bool>>)
    requires MidRound(m, now, |m|, 0)
    ensures forall i, j :: 0 <= i < |m| && 0 <= j < |m| ==> now[i][j] == Via(m, |m|, i, j)
  {
  }

  /** A walk along at least one edge. */
  ghost predicate Walk(m: seq<seq<bool>>, p: seq<nat>, i: nat, j: nat)
    requires Square(m)
  {
    && |p| >= 2 && p[0] == i && p[|p| - 1] == j
    && (forall t :: 0 <= t < |p| ==> p[t] < |m|)
    && forall t, u :: 0 <= t && u == t + 1 && u < |p| ==> m[p[t]][p[u]]
  }

  ghost predicate Connected(m: seq<seq<bool>>, i: nat, j: nat)
    requires Square(m)
  {
    exists p :: Walk(m, p, i, j)
  }

  lemma JoinWalks(m: seq<seq<bool>>, i: nat, h: nat, j: nat)
    requires Square(m) && Connected(m, i, h) && Connected(m, h, j)
    ensures Connected(m, i, j)
  {
    var p :| Walk(m, p, i, h);
    var q :| Walk(m, q, h, j);
    var r := p + q[1..];
    forall t, u | 0 <= t && u == t + 1 && u < |r|
      ensures m[r[t]][r[u]]
    {
      if u < |p| {
        assert r[t] == p[t] && r[u] == p[u];
      } else {
        assert r[u] == q[u - |p| + 1] && r[t] == q[t - |p| + 1];
      }
    }
    assert Walk(m, r, i, j);
  }

  lemma {:induction false} ViaIsConnected(m: seq<seq<bool>>, k: nat, i: nat, j: nat)
    requires Square(m) && k <= |m| && i < |m| && j < |m| && Via(m, k, i, j)
    ensures Connected(m, i, j)
  {
    if k == 0 {
      assert Walk(m, [i, j], i, j);
    } else if Via(m, k - 1, i, j) {
      ViaIsConnected(m, k - 1, i, j);
    } else {
      ViaIsConnected(m, k - 1, i, k - 1);
      ViaIsConnected(m, k - 1, k - 1, j);
      JoinWalks(m, i, k - 1, j);
    }
  }

  lemma {:induction false} ViaGrows(m: seq<seq<bool>>, k: nat, i: nat, j: nat)
    requires Square(m) && k <= |m| && i < |m| && j < |m| && m[i][j]
    ensures Via(m, k, i, j)
  {
    if k > 0 {
      ViaGrows(m, k - 1, i, j);
    }
  }

  /** Paths through inner vertices below `k` compose at any vertex below `k`. */
  lemma {:induction false} ViaComposes(m: seq<seq<bool>>, k: nat, i: nat, h: nat, j: nat)
    requires Square(m) && k <= |m| && i < |m| && j < |m| && h < k
    requires Via(m, k, i, h) && Via(m, k, h, j)
    ensures Via(m, k, i, j)
  {
    if h < k - 1 {
      if Via(m, k - 1, i, h) && Via(m, k - 1, h, j) {
        ViaComposes(m, k - 1, i, h, j);
      } else if Via(m, k - 1, i, h) {
        ViaComposes(m, k - 1, i, h, k - 1);
      } else if Via(m, k - 1, h, j) {
        ViaComposes(m, k - 1, k - 1, h, j);
      }
    }
  }

  lemma {:induction false} WalkIsVia(m: seq<seq<bool>>, p: seq<nat>, i: nat, j: nat)
    requires Square(m) && Walk(m, p, i, j)
    ensures Via(m, |m|, i, j)
    decreases |p|
  {
    var n := |p|;
    var h := p[n - 2];
    assert m[p[n - 2]][p[n - 1]];
    ViaGrows(m, |m|, h, j);
    if n > 2 {
      assert Walk(m, p[..n - 1], i, h);
      WalkIsVia(m, p[..n - 1], i, h);
      ViaComposes(m, |m|, i, h, j);
    }
  }

  /** With every inner vertex allowed, Warshall's recurrence is reachability. */
  lemma ViaAllIsConnected(m: seq<seq<bool>>, i: nat, j: nat)
    requires Square(m) && i < |m| && j < |m|
    ensures Via(m, |m|, i, j) <==> Connected(m, i, j)
  {
    if Via(m, |m|, i, j) {
      ViaIsConnected(m, |m|, i, j);
    }
    if Connected(m, i, j) {
      var p :| Walk(m, p, i, j);
      WalkIsVia(m, p, i, j);
    }
  }
}
