/** K-way merge by a loser tree (src/kmerge.rs).

    Tournament nodes are numbered as in a heap: node 1 is the root, node `p` plays
    the winners of nodes `2p` and `2p+1`, and leaf `i` is node `k + i`. The code
    stores only the losers. The ghost array `win` gives the winner of each node, or
    -1 while the matches below it are still to be played. */
module LoserTrees {
  import opened Integers
  import opened Options

  const NOBODY: nat := 0xFFFF_FFFF_FFFF_FFFF      // usize::MAX, an empty slot
  const SENTINEL: I64 := I64_MAX

  datatype Merged = Merged(key: I64, run: nat)

  /** `q` lies on the way from node `x` up to the root. */
  predicate Above(q: nat, x: nat)
  {
    q == x || (x > 0 && Above(q, x / 2))
  }

  lemma {:induction false} AboveParent(q: nat, x: nat)
    requires Above(q, x)
    ensures Above(q / 2, x)
    decreases x
  {
    if q != x {
      AboveParent(q, x / 2);
    } else if x > 0 {
      assert Above(x / 2, x / 2);
    }
  }

  lemma {:induction false} AboveBelow(q: nat, x: nat)
    requires Above(q, x)
    ensures q <= x
    decreases x
  {
    if q != x {
      AboveBelow(q, x / 2);
    }
  }

  /** Of the two nodes below `p`, at most one is above `x`. */
  lemma {:induction false} OneSideAbove(p: nat, x: nat)
    requires p > 0
    ensures !(Above(2 * p, x) && Above(2 * p + 1, x))
    decreases x
  {
    if Above(2 * p, x) && Above(2 * p + 1, x) {
      AboveBelow(2 * p, x);
      AboveBelow(2 * p + 1, x);
      if x == 2 * p + 1 {
        AboveBelow(2 * p, x / 2);
      }
      OneSideAbove(p, x / 2);
    }
  }

  /** Every node is below the root. */
  lemma {:induction false} RootAbove(x: nat)
    requires x >= 1
    ensures Above(1, x)
  {
    if x > 1 {
      RootAbove(x / 2);
    }
  }

  /** The match at node `p` has not started, waits for one side, or is decided with
      the smaller key winning. */
  ghost predicate NodeOk(keys: seq<I64>, tree: seq<nat>, win: seq<int>, p: nat)
    requires 1 <= p < |tree| == |keys| && |win| == 2 * |tree|
  {
    var l, r := win[2 * p], win[2 * p + 1];
    if l == -1 && r == -1 then tree[p] == NOBODY && win[p] == -1
    else if l == -1 then tree[p] == r && win[p] == -1
    else if r == -1 then tree[p] == l && win[p] == -1
    else
      && ((win[p] == l && tree[p] == r) || (win[p] == r && tree[p] == l))
      && 0 <= win[p] < |keys| && tree[p] < |keys| && keys[win[p]] <= keys[tree[p]]
  }

  /** A decided node is won by a leaf below it, a decided leaf node by its leaf. */
  ghost predicate WinnerOk(k: nat, win: seq<int>, q: nat)
    requires q < |win|
  {
    win[q] == -1 || (0 <= win[q] < k && Above(q, k + win[q]) && (q >= k ==> win[q] == q - k))
  }

  ghost predicate WinnersOk(k: nat, win: seq<int>)
  {
    && |win| == 2 * k
    && (forall q :: 0 <= q < |win| ==> -1 <= win[q] < k)
    && forall q {:trigger WinnerOk(k, win, q)} :: 1 <= q < 2 * k ==> WinnerOk(k, win, q)
  }

  /** Every match is consistent, except that the winner of node `hole` has not been
      taken into account above it yet (no exception when `hole` is below 2). */
  ghost predicate Tournament(keys: seq<I64>, tree: seq<nat>, win: seq<int>, hole: nat)
  {
    && 1 <= |tree| == |keys| < NOBODY
    && WinnersOk(|tree|, win)
    && (forall p {:trigger NodeOk(keys, tree, win, p)} :: 1 <= p < |tree| && p != hole / 2 ==>
      NodeOk(keys, tree, win, p))
    && (2 <= hole ==> hole < |win| && win[hole] != -1 && NodeOk(keys, tree, win[hole := -1], hole / 2))
  }

  /** A leaf that has not played yet starts playing. */
  lemma StartPlay(keys: seq<I64>, tree: seq<nat>, win: seq<int>, leaf: nat)
    requires Tournament(keys, tree, win, 0) && leaf < |tree| && win[|tree| + leaf] == -1
    ensures Tournament(keys, tree, win[|tree| + leaf := leaf], |tree| + leaf)
  {
    var k := |tree|;
    var win' := win[k + leaf := leaf];
    assert win'[k + leaf := -1] == win;
    forall q | 1 <= q < 2 * k ensures WinnerOk(k, win', q) { assert WinnerOk(k, win, q); }
    forall p | 1 <= p < k && p != (k + leaf) / 2
      ensures NodeOk(keys, tree, win', p)
    {
      assert NodeOk(keys, tree, win, p);
    }
    if k + leaf >= 2 {
      assert NodeOk(keys, tree, win, (k + leaf) / 2);
    }
  }

  /** A hole at the root is no hole. */
  lemma ClosedAtRoot(keys: seq<I64>, tree: seq<nat>, win: seq<int>, hole: nat)
    requires Tournament(keys, tree, win, hole) && hole <= 1
    ensures Tournament(keys, tree, win, 0)
  {
  }

  /** Lines 73-76: the slot above is empty, so the challenger waits there. */
  lemma WaitInSlot(keys: seq<I64>, tree: seq<nat>, win: seq<int>, hole: nat)
    requires Tournament(keys, tree, win, hole) && 2 <= hole && hole / 2 < |tree| && tree[hole / 2] == NOBODY
    ensures win[hole] >= 0 && Tournament(keys, tree[hole / 2 := win[hole]], win, 0)
  {
    var tree' := tree[hole / 2 := win[hole]];
    forall p | 1 <= p < |tree|
      ensures NodeOk(keys, tree', win, p)
    {
      assert p != hole / 2 ==> NodeOk(keys, tree, win, p);
    }
  }

  ghost function Loser(keys: seq<I64>, tree: seq<nat>, win: seq<int>, hole: nat): int
    requires 2 <= hole < |win| == 2 * |tree| && |keys| == |tree| && tree[hole / 2] < |keys| && 0 <= win[hole] < |keys|
  {
    if keys[tree[hole / 2]] < keys[win[hole]] then win[hole] else tree[hole / 2]
  }

  ghost function Winner(keys: seq<I64>, tree: seq<nat>, win: seq<int>, hole: nat): int
    requires 2 <= hole < |win| == 2 * |tree| && |keys| == |tree| && tree[hole / 2] < |keys| && 0 <= win[hole] < |keys|
  {
    if keys[tree[hole / 2]] < keys[win[hole]] then tree[hole / 2] else win[hole]
  }

  /** What an occupied slot above `hole` holds: the winner of the other side. */
  lemma SlotHoldsSibling(keys: seq<I64>, tree: seq<nat>, win: seq<int>, hole: nat)
    requires Tournament(keys, tree, win, hole) && 2 <= hole && hole / 2 < |tree| && tree[hole / 2] != NOBODY
    ensures tree[hole / 2] < |keys| && 0 <= win[hole] < |keys| && win[hole / 2] == -1
    ensures tree[hole / 2] == win[if hole % 2 == 0 then hole + 1 else hole - 1]
    ensures Above(hole / 2, |tree| + tree[hole / 2]) && Above(hole / 2, |tree| + win[hole])
  {
    var sibling := if hole % 2 == 0 then hole + 1 else hole - 1;
    assert win[hole := -1][sibling] == win[sibling];
    assert WinnerOk(|tree|, win, sibling) && WinnerOk(|tree|, win, hole);
    AboveParent(hole, |tree| + win[hole]);
    AboveParent(sibling, |tree| + win[sibling]);
  }

  /** Lines 77-86: the challenger meets the stored occupant. */
  lemma PlayMatch(keys: seq<I64>, tree: seq<nat>, win: seq<int>, hole: nat)
    requires Tournament(keys, tree, win, hole) && 2 <= hole && hole / 2 < |tree| && tree[hole / 2] != NOBODY
    requires tree[hole / 2] < |keys| && 0 <= win[hole] < |keys|
    ensures Tournament(keys, tree[hole / 2 := Loser(keys, tree, win, hole)],
            win[hole / 2 := Winner(keys, tree, win, hole)], hole / 2)
  {
    var p := hole / 2;
    var tree', win' := tree[p := Loser(keys, tree, win, hole)], win[p := Winner(keys, tree, win, hole)];
    SlotHoldsSibling(keys, tree, win, hole);
    forall q | 1 <= q < 2 * |tree| ensures WinnerOk(|tree|, win', q) { assert WinnerOk(|tree|, win, q); }
    hide WinnerOk, Above;
    forall q | 1 <= q < |tree| && q != p / 2
      ensures NodeOk(keys, tree', win', q)
    {
      if q != p {
        assert NodeOk(keys, tree, win, q);
      } else {
        MatchDecided(keys, tree, win, hole);
      }
    }
    if 2 <= p {
      assert win'[p := -1] == win;
      assert NodeOk(keys, tree, win, p / 2);
    }
  }

  lemma MatchDecided(keys: seq<I64>, tree: seq<nat>, win: seq<int>, hole: nat)
    requires Tournament(keys, tree, win, hole) && 2 <= hole && hole / 2 < |tree| && tree[hole / 2] != NOBODY
    requires tree[hole / 2] < |keys| && 0 <= win[hole] < |keys|
    ensures NodeOk(keys, tree[hole / 2 := Loser(keys, tree, win, hole)],
            win[hole / 2 := Winner(keys, tree, win, hole)], hole / 2)
  {
    SlotHoldsSibling(keys, tree, win, hole);
    hide Tournament, Above;
  }

  /** An undecided node leaves everything above it undecided. */
  lemma {:induction false} UndecidedUp(keys: seq<I64>, tree: seq<nat>, win: seq<int>, q: nat)
    requires Tournament(keys, tree, win, 0) && 1 <= q < |win| && win[q] == -1
    ensures win[1] == -1 && |win| == 2 * |tree|
    decreases q
  {
    if q > 1 {
      assert NodeOk(keys, tree, win, q / 2);
      UndecidedUp(keys, tree, win, q / 2);
    }
  }

  /** The overall winner has the smallest key below the root. */
  lemma {:induction false} RootIsLeast(keys: seq<I64>, tree: seq<nat>, win: seq<int>, q: nat)
    requires Tournament(keys, tree, win, 0) && 1 <= q < |win| && win[1] != -1
    ensures 0 <= win[q] < |keys| && 0 <= win[1] < |keys| && keys[win[1]] <= keys[win[q]]
    decreases q
  {
    if win[q] == -1 {
      UndecidedUp(keys, tree, win, q);
    }
    assert WinnerOk(|tree|, win, q);
    if q > 1 {
      assert NodeOk(keys, tree, win, q / 2);
      RootIsLeast(keys, tree, win, q / 2);
    }
  }

  /** The overall winner won every match on its way up. */
  lemma {:induction false} WonOnPath(keys: seq<I64>, tree: seq<nat>, win: seq<int>, q: nat)
    requires Tournament(keys, tree, win, 0) && 1 <= q < |win| && 0 <= win[1]
    requires Above(q, |tree| + win[1])
    ensures win[q] == win[1]
    decreases q
  {
    RootIsLeast(keys, tree, win, q);
    if q > 1 {
      AboveParent(q, |tree| + win[1]);
      WonOnPath(keys, tree, win, q / 2);
      RootIsLeast(keys, tree, win, 2 * (q / 2));
      RootIsLeast(keys, tree, win, 2 * (q / 2) + 1);
      OneSideAbove(q / 2, |tree| + win[1]);
      assert NodeOk(keys, tree, win, q / 2);
      assert WinnerOk(|tree|, win, 2 * (q / 2)) && WinnerOk(|tree|, win, 2 * (q / 2) + 1);
    }
  }

  /** Forget the matches of one leaf. */
  ghost function Forget(k: nat, win: seq<int>, leaf: nat): (r: seq<int>)
    ensures |r| == |win| && forall q :: 0 <= q < |win| ==> r[q] == if Above(q, k + leaf) then -1 else win[q]
  {
    seq(|win|, q requires 0 <= q < |win| => if Above(q, k + leaf) then -1 else win[q])
  }

  /** Once the overall winner's key changes, the stored losers are exactly right for
      replaying it: every slot on its path holds the winner of the other side. */
  lemma ForgetWinner(keys: seq<I64>, tree: seq<nat>, win: seq<int>, key: I64)
    requires Tournament(keys, tree, win, 0) && 0 <= win[1] < |keys|
    ensures Tournament(keys[win[1] := key], tree, Forget(|tree|, win, win[1]), 0)
  {
    var win' := Forget(|tree|, win, win[1]);
    forall q | 1 <= q < 2 * |tree| ensures WinnerOk(|tree|, win', q) { assert WinnerOk(|tree|, win, q); }
    var keys' := keys[win[1] := key];
    forall p | 1 <= p < |tree|
      ensures NodeOk(keys', tree, win', p)
    {
      ForgetAt(keys, tree, win, key, p);
    }
  }

  lemma ForgetAt(keys: seq<I64>, tree: seq<nat>, win: seq<int>, key: I64, p: nat)
    requires Tournament(keys, tree, win, 0) && 0 <= win[1] < |keys| && 1 <= p < |tree|
    ensures NodeOk(keys[win[1] := key], tree, Forget(|tree|, win, win[1]), p)
  {
    var leaf := |tree| + win[1];
    assert NodeOk(keys, tree, win, p);
    RootIsLeast(keys, tree, win, 2 * p);
    RootIsLeast(keys, tree, win, 2 * p + 1);
    OneSideAbove(p, leaf);
    if Above(2 * p, leaf) {
      AboveParent(2 * p, leaf);
      WonOnPath(keys, tree, win, p);
      WonOnPath(keys, tree, win, 2 * p);
      RivalDiffers(keys, tree, win, 2 * p + 1);
    } else if Above(2 * p + 1, leaf) {
      AboveParent(2 * p + 1, leaf);
      WonOnPath(keys, tree, win, p);
      WonOnPath(keys, tree, win, 2 * p + 1);
      RivalDiffers(keys, tree, win, 2 * p);
    } else {
      RivalDiffers(keys, tree, win, 2 * p);
      RivalDiffers(keys, tree, win, 2 * p + 1);
      NotAboveUnlessChild(p, leaf);
    }
  }

  /** A node off the winner's path has another winner. */
  lemma RivalDiffers(keys: seq<I64>, tree: seq<nat>, win: seq<int>, q: nat)
    requires Tournament(keys, tree, win, 0) && 1 <= q < |win| && 0 <= win[1] && !Above(q, |tree| + win[1])
    ensures win[q] != win[1]
  {
    RootIsLeast(keys, tree, win, q);
    assert WinnerOk(|tree|, win, q);
  }

  /** An inner node above a leaf has a child above it. */
  lemma {:induction false} NotAboveUnlessChild(p: nat, x: nat)
    requires 1 <= p < x
    ensures Above(p, x) ==> Above(2 * p, x) || Above(2 * p + 1, x)
    decreases x
  {
    if Above(p, x) {
      if x / 2 == p {
      } else {
        AboveBelow(p, x / 2);
        NotAboveUnlessChild(p, x / 2);
      }
    }
  }

  // ----- the merger ----------------------------------------------------------

  class LoserTree {
    var runs: seq<seq<I64>>
    var cursors: seq<nat>
    var tree: seq<nat>
    var k: nat
    var winner: nat
    ghost var win: seq<int>

    ghost predicate Shape()
      reads this
    {
      1 <= k < NOBODY && |runs| == |cursors| == |tree| == k && forall r :: 0 <= r < k ==> cursors[r] <= |runs[r]|
    }

    /** The head of each run, or the sentinel when it is used up. */
    ghost function Keys(): (keys: seq<I64>)
      requires Shape()
      reads this
      ensures |keys| == k && forall r :: 0 <= r < k ==> keys[r] == LeafKey(r)
    {
      Heads(runs, cursors)
    }

    /** Lines 48-51. */
    function LeafKey(leaf: nat): I64
      requires Shape() && leaf < k
      reads this
    {
      HeadOf(runs[leaf], cursors[leaf])
    }

    /** The matches played so far are consistent, and a decided root is the winner. */
    ghost predicate Playing()
      reads this
    {
      Shape() && Tournament(Keys(), tree, win, 0) && (win[1] != -1 ==> winner == win[1])
    }

    /** Every leaf has played. */
    ghost predicate Valid()
      reads this
    {
      Playing() && 0 <= win[1] < k
    }

    /** Lines 32-65. */
    constructor (runs: seq<seq<I64>>)
      requires |runs| < NOBODY
      ensures Valid()
      ensures this.runs == if runs == [] then [[]] else runs
      ensures cursors == seq(|this.runs|, _ => 0)
    {
      var padded := if runs == [] then [[]] else runs;
      k := |padded|;
      this.runs := padded;
      cursors := seq(|padded|, _ => 0);
      tree := seq(|padded|, _ => NOBODY);
      winner := 0;
      win := seq(2 * |padded|, _ => -1);
      new;
      if k == 1 {
        win := [-1, 0];
        assert WinnerOk(1, win, 1);
        return;
      }
      assert Playing();
      hide Tournament, Heads;
      var leaf := 0;
      while leaf < k
        invariant leaf <= k && Playing() && |win| == 2 * k && this.runs == padded && cursors == seq(|padded|, _ => 0)
        invariant forall q :: k <= q < 2 * k ==> (win[q] != -1 <==> q < k + leaf)
      {
        Play(leaf);
        leaf := leaf + 1;
      }
      RootDecided(Keys(), tree, win);
    }

    /** Lines 68-89: play a leaf that is not in the tournament up the tree. */
    method Play(leaf: nat)
      requires Playing() && leaf < k && |win| == 2 * k && win[k + leaf] == -1
      modifies this`tree, this`winner, this`win
      ensures Playing() && |win| == 2 * k
      ensures forall q :: k <= q < 2 * k ==> win[q] == if q == k + leaf then leaf else old(win)[q]
    {
      hide Tournament, NodeOk;
      ghost var keys := Keys();
      var parent: nat := (leaf + k) / 2;
      var champion: nat := leaf;
      ghost var hole := k + leaf;
      UndecidedUp(keys, tree, win, hole);
      StartPlay(keys, tree, win, leaf);
      win := win[hole := leaf];
      while parent >= 1
        invariant Shape() && parent == hole / 2 && 1 <= hole < 2 * k == |win| && win[hole] == champion < k
        invariant Tournament(keys, tree, win, hole)
        invariant hole >= 2 ==> win[1] == -1
        invariant forall q :: k <= q < 2 * k ==> win[q] == if q == k + leaf then leaf else old(win)[q]
      {
        var slot := tree[parent];
        if slot == NOBODY {
          WaitInSlot(keys, tree, win, hole);
          tree := tree[parent := champion];
          return;
        }
        champion := Match(parent, champion, hole);
        hole := parent;
        if parent == 1 {
          break;
        }
        parent := parent / 2;
      }
      ClosedAtRoot(keys, tree, win, hole);
      winner := champion;
    }

    /** Lines 72-82: the challenger from node `hole` meets the occupant of the slot
        above it; the loser stays in the slot. */
    method Match(parent: nat, champion: nat, ghost hole: nat) returns (next: nat)
      requires Shape() && Tournament(Keys(), tree, win, hole) && 2 <= hole < |win| == 2 * k && parent == hole / 2 < k
      requires tree[parent] != NOBODY && win[hole] == champion < k
      modifies this`tree, this`win
      ensures Shape() && Tournament(Keys(), tree, win, parent)
      ensures next < k && win == old(win)[parent := next] && old(win)[parent] == -1
    {
      hide Tournament, NodeOk, Above;
      var slot := tree[parent];
      SlotHoldsSibling(Keys(), tree, win, hole);
      PlayMatch(Keys(), tree, win, hole);
      win := win[parent := Winner(Keys(), tree, win, hole)];
      if LeafKey(slot) < LeafKey(champion) {
        tree := tree[parent := champion];
        next := slot;
      } else {
        assert tree == tree[parent := slot];
        next := champion;
      }
    }

    /** Lines 97-107: the least remaining key and the run it heads, or `None` when
        every run is used up or stands at the sentinel. */
    method Next() returns (m: Option<Merged>)
      requires Valid()
      modifies this
      ensures Valid() && runs == old(runs) && k == old(k)
      ensures m.None? ==> cursors == old(cursors) && forall r :: 0 <= r < k ==> LeafKey(r) == SENTINEL
      ensures m.Some? ==>
        var Merged(key, run) := m.value;
        && run < k && key == old(HeadOf(runs[run], cursors[run])) != SENTINEL
        && cursors == old(cursors)[run := old(cursors)[run] + 1]
        && forall r :: 0 <= r < k ==> key <= HeadOf(runs[r], old(cursors)[r])
    {
      hide NodeOk;
      var leaf := winner;
      var key := LeafKey(leaf);
      ghost var keys := Keys();
      forall r | 0 <= r < k
        ensures key <= HeadOf(runs[r], cursors[r])
      {
        RootIsLeast(keys, tree, win, k + r);
        assert WinnerOk(k, win, k + r);
      }
      if key == SENTINEL {
        return None;
      }
      cursors := cursors[leaf := cursors[leaf] + 1];
      Replay(keys, LeafKey(leaf));
      m := Some(Merged(key, leaf));
    }

    /** Line 105, with the winner's matches taken back first. */
    method Replay(ghost keys: seq<I64>, key: I64)
      requires Shape() && |keys| == k && Tournament(keys, tree, win, 0) && |win| == 2 * k && 0 <= win[1] < k
               && winner == win[1]
      requires Keys() == keys[winner := key]
      modifies this`tree, this`winner, this`win
      ensures Valid() && |win| == 2 * k
    {
      hide Tournament, Heads, HeadOf;
      ForgetWinner(keys, tree, win, key);
      ForgetLeaves(keys, tree, win);
      win := Forget(k, win, winner);
      Play(winner);
      RootDecided(Keys(), tree, win);
    }

    /** Lines 110-116. */
    method Collect() returns (out: seq<Merged>)
      requires Valid() && forall r :: 0 <= r < k ==> cursors[r] == 0
      modifies this
      ensures k == old(k) && runs == old(runs)
      ensures forall i :: 0 <= i < |out| ==> out[i].run < k
      ensures forall r :: 0 <= r < k ==> OfRun(out, r) == Live(runs[r])
      ensures LiveSorted(runs) ==> Sorted(KeysOf(out))
      ensures multiset(KeysOf(out)) == Bag(runs, k)
    {
      hide Tournament, Collected, Ordered, Sorted, Live, Total, HeadOf, Heads, Bag, OfRun, KeysOf;
      out := [];
      StartCollect(runs, cursors, k);
      while true
        invariant Valid() && k == old(k) && runs == old(runs)
        invariant Collected(runs, cursors, k, out) && |out| <= Total(runs, k)
        invariant LiveSorted(runs) ==> Ordered(runs, cursors, k, out)
        decreases Total(runs, k) - |out|
      {
        ghost var before := cursors;
        var m := Next();
        if m.None? {
          EndCollect(runs, cursors, k, out);
          break;
        }
        CollectOne(runs, before, k, out, m.value);
        if LiveSorted(runs) {
          OrderOne(runs, before, k, out, m.value);
        }
        out := out + [m.value];
      }
    }
  }

  /** Lines 120-122. */
  method MergeRuns(runs: seq<seq<I64>>) returns (keys: seq<I64>)
    requires |runs| < NOBODY
    ensures multiset(keys) == Bag(runs, |runs|)
    ensures LiveSorted(runs) ==> Sorted(keys)
    ensures multiset(keys) == Whole(runs, |runs|) <==> NoSentinel(runs, |runs|)
  {
    WholeIffNoSentinel(runs, |runs|);
    var tree := new LoserTree(runs);
    var out := tree.Collect();
    keys := KeysOf(out);
    if runs == [] {
      assert Bag(tree.runs, 1) == multiset{};
    }
  }

  function Heads(runs: seq<seq<I64>>, cursors: seq<nat>): (keys: seq<I64>)
    requires |runs| == |cursors|
    ensures |keys| == |runs| && forall r :: 0 <= r < |runs| ==> keys[r] == HeadOf(runs[r], cursors[r])
  {
    seq(|runs|, r requires 0 <= r < |runs| => HeadOf(runs[r], cursors[r]))
  }

  function HeadOf(run: seq<I64>, cursor: nat): I64
  {
    if cursor < |run| then run[cursor] else SENTINEL
  }

  /** The part of a run before its first sentinel. */
  function Live(run: seq<I64>): seq<I64>
  {
    if run == [] || run[0] == SENTINEL then [] else [run[0]] + Live(run[1..])
  }

  ghost predicate Sorted(s: seq<I64>)
  {
    forall i, j :: 0 <= i < j < |s| ==> s[i] <= s[j]
  }

  ghost predicate LiveSorted(runs: seq<seq<I64>>)
  {
    forall r :: 0 <= r < |runs| ==> Sorted(Live(runs[r]))
  }

  function KeysOf(out: seq<Merged>): (keys: seq<I64>)
    ensures |keys| == |out| && forall i :: 0 <= i < |out| ==> keys[i] == out[i].key
  {
    seq(|out|, i requires 0 <= i < |out| => out[i].key)
  }

  /** The keys attributed to run `r`, in output order. */
  ghost function OfRun(out: seq<Merged>, r: nat): seq<I64>
  {
    if out == [] then []
    else
      var m := out[|out| - 1];
      OfRun(out[..|out| - 1], r) + if m.run == r then [m.key] else []
  }

  /** Everything the first `n` runs hold before their sentinels. */
  ghost function Bag(runs: seq<seq<I64>>, n: nat): multiset<I64>
    requires n <= |runs|
  {
    if n == 0 then multiset{} else Bag(runs, n - 1) + multiset(Live(runs[n - 1]))
  }

  /** All that the first `n` runs hold. */
  ghost function Whole(runs: seq<seq<I64>>, n: nat): multiset<I64>
    requires n <= |runs|
  {
    if n == 0 then multiset{} else Whole(runs, n - 1) + multiset(runs[n - 1])
  }

  /** A run is delivered whole exactly when it never holds the exhaustion sentinel. */
  lemma {:induction false} LiveIsAll(run: seq<I64>)
    ensures Live(run) <= run
    ensures Live(run) == run <==> SENTINEL !in run
  {
    if run == [] {
    } else if run[0] != SENTINEL {
      LiveIsAll(run[1..]);
      assert run == [run[0]] + run[1..];
    }
  }

  predicate NoSentinel(runs: seq<seq<I64>>, n: nat)
    requires n <= |runs|
  {
    forall r :: 0 <= r < n ==> SENTINEL !in runs[r]
  }

  /** The merge loses nothing exactly when no run holds the sentinel. */
  lemma {:induction false} WholeIffNoSentinel(runs: seq<seq<I64>>, n: nat)
    requires n <= |runs|
    ensures Bag(runs, n) <= Whole(runs, n)
    ensures Bag(runs, n) == Whole(runs, n) <==> NoSentinel(runs, n)
  {
    if n > 0 {
      OneRunMore(runs, n);
      hide Bag, Whole, NoSentinel, Live;
      WholeIffNoSentinel(runs, n - 1);
      LiveBag(runs[n - 1]);
      SumsAgree(Bag(runs, n - 1), Whole(runs, n - 1), multiset(Live(runs[n - 1])), multiset(runs[n - 1]));
    }
  }

  lemma OneRunMore(runs: seq<seq<I64>>, n: nat)
    requires 0 < n <= |runs|
    ensures Bag(runs, n) == Bag(runs, n - 1) + multiset(Live(runs[n - 1]))
            && Whole(runs, n) == Whole(runs, n - 1) + multiset(runs[n - 1])
    ensures NoSentinel(runs, n) <==> NoSentinel(runs, n - 1) && SENTINEL !in runs[n - 1]
  {
  }

  lemma LiveBag(run: seq<I64>)
    ensures multiset(Live(run)) <= multiset(run)
    ensures multiset(Live(run)) == multiset(run) <==> SENTINEL !in run
  {
    LiveIsAll(run);
    var live := Live(run);
    assert run == live + run[|live|..];
    if SENTINEL in run {
      assert |multiset(live)| < |multiset(run)|;
    }
  }

  lemma SumsAgree(part: multiset<I64>, all: multiset<I64>, live: multiset<I64>, run: multiset<I64>)
    requires part <= all && live <= run
    ensures part + live <= all + run
    ensures part + live == all + run <==> part == all && live == run
  {
    if part + live == all + run {
      forall x ensures part[x] == all[x] && live[x] == run[x] {
        assert (part + live)[x] == (all + run)[x];
      }
    }
  }

  /** Taking back the winner's matches leaves the other leaves decided. */
  lemma ForgetLeaves(keys: seq<I64>, tree: seq<nat>, win: seq<int>)
    requires Tournament(keys, tree, win, 0) && 0 <= win[1] < |tree|
    ensures |win| == 2 * |tree| && Forget(|tree|, win, win[1])[1] == -1
    ensures forall q :: |tree| <= q < 2 * |tree| ==> (Forget(|tree|, win, win[1])[q] == -1 <==> q == |tree| + win[1])
  {
    RootAbove(|tree| + win[1]);
    forall q | |tree| <= q < 2 * |tree|
      ensures win[q] != -1 && (Above(q, |tree| + win[1]) ==> q == |tree| + win[1])
    {
      RootIsLeast(keys, tree, win, q);
      if Above(q, |tree| + win[1]) {
        AboveLeaf(|tree|, win[1], q);
      }
    }
  }

  // ----- draining the merger -------------------------------------------------

  lemma {:induction false} AllPlayed(keys: seq<I64>, tree: seq<nat>, win: seq<int>, q: nat)
    requires Tournament(keys, tree, win, 0) && 1 <= q < |win|
    requires forall x :: |tree| <= x < 2 * |tree| ==> win[x] != -1
    ensures win[q] != -1
    decreases 2 * |tree| - q
  {
    if q < |tree| {
      AllPlayed(keys, tree, win, 2 * q);
      AllPlayed(keys, tree, win, 2 * q + 1);
      assert NodeOk(keys, tree, win, q);
    }
  }

  lemma RootDecided(keys: seq<I64>, tree: seq<nat>, win: seq<int>)
    requires Tournament(keys, tree, win, 0) && |win| == 2 * |tree|
    requires forall x :: |tree| <= x < 2 * |tree| ==> win[x] != -1
    ensures 0 <= win[1] < |tree|
  {
    AllPlayed(keys, tree, win, 1);
  }

  /** The only leaf node above a leaf node is itself. */
  lemma AboveLeaf(k: nat, leaf: nat, q: nat)
    requires leaf < k <= q && Above(q, k + leaf)
    ensures q == k + leaf
  {
    if q != k + leaf {
      AboveBelow(q, (k + leaf) / 2);
    }
  }

  ghost function Total(runs: seq<seq<I64>>, n: nat): nat
    requires n <= |runs|
  {
    if n == 0 then 0 else Total(runs, n - 1) + |runs[n - 1]|
  }

  ghost function Taken(cursors: seq<nat>, n: nat): nat
    requires n <= |cursors|
  {
    if n == 0 then 0 else Taken(cursors, n - 1) + cursors[n - 1]
  }

  lemma {:induction false} TakenBound(runs: seq<seq<I64>>, cursors: seq<nat>, n: nat)
    requires n <= |runs| == |cursors| && forall r :: 0 <= r < |runs| ==> cursors[r] <= |runs[r]|
    ensures Taken(cursors, n) <= Total(runs, n)
  {
    if n > 0 {
      TakenBound(runs, cursors, n - 1);
    }
  }

  lemma {:induction false} TakenOne(runs: seq<seq<I64>>, cursors: seq<nat>, n: nat, r: nat)
    requires n <= |runs| == |cursors| && r < |runs|
    ensures Taken(cursors[r := cursors[r] + 1], n) == Taken(cursors, n) + if r < n then 1 else 0
  {
    if n > 0 {
      TakenOne(runs, cursors, n - 1, r);
    }
  }

  ghost function CountOf(out: seq<Merged>, r: nat, x: I64): nat
  {
    multiset(OfRun(out, r))[x]
  }

  /** How often `x` occurs in the output for the first `n` runs. */
  ghost function RunCount(out: seq<Merged>, n: nat, x: I64): nat
  {
    if n == 0 then 0 else RunCount(out, n - 1, x) + CountOf(out, n - 1, x)
  }

  lemma CountPush(out: seq<Merged>, m: Merged, r: nat, x: I64)
    ensures CountOf(out + [m], r, x) == CountOf(out, r, x) + if m.run == r && m.key == x then 1 else 0
  {
    assert (out + [m])[..|out|] == out;
  }

  lemma {:induction false} RunCountPush(out: seq<Merged>, m: Merged, n: nat, x: I64)
    ensures RunCount(out + [m], n, x) == RunCount(out, n, x) + if m.run < n && m.key == x then 1 else 0
  {
    if n > 0 {
      RunCountPush(out, m, n - 1, x);
      CountPush(out, m, n - 1, x);
      hide CountOf;
    }
  }

  lemma {:induction false} NoRunCount(n: nat, x: I64)
    ensures RunCount([], n, x) == 0
  {
    if n > 0 {
      NoRunCount(n - 1, x);
    }
  }

  /** Every key of the output is attributed to one of the `k` runs. */
  lemma {:induction false} CountByRun(out: seq<Merged>, k: nat, x: I64)
    requires forall i :: 0 <= i < |out| ==> out[i].run < k
    ensures multiset(KeysOf(out))[x] == RunCount(out, k, x)
  {
    if out == [] {
      NoRunCount(k, x);
    } else {
      var rest, m := out[..|out| - 1], out[|out| - 1];
      CountByRun(rest, k, x);
      RunCountPush(rest, m, k, x);
      assert out == rest + [m];
      KeysOfPush(rest, m);
    }
  }

  /** What has been output is, run by run, what the cursors have passed. */
  ghost predicate Collected(runs: seq<seq<I64>>, cursors: seq<nat>, k: nat, out: seq<Merged>)
  {
    && |runs| == |cursors| == k
    && (forall r :: 0 <= r < k ==> cursors[r] <= |runs[r]| && SENTINEL !in runs[r][..cursors[r]])
    && (forall r :: 0 <= r < k ==> OfRun(out, r) == runs[r][..cursors[r]])
    && (forall i :: 0 <= i < |out| ==> out[i].run < k)
    && |out| == Taken(cursors, k) <= Total(runs, k)
  }

  lemma {:induction false} NothingTaken(runs: seq<seq<I64>>, cursors: seq<nat>, n: nat)
    requires n <= |runs| == |cursors| && forall r :: 0 <= r < |runs| ==> cursors[r] == 0
    ensures Taken(cursors, n) == 0
  {
    if n > 0 {
      NothingTaken(runs, cursors, n - 1);
    }
  }

  lemma StartCollect(runs: seq<seq<I64>>, cursors: seq<nat>, k: nat)
    requires |runs| == |cursors| == k && forall r :: 0 <= r < k ==> cursors[r] == 0
    ensures Collected(runs, cursors, k, []) && Ordered(runs, cursors, k, [])
  {
    NothingTaken(runs, cursors, k);
  }

  lemma CollectOne(runs: seq<seq<I64>>, cursors: seq<nat>, k: nat, out: seq<Merged>, m: Merged)
    requires Collected(runs, cursors, k, out)
    requires m.run < k && m.key == HeadOf(runs[m.run], cursors[m.run]) != SENTINEL
    ensures Collected(runs, cursors[m.run := cursors[m.run] + 1], k, out + [m]) && |out| < Total(runs, k)
  {
    var next := cursors[m.run := cursors[m.run] + 1];
    CollectRuns(runs, cursors, k, out, m);
    TakenOne(runs, cursors, k, m.run);
    TakenBound(runs, next, k);
  }

  lemma CollectRuns(runs: seq<seq<I64>>, cursors: seq<nat>, k: nat, out: seq<Merged>, m: Merged)
    requires |runs| == |cursors| == k && m.run < k && m.key == HeadOf(runs[m.run], cursors[m.run]) != SENTINEL
    requires forall r :: 0 <= r < k ==> cursors[r] <= |runs[r]| && SENTINEL !in runs[r][..cursors[r]]
    requires forall r :: 0 <= r < k ==> OfRun(out, r) == runs[r][..cursors[r]]
    ensures var next := cursors[m.run := cursors[m.run] + 1];
            forall r :: 0 <= r < k ==>
              next[r] <= |runs[r]| && SENTINEL !in runs[r][..next[r]] && OfRun(out + [m], r) == runs[r][..next[r]]
  {
    var r, out' := m.run, out + [m];
    assert out'[..|out|] == out;
    assert runs[r][..cursors[r] + 1] == runs[r][..cursors[r]] + [m.key];
  }

  lemma KeysOfPush(out: seq<Merged>, m: Merged)
    ensures multiset(KeysOf(out + [m])) == multiset(KeysOf(out)) + multiset{m.key}
  {
    assert KeysOf(out + [m]) == KeysOf(out) + [m.key];
  }

  lemma {:induction false} LivePrefix(run: seq<I64>, c: nat)
    requires c <= |run| && SENTINEL !in run[..c] && HeadOf(run, c) == SENTINEL
    ensures run[..c] == Live(run)
  {
    if c > 0 {
      assert run[..c] == [run[0]] + run[1..][..c - 1];
      LivePrefix(run[1..], c - 1);
    }
  }

  lemma {:induction false} AllTaken(runs: seq<seq<I64>>, out: seq<Merged>, n: nat, x: I64)
    requires n <= |runs| && forall r :: 0 <= r < |runs| ==> OfRun(out, r) == Live(runs[r])
    ensures RunCount(out, n, x) == Bag(runs, n)[x]
  {
    if n > 0 {
      AllTaken(runs, out, n - 1, x);
    }
  }

  lemma EndCollect(runs: seq<seq<I64>>, cursors: seq<nat>, k: nat, out: seq<Merged>)
    requires Collected(runs, cursors, k, out) && forall r :: 0 <= r < k ==> HeadOf(runs[r], cursors[r]) == SENTINEL
    ensures forall r :: 0 <= r < k ==> OfRun(out, r) == Live(runs[r])
    ensures multiset(KeysOf(out)) == Bag(runs, k)
    ensures forall i :: 0 <= i < |out| ==> out[i].run < k
    ensures Ordered(runs, cursors, k, out) ==> Sorted(KeysOf(out))
  {
    forall r | 0 <= r < k
      ensures OfRun(out, r) == Live(runs[r])
    {
      LivePrefix(runs[r], cursors[r]);
    }
    forall x: I64
      ensures multiset(KeysOf(out))[x] == Bag(runs, k)[x]
    {
      CountByRun(out, k, x);
      AllTaken(runs, out, k, x);
    }
  }

  /** The output is sorted and no run can still come up with a smaller key. */
  ghost predicate Ordered(runs: seq<seq<I64>>, cursors: seq<nat>, k: nat, out: seq<Merged>)
    requires |runs| == |cursors| == k
  {
    && Sorted(KeysOf(out))
    && (forall i, r :: 0 <= i < |out| && 0 <= r < k ==> out[i].key <= HeadOf(runs[r], cursors[r]))
  }

  lemma {:induction false} LiveAt(run: seq<I64>, c: nat)
    requires c < |run| && SENTINEL !in run[..c] && run[c] != SENTINEL
    ensures c < |Live(run)| && Live(run)[c] == run[c]
  {
    if c > 0 {
      assert run[..c][0] == run[0];
      assert SENTINEL !in run[1..][..c - 1] by {
        assert forall i :: 0 <= i < c - 1 ==> run[1..][i] == run[..c][i + 1];
      }
      LiveAt(run[1..], c - 1);
    }
  }

  lemma OrderOne(runs: seq<seq<I64>>, cursors: seq<nat>, k: nat, out: seq<Merged>, m: Merged)
    requires Collected(runs, cursors, k, out) && Ordered(runs, cursors, k, out)
    requires LiveSorted(runs)
    requires m.run < k && m.key == HeadOf(runs[m.run], cursors[m.run]) != SENTINEL
    requires forall r :: 0 <= r < k ==> m.key <= HeadOf(runs[r], cursors[r])
    ensures Ordered(runs, cursors[m.run := cursors[m.run] + 1], k, out + [m])
  {
    var run, c := runs[m.run], cursors[m.run];
    if HeadOf(run, c + 1) != SENTINEL {
      LiveAt(run, c);
      assert run[..c + 1] == run[..c] + [run[c]];
      LiveAt(run, c + 1);
    }
  }

  /** A run that holds `i64::MAX` loses it, and what follows it. */
  lemma SentinelCounterexample()
    ensures Bag([[1, SENTINEL, SENTINEL]], 1) == multiset{1}
            && Whole([[1, SENTINEL, SENTINEL]], 1) == multiset{1, SENTINEL, SENTINEL}
  {
    var run: seq<I64> := [1, SENTINEL, SENTINEL];
    assert run[1..] == [SENTINEL, SENTINEL] && Live(run[1..]) == [];
    assert Live(run) == [1];
    var runs := [run];
    assert Bag(runs, 0) == multiset{} && Whole(runs, 0) == multiset{};
  }
}
