/** The multi-level skip list (src/skiplist.rs). Which levels are drawn does not matter: the
    number of levels of a new node is a parameter. */
module SkipLists {
  import opened Integers
  import opened Options

  const MAX_LEVEL: nat := 16

  type Link = Option<nat>

  datatype Node = Node(key: I64, value: I64, forward: seq<Link>)

  type Nodes = seq<Node>

  // ----- one level -----------------------------------------------------------------------

  function At(list: seq<nat>, i: nat): Link
  {
    if i < |list| then Some(list[i]) else None
  }

  /** A node's key. */
  function KeyAt(nodes: Nodes, x: nat): int
  {
    if x < |nodes| then nodes[x].key else 0
  }

  ghost predicate Ascending(nodes: Nodes, list: seq<nat>)
  {
    forall i, j :: 0 <= i < j < |list| ==> KeyAt(nodes, list[i]) < KeyAt(nodes, list[j])
  }

  /** The node at position `i` of a level is tall enough and points to the next. */
  ghost predicate LinksOn(nodes: Nodes, list: seq<nat>, l: nat, i: nat)
  {
    i < |list| && list[i] < |nodes| && l < |nodes[list[i]].forward| && nodes[list[i]].forward[l] == At(list, i + 1)
  }

  ghost predicate OnList(list: seq<nat>, x: nat)
  {
    exists i :: 0 <= i < |list| && list[i] == x
  }

  /** Level `l` links exactly the nodes tall enough for it, in strictly ascending key
      order. */
  ghost predicate LevelOk(nodes: Nodes, first: Link, list: seq<nat>, l: nat)
  {
    && Ascending(nodes, list)
    && first == At(list, 0)
    && (forall i: nat :: i < |list| ==> LinksOn(nodes, list, l, i))
    && (forall x: nat :: x < |nodes| && |nodes[x].forward| > l ==> OnList(list, x))
  }

  /** How many nodes of the list have a smaller key. */
  ghost function Cut(nodes: Nodes, list: seq<nat>, key: int): (p: nat)
    ensures p <= |list|
  {
    if list == [] || KeyAt(nodes, list[0]) >= key then 0 else 1 + Cut(nodes, list[1..], key)
  }

  lemma {:induction false} CutSplits(nodes: Nodes, list: seq<nat>, key: int)
    requires Ascending(nodes, list)
    ensures forall i :: 0 <= i < Cut(nodes, list, key) ==> KeyAt(nodes, list[i]) < key
    ensures forall i :: Cut(nodes, list, key) <= i < |list| ==> key <= KeyAt(nodes, list[i])
  {
    if list != [] && KeyAt(nodes, list[0]) < key {
      CutSplits(nodes, list[1..], key);
    }
  }

  /** The last node of the list with a smaller key. */
  ghost function Before(nodes: Nodes, list: seq<nat>, key: int): Link
  {
    Prior(list, Cut(nodes, list, key))
  }

  ghost function Prior(list: seq<nat>, p: nat): Link
    requires p <= |list|
  {
    if p == 0 then None else Some(list[p - 1])
  }

  ghost predicate LevelsOk(nodes: Nodes, head: seq<Link>, lists: seq<seq<nat>>)
  {
    |head| == |lists| == MAX_LEVEL && forall l :: 0 <= l < MAX_LEVEL ==> LevelOk(nodes, head[l], lists[l], l)
  }

  lemma LevelFacts(nodes: Nodes, head: seq<Link>, lists: seq<seq<nat>>, l: nat)
    requires LevelsOk(nodes, head, lists) && l < MAX_LEVEL
    ensures |head| == |lists| == MAX_LEVEL && LevelOk(nodes, head[l], lists[l], l) && Ascending(nodes, lists[l])
  {
  }

  /** Following level `l` from position `p`. */
  lemma Follow(nodes: Nodes, head: seq<Link>, lists: seq<seq<nat>>, l: nat, p: nat)
    requires LevelsOk(nodes, head, lists) && l < MAX_LEVEL && p <= |lists[l]|
    ensures p == 0 ==> head[l] == At(lists[l], 0)
    ensures p > 0 ==> var x := lists[l][p - 1];
            x < |nodes| && l < |nodes[x].forward| && nodes[x].forward[l] == At(lists[l], p)
    ensures p < |lists[l]| ==> lists[l][p] < |nodes| && KeyAt(nodes, lists[l][p]) == nodes[lists[l][p]].key
  {
    assert LevelOk(nodes, head[l], lists[l], l);
    assert p > 0 ==> LinksOn(nodes, lists[l], l, p - 1);
    assert p < |lists[l]| ==> LinksOn(nodes, lists[l], l, p);
  }

  /** Where a node of the bottom level is. */
  lemma PlaceOf(nodes: Nodes, head: seq<Link>, lists: seq<seq<nat>>, l: nat, x: nat) returns (i: nat)
    requires LevelsOk(nodes, head, lists) && l < MAX_LEVEL && x < |nodes| && |nodes[x].forward| > l
    ensures i < |lists[l]| && lists[l][i] == x && KeyAt(nodes, lists[l][i]) == nodes[x].key
  {
    assert LevelOk(nodes, head[l], lists[l], l);
    assert OnList(lists[l], x);
    i :| 0 <= i < |lists[l]| && lists[l][i] == x;
  }

  /** The list as a map. */
  ghost predicate Holds(nodes: Nodes, entries: map<I64, I64>)
  {
    && (forall x :: 0 <= x < |nodes| ==> nodes[x].key in entries && entries[nodes[x].key] == nodes[x].value)
    && (forall k :: k in entries ==> exists x :: 0 <= x < |nodes| && nodes[x].key == k)
  }

  ghost predicate Tall(nodes: Nodes, level: nat)
  {
    forall x :: 0 <= x < |nodes| ==> 1 <= |nodes[x].forward| <= level
  }

  class SkipList {
    var nodes: Nodes
    var head: seq<Link>
    var level: nat
    var len: nat

    /** The node numbers on each level, in order. */
    ghost var lists: seq<seq<nat>>
    ghost var entries: map<I64, I64>

    ghost predicate Valid()
      reads this
    {
      && LevelsOk(nodes, head, lists) && 1 <= level <= MAX_LEVEL && Tall(nodes, level)
      && len == |nodes| == |entries| && Holds(nodes, entries)
    }

    /** Lines 62-70. */
    constructor ()
      ensures Valid() && entries == map[]
    {
      nodes := [];
      head := seq(MAX_LEVEL, _ => None);
      level := 1;
      len := 0;
      lists := seq(MAX_LEVEL, _ => []);
      entries := map[];
    }

    /** Lines 91-97. */
    function Forward(x: Link, l: nat): Link
      reads this
      requires l < |head| && (x.Some? ==> x.value < |nodes| && l < |nodes[x.value].forward|)
    {
      if x.None? then head[l] else nodes[x.value].forward[l]
    }

    /** Lines 101-113: the last smaller node of every level, from the top down. */
    method Descend(key: I64) returns (update: seq<Link>)
      requires Valid()
      ensures |update| == level <= |lists| && forall l :: 0 <= l < level ==> update[l] == Before(nodes, lists[l], key)
    {
      hide LevelsOk, Before, Holds, Tall;
      LevelFacts(nodes, head, lists, 0);
      update := seq(level, _ => None);
      var x: Link := None;
      var l := level;
      while l > 0
        invariant 0 <= l <= level == |update| && level <= |lists|
        invariant if l < level then x == Before(nodes, lists[l], key) else x.None?
        invariant forall m :: l <= m < level ==> update[m] == Before(nodes, lists[m], key)
      {
        l := l - 1;
        x := Advance(x, l, key);
        update := update[l := x];
      }
    }

    /** The inner loop of lines 104-111. */
    method Advance(x0: Link, l: nat, key: I64) returns (x: Link)
      requires Valid() && l < level && |lists| == MAX_LEVEL
      requires x0.Some? ==> l + 1 < MAX_LEVEL && x0 == Before(nodes, lists[l + 1], key)
      ensures x == Before(nodes, lists[l], key)
    {
      hide LevelsOk, Holds, Tall, LevelOk, Cut, Ascending, KeyAt;
      x := x0;
      ghost var list := lists[l];
      ghost var p := Resume(nodes, head, lists, l, x0, key);
      LevelFacts(nodes, head, lists, l);
      CutSplits(nodes, list, key);
      while true
        invariant p <= Cut(nodes, list, key) && x == Prior(list, p)
        decreases |list| - p
      {
        Follow(nodes, head, lists, l, p);
        var next := Forward(x, l);
        if next.Some? && nodes[next.value].key < key {
          x := next;
          p := p + 1;
        } else {
          break;
        }
      }
    }

    /** Lines 100-145. */
    method Insert(key: I64, value: I64, drawn: nat) returns (previous: Option<I64>)
      requires Valid() && 1 <= drawn <= MAX_LEVEL
      modifies this
      ensures Valid() && entries == old(entries)[key := value]
      ensures previous == if key in old(entries) then Some(old(entries)[key]) else None
      ensures key in old(entries) ==> level == old(level) && lists == old(lists) && |nodes| == |old(nodes)|
      ensures key !in old(entries) ==> level == (if drawn > old(level) then drawn else old(level))
      ensures key !in old(entries) ==>
              lists == PlacedLists(old(nodes), old(lists), key, drawn) && |nodes| == |old(nodes)| + 1
    {
      hide LevelsOk, Holds, Tall, Before, Cut, PlacedLists;
      var update := Descend(key);
      LevelFacts(nodes, head, lists, 0);
      Candidate(nodes, head, lists, level, entries, key);
      var candidate := Forward(update[0], 0);
      if candidate.Some? && nodes[candidate.value].key == key {
        previous := Some(nodes[candidate.value].value);
        Revalued(nodes, head, lists, level, entries, candidate.value, value);
        nodes := nodes[candidate.value := nodes[candidate.value].(value := value)];
        entries := entries[key := value];
        return;
      }
      if drawn > level {
        AboveIsEmpty(nodes, head, lists, level, key);
        update := update + seq(drawn - level, _ => None);
        Taller(nodes, level, drawn);
        level := drawn;
      }
      Splice(key, value, drawn, update);
      return None;
    }

    /** Lines 127-143: the new node between its neighbours on each of its levels. */
    method Splice(key: I64, value: I64, drawn: nat, update: seq<Link>)
      requires LevelsOk(nodes, head, lists) && 1 <= drawn <= level <= MAX_LEVEL && drawn <= |update|
               && Tall(nodes, level)
      requires len == |nodes| == |entries| && Holds(nodes, entries) && key !in entries && |head| == |lists| == MAX_LEVEL
      requires forall l :: 0 <= l < drawn ==> update[l] == Before(nodes, lists[l], key)
      modifies this`nodes, this`head, this`len, this`lists, this`entries
      ensures Valid() && entries == old(entries)[key := value]
      ensures lists == PlacedLists(old(nodes), old(lists), key, drawn) && |nodes| == |old(nodes)| + 1
    {
      hide LevelsOk, Holds, Tall, Before, Relinked;
      ghost var before := nodes;
      var idx := |nodes|;
      var forward: seq<Link> := [];
      Neighbours(nodes, head, lists, key, drawn, update);
      for l := 0 to drawn
        invariant |forward| == l && |nodes| == idx && |head| == MAX_LEVEL && lists == old(lists) && len == old(len)
                  && entries == old(entries)
        invariant forall m :: 0 <= m < l ==> forward[m] == LinkOf(before, old(head), update[m], m)
        invariant forall m :: 0 <= m < MAX_LEVEL ==>
                  head[m] == if m < l && update[m].None? then Some(idx) else old(head)[m]
        invariant Relinked(before, nodes, update, l, idx)
      {
        var prev := update[l];
        Unlinked(before, nodes, update, l, idx, prev);
        forward := forward + [Forward(prev, l)];
        RelinkStep(before, nodes, update, l, idx);
        if prev.None? {
          head := head[l := Some(idx)];
        } else {
          nodes := nodes[prev.value := nodes[prev.value].(forward := nodes[prev.value].forward[l := Some(idx)])];
        }
      }
      ghost var node := Node(key, value, forward);
      NewKey(before, entries, key);
      ghost var placed := PlacedLists(before, lists, key, drawn);
      Inserted(before, old(head), lists, nodes, head, update, node, drawn, placed);
      InsertedMap(before, nodes, update, drawn, node, entries, level);
      lists := placed;
      nodes := nodes + [Node(key, value, forward)];
      len := len + 1;
      entries := entries[key := value];
    }

    /** Lines 148-166. */
    method Get(key: I64) returns (r: Option<I64>)
      requires Valid()
      ensures r == if key in entries then Some(entries[key]) else None
    {
      hide LevelsOk, Holds, Tall, Before, Cut;
      var update := Descend(key);
      Candidate(nodes, head, lists, level, entries, key);
      var candidate := Forward(update[0], 0);
      if candidate.Some? && nodes[candidate.value].key == key {
        return Some(nodes[candidate.value].value);
      }
      return None;
    }

    /** Lines 210-228: the entry with the smallest key not below. */
    method Ceiling(key: I64) returns (r: Option<(I64, I64)>)
      requires Valid()
      ensures r.Some? ==> r.value.0 in entries && entries[r.value.0] == r.value.1 && key <= r.value.0
      ensures r.Some? ==> forall k :: k in entries && key <= k ==> r.value.0 <= k
      ensures r.None? ==> forall k :: k in entries ==> k < key
    {
      hide LevelsOk, Holds, Tall, Before, Cut;
      var update := Descend(key);
      Candidate(nodes, head, lists, level, entries, key);
      var node := Forward(update[0], 0);
      LeastFrom(nodes, head, lists, level, entries, key);
      if node.Some? {
        return Some((nodes[node.value].key, nodes[node.value].value));
      }
      return None;
    }

    /** Lines 174-182. */
    method ToSortedVec() returns (out: seq<(I64, I64)>)
      requires Valid()
      ensures ListsEntries(out, entries, I64_MIN, I64_MAX + 1)
    {
      LevelFacts(nodes, head, lists, 0);
      Follow(nodes, head, lists, 0, 0);
      out := Walk(head[0], 0, I64_MAX + 1);
      BottomKeys(nodes, head, lists, 0);
      PairsList(nodes, head, lists, level, entries, 0, |lists[0]|, I64_MIN, I64_MAX + 1);
    }

    /** Lines 185-207. */
    method Range(lo: I64, hi: I64) returns (out: seq<(I64, I64)>)
      requires Valid()
      ensures ListsEntries(out, entries, lo, hi)
    {
      hide LevelsOk, Holds, Tall, Cut, Before, ListsEntries;
      LevelFacts(nodes, head, lists, 0);
      var update := Descend(lo);
      ghost var list := lists[0];
      ghost var from := Cut(nodes, list, lo);
      CutSplits(nodes, list, lo);
      Candidate(nodes, head, lists, level, entries, lo);
      var node := Forward(update[0], 0);
      ghost var to := Stop(nodes, list, from, hi);
      out := Walk(node, from, hi);
      PairsList(nodes, head, lists, level, entries, from, to, lo, hi);
    }

    /** The loops of lines 177-180 and 200-205: from position `from` of the bottom level, up
        to the first key not below `hi`. (The test of line 201 always holds there.) */
    method Walk(start: Link, ghost from: nat, hi: int) returns (out: seq<(I64, I64)>)
      requires Valid() && |lists| == MAX_LEVEL && from <= |lists[0]| && start == At(lists[0], from)
      ensures out == Pairs(nodes, lists[0][from..Stop(nodes, lists[0], from, hi)])
    {
      hide LevelsOk, Holds, Tall, Ascending;
      out := [];
      ghost var list := lists[0];
      var node := start;
      ghost var i := from;
      assert list[from..from] == [];
      Follow(nodes, head, lists, 0, i);
      while node.Some? && nodes[node.value].key < hi
        invariant from <= i <= |list| && node == At(list, i) && out == Pairs(nodes, list[from..i])
        invariant i < |list| ==> list[i] < |nodes| && KeyAt(nodes, list[i]) == nodes[list[i]].key
        invariant Stop(nodes, list, from, hi) == Stop(nodes, list, i, hi)
        decreases |list| - i
      {
        PairsNext(nodes, list, from, i);
        out := out + [(nodes[node.value].key, nodes[node.value].value)];
        Follow(nodes, head, lists, 0, i + 1);
        node := nodes[node.value].forward[0];
        i := i + 1;
      }
    }
  }

  /** Every level is a sublist of the level below: its nodes are all there, in the same
      order of keys. */
  lemma LevelsNest(nodes: Nodes, head: seq<Link>, lists: seq<seq<nat>>, l: nat, lower: seq<nat>, upper: seq<nat>)
    requires LevelsOk(nodes, head, lists) && l + 1 < MAX_LEVEL && lower == lists[l] && upper == lists[l + 1]
    ensures forall i: nat :: i < |upper| ==> OnList(lower, upper[i])
    ensures Ascending(nodes, lower) && Ascending(nodes, upper)
  {
    forall i: nat | i < |upper| ensures OnList(lower, upper[i]) {
      Follow(nodes, head, lists, l + 1, i + 1);
      var j := PlaceOf(nodes, head, lists, l, upper[i]);
    }
    LevelFacts(nodes, head, lists, l);
    LevelFacts(nodes, head, lists, l + 1);
  }

  // ----- searching ------------------------------------------------------------------------

  /** The cursor of the level above is on this level too, among the smaller keys. */
  lemma Resume(nodes: Nodes, head: seq<Link>, lists: seq<seq<nat>>, l: nat, x: Link, key: int) returns (p: nat)
    requires LevelsOk(nodes, head, lists) && l < MAX_LEVEL
    requires x.Some? ==> l + 1 < MAX_LEVEL && x == Before(nodes, lists[l + 1], key)
    ensures p <= Cut(nodes, lists[l], key) && x == Prior(lists[l], p)
  {
    p := 0;
    if x.Some? {
      var q := Cut(nodes, lists[l + 1], key);
      Follow(nodes, head, lists, l + 1, q);
      LevelFacts(nodes, head, lists, l);
      LevelFacts(nodes, head, lists, l + 1);
      CutSplits(nodes, lists[l + 1], key);
      CutSplits(nodes, lists[l], key);
      var i := PlaceOf(nodes, head, lists, l, x.value);
      assert KeyAt(nodes, lists[l + 1][q - 1]) < key;
      p := i + 1;
    }
    hide LevelsOk, LevelOk, Ascending;
  }

  /** The position of a key's node on the bottom level. */
  lemma KeyPlace(nodes: Nodes, head: seq<Link>, lists: seq<seq<nat>>, level: nat, entries: map<I64, I64>, key: I64)
    returns (i: nat)
    requires LevelsOk(nodes, head, lists) && Tall(nodes, level) && Holds(nodes, entries) && key in entries
    ensures i < |lists[0]| && lists[0][i] < |nodes| && KeyAt(nodes, lists[0][i]) == nodes[lists[0][i]].key == key
  {
    var x :| 0 <= x < |nodes| && nodes[x].key == key;
    i := PlaceOf(nodes, head, lists, 0, x);
  }

  /** The first node not below the key is the only one that can carry it. */
  lemma Candidate(nodes: Nodes, head: seq<Link>, lists: seq<seq<nat>>, level: nat, entries: map<I64, I64>, key: I64)
    requires LevelsOk(nodes, head, lists) && Tall(nodes, level) && Holds(nodes, entries) && 1 <= level <= MAX_LEVEL
    ensures |lists| == |head| == MAX_LEVEL
    ensures var list, x := lists[0], Before(nodes, lists[0], key);
            var next := At(list, Cut(nodes, list, key));
            (x.Some? ==> x.value < |nodes| && 0 < |nodes[x.value].forward| && nodes[x.value].forward[0] == next)
            && (x.None? ==> head[0] == next)
            && (next.Some? ==> next.value < |nodes|)
            && (next.Some? && nodes[next.value].key == key <==> key in entries)
            && (next.Some? && nodes[next.value].key == key ==> entries[key] == nodes[next.value].value)
  {
    hide LevelsOk, LevelOk, Cut, KeyAt, Holds, Tall;
    LevelFacts(nodes, head, lists, 0);
    var list := lists[0];
    var p := Cut(nodes, list, key);
    Follow(nodes, head, lists, 0, p);
    CutSplits(nodes, list, key);
    if p < |list| {
      NodeEntry(nodes, entries, list[p]);
    }
    if key in entries {
      var i := KeyPlace(nodes, head, lists, level, entries, key);
      assert i > p ==> KeyAt(nodes, list[p]) < KeyAt(nodes, list[i]);
    }
  }

  lemma LeastFrom(nodes: Nodes, head: seq<Link>, lists: seq<seq<nat>>, level: nat, entries: map<I64, I64>, key: I64)
    requires LevelsOk(nodes, head, lists) && Tall(nodes, level) && Holds(nodes, entries)
    ensures var next := At(lists[0], Cut(nodes, lists[0], key));
            (next.Some? ==>
              next.value < |nodes| && nodes[next.value].key in entries
                && entries[nodes[next.value].key] == nodes[next.value].value)
            && (next.Some? ==> key <= nodes[next.value].key && forall k :: k in entries && key <= k ==>
              nodes[next.value].key <= k)
            && (next.None? ==> forall k :: k in entries ==> k < key)
  {
    var list := lists[0];
    var p := Cut(nodes, list, key);
    Follow(nodes, head, lists, 0, p);
    LevelFacts(nodes, head, lists, 0);
    CutSplits(nodes, list, key);
    forall k | k in entries ensures k < key || (p < |list| && KeyAt(nodes, list[p]) <= k) {
      hide LevelsOk, LevelOk, Cut, Holds, Tall;
      var i := KeyPlace(nodes, head, lists, level, entries, k);
      assert p < i ==> KeyAt(nodes, list[p]) < KeyAt(nodes, list[i]);
    }
    hide LevelsOk, LevelOk, Cut, Tall;
  }

  lemma AboveIsEmpty(nodes: Nodes, head: seq<Link>, lists: seq<seq<nat>>, level: nat, key: int)
    requires LevelsOk(nodes, head, lists) && Tall(nodes, level)
    ensures |lists| == MAX_LEVEL && forall l :: level <= l < MAX_LEVEL ==> Before(nodes, lists[l], key) == None
  {
    forall l | level <= l < MAX_LEVEL ensures Before(nodes, lists[l], key) == None {
      EmptyLevel(nodes, head, lists, level, l);
    }
    hide LevelsOk;
  }

  lemma EmptyLevel(nodes: Nodes, head: seq<Link>, lists: seq<seq<nat>>, level: nat, l: nat)
    requires LevelsOk(nodes, head, lists) && Tall(nodes, level) && level <= l < MAX_LEVEL
    ensures lists[l] == []
  {
    Follow(nodes, head, lists, l, 0);
    if lists[l] != [] {
      Follow(nodes, head, lists, l, 1);
    }
  }

  lemma Taller(nodes: Nodes, level: nat, higher: nat)
    requires Tall(nodes, level) && level <= higher
    ensures Tall(nodes, higher)
  {
  }

  // ----- updating a value -------------------------------------------------------------------

  lemma Revalued(nodes: Nodes, head: seq<Link>, lists: seq<seq<nat>>, level: nat, entries: map<I64, I64>, x: nat,
          value: I64)
    requires LevelsOk(nodes, head, lists) && Tall(nodes, level) && Holds(nodes, entries) && x < |nodes|
             && 1 <= level <= MAX_LEVEL
    ensures var after := nodes[x := nodes[x].(value := value)];
            LevelsOk(after, head, lists) && Tall(after, level) && Holds(after, entries[nodes[x].key := value])
    ensures |entries[nodes[x].key := value]| == |entries|
  {
    var after := nodes[x := nodes[x].(value := value)];
    forall l | 0 <= l < MAX_LEVEL ensures LevelOk(after, head[l], lists[l], l) {
      assert LevelOk(nodes, head[l], lists[l], l);
      RevaluedLevel(nodes, head[l], lists[l], l, x, value);
    }
    forall y: nat | y < |nodes| && y != x ensures nodes[y].key != nodes[x].key {
      var i := PlaceOf(nodes, head, lists, 0, x);
      var j := PlaceOf(nodes, head, lists, 0, y);
      LevelFacts(nodes, head, lists, 0);
    }
    RevaluedMap(nodes, entries, x, value);
    hide LevelOk, Holds;
  }

  lemma RevaluedLevel(nodes: Nodes, first: Link, list: seq<nat>, l: nat, x: nat, value: I64)
    requires LevelOk(nodes, first, list, l) && x < |nodes|
    ensures LevelOk(nodes[x := nodes[x].(value := value)], first, list, l)
  {
    var after := nodes[x := nodes[x].(value := value)];
    forall i: nat | i < |list| ensures LinksOn(after, list, l, i) {
      assert LinksOn(nodes, list, l, i);
    }
  }

  lemma RevaluedMap(nodes: Nodes, entries: map<I64, I64>, x: nat, value: I64)
    requires Holds(nodes, entries) && x < |nodes| && forall y: nat :: y < |nodes| && y != x ==>
             nodes[y].key != nodes[x].key
    ensures Holds(nodes[x := nodes[x].(value := value)], entries[nodes[x].key := value])
    ensures |entries[nodes[x].key := value]| == |entries|
  {
    var after, key := nodes[x := nodes[x].(value := value)], nodes[x].key;
    var more := entries[key := value];
    forall k | k in more ensures exists y :: 0 <= y < |after| && after[y].key == k {
      var y :| 0 <= y < |nodes| && nodes[y].key == k;
      assert after[y].key == k;
    }
    assert entries[nodes[x].key := value].Keys == entries.Keys;
    assert |entries[nodes[x].key := value]| == |entries[nodes[x].key := value].Keys| && |entries| == |entries.Keys|;
  }

  // ----- linking a node -------------------------------------------------------------------------

  function LinkOf(nodes: Nodes, head: seq<Link>, prev: Link, l: nat): Link
  {
    if prev.None? then (if l < |head| then head[l] else None)
    else if prev.value < |nodes| && l < |nodes[prev.value].forward| then nodes[prev.value].forward[l]
    else None
  }

  /** The first `l` levels point past the updated nodes to node `idx`. */
  ghost predicate Relinked(before: Nodes, after: Nodes, update: seq<Link>, l: nat, idx: nat)
  {
    && |after| == |before| && l <= |update|
    && forall x: nat :: x < |before| ==> RelinkedNode(before[x], after[x], x, update, l, idx)
  }

  ghost predicate RelinkedNode(before: Node, after: Node, x: nat, update: seq<Link>, l: nat, idx: nat)
  {
    && after.key == before.key && after.value == before.value && |after.forward| == |before.forward| && l <= |update|
    && forall m: nat :: m < |before.forward| ==>
         after.forward[m] == if m < l && update[m] == Some(x) then Some(idx) else before.forward[m]
  }

  lemma Neighbours(nodes: Nodes, head: seq<Link>, lists: seq<seq<nat>>, key: int, drawn: nat, update: seq<Link>)
    requires LevelsOk(nodes, head, lists) && drawn <= |update| && drawn <= MAX_LEVEL
    requires forall l :: 0 <= l < drawn ==> update[l] == Before(nodes, lists[l], key)
    ensures forall l :: 0 <= l < drawn && update[l].Some? ==>
            update[l].value < |nodes| && l < |nodes[update[l].value].forward|
    ensures Relinked(nodes, nodes, update, 0, |nodes|)
  {
    forall l | 0 <= l < drawn && update[l].Some?
      ensures update[l].value < |nodes| && l < |nodes[update[l].value].forward|
    {
      Follow(nodes, head, lists, l, Cut(nodes, lists[l], key));
      hide LevelsOk;
    }
  }

  lemma NewKey(nodes: Nodes, entries: map<I64, I64>, key: I64)
    requires Holds(nodes, entries) && key !in entries
    ensures forall x :: 0 <= x < |nodes| ==> nodes[x].key != key
  {
  }

  lemma Unlinked(before: Nodes, after: Nodes, update: seq<Link>, l: nat, idx: nat, prev: Link)
    requires Relinked(before, after, update, l, idx)
    requires prev.Some? ==> prev.value < |before| && l < |before[prev.value].forward|
    ensures prev.Some? ==>
            prev.value < |after| && l < |after[prev.value].forward|
              && after[prev.value].forward[l] == before[prev.value].forward[l]
  {
  }

  lemma RelinkStep(before: Nodes, after: Nodes, update: seq<Link>, l: nat, idx: nat)
    requires Relinked(before, after, update, l, idx) && l < |update|
    requires update[l].Some? ==> update[l].value < |before| && l < |before[update[l].value].forward|
    ensures update[l].None? ==> Relinked(before, after, update, l + 1, idx)
    ensures update[l].Some? ==> update[l].value < |after| && l < |after[update[l].value].forward|
    ensures update[l].Some? ==>
      var x := update[l].value; Relinked(before, after[x := after[x].(forward := after[x].forward[l := Some(idx)])],
        update, l + 1, idx)
  {
  }

  /** The list of a level with the new node in its place. */
  ghost function Placed(nodes: Nodes, list: seq<nat>, key: int): seq<nat>
  {
    var p := Cut(nodes, list, key);
    list[..p] + [|nodes|] + list[p..]
  }

  ghost function PlacedLists(nodes: Nodes, lists: seq<seq<nat>>, key: int, drawn: nat): (r: seq<seq<nat>>)
    ensures |r| == |lists|
    ensures forall l :: 0 <= l < |lists| ==> r[l] == if l < drawn then Placed(nodes, lists[l], key) else lists[l]
  {
    seq(|lists|, l requires 0 <= l < |lists| => if l < drawn then Placed(nodes, lists[l], key) else lists[l])
  }

  /** Every level links the new node in its place. */
  lemma Inserted(before: Nodes, head: seq<Link>, lists: seq<seq<nat>>, after: Nodes, head': seq<Link>,
          update: seq<Link>, node: Node, drawn: nat, placed: seq<seq<nat>>)
    requires LevelsOk(before, head, lists) && drawn <= |update| && drawn <= MAX_LEVEL && |head'| == MAX_LEVEL
    requires forall l :: 0 <= l < drawn ==> update[l] == Before(before, lists[l], node.key)
    requires Relinked(before, after, update, drawn, |before|) && |node.forward| == drawn
    requires forall m :: 0 <= m < drawn ==> node.forward[m] == LinkOf(before, head, update[m], m)
    requires forall m :: 0 <= m < MAX_LEVEL ==>
             head'[m] == if m < drawn && update[m].None? then Some(|before|) else head[m]
    requires forall x :: 0 <= x < |before| ==> before[x].key != node.key
    requires placed == PlacedLists(before, lists, node.key, drawn)
    ensures LevelsOk(after + [node], head', placed)
  {
    forall l | 0 <= l < MAX_LEVEL ensures LevelOk(after + [node], head'[l], placed[l], l) {
      assert LevelOk(before, head[l], lists[l], l);
      if l < drawn {
        Follow(before, head, lists, l, Cut(before, lists[l], node.key));
        LinkedLevel(before, head[l], lists[l], after, head'[l], update, node, drawn, l);
      } else {
        UnlinkedLevel(before, head[l], lists[l], after, update, node, drawn, l);
      }
      hide LevelOk;
    }
    hide LevelOk;
  }

  lemma UnlinkedLevel(before: Nodes, first: Link, list: seq<nat>, after: Nodes, update: seq<Link>, node: Node,
          drawn: nat, l: nat)
    requires LevelOk(before, first, list, l) && drawn <= l && |node.forward| == drawn
    requires Relinked(before, after, update, drawn, |before|)
    ensures LevelOk(after + [node], first, list, l)
  {
    var all := after + [node];
    forall i: nat | i < |list| ensures LinksOn(all, list, l, i) && KeyAt(all, list[i]) == KeyAt(before, list[i]) {
      assert LinksOn(before, list, l, i);
      assert all[list[i]] == after[list[i]];
    }
    forall x: nat | x < |all| && |all[x].forward| > l ensures OnList(list, x) {
      assert x < |before| && all[x] == after[x];
    }
  }

  lemma LinkedLevel(before: Nodes, first: Link, list: seq<nat>, after: Nodes, first': Link, update: seq<Link>,
          node: Node, drawn: nat, l: nat)
    requires LevelOk(before, first, list, l) && l < drawn && drawn <= |update|
    requires update[l] == Before(before, list, node.key)
    requires Relinked(before, after, update, drawn, |before|) && |node.forward| == drawn
    requires update[l].Some? ==>
             update[l].value < |before| && l < |before[update[l].value].forward|
               && node.forward[l] == before[update[l].value].forward[l]
    requires update[l].None? ==> node.forward[l] == first
    requires first' == if update[l].None? then Some(|before|) else first
    requires forall x :: 0 <= x < |before| ==> before[x].key != node.key
    ensures LevelOk(after + [node], first', Placed(before, list, node.key), l)
  {
    var all, p, placed := after + [node], Cut(before, list, node.key), Placed(before, list, node.key);
    CutSplits(before, list, node.key);
    PlacedOrder(before, first, list, l, after, update, node, p);
    forall i: nat | i < |placed| ensures LinksOn(all, placed, l, i) {
      PlacedLink(before, first, list, after, update, node, drawn, l, p, i);
    }
    forall x: nat | x < |all| && |all[x].forward| > l ensures OnList(placed, x) {
      if x < |before| {
        assert OnList(list, x);
        var j :| 0 <= j < |list| && list[j] == x;
        assert placed[if j < p then j else j + 1] == x;
      } else {
        assert placed[p] == x;
      }
    }
    hide Cut;
  }

  lemma PlacedLink(before: Nodes, first: Link, list: seq<nat>, after: Nodes, update: seq<Link>, node: Node, drawn: nat,
          l: nat, p: nat, i: nat)
    requires LevelOk(before, first, list, l) && l < drawn && drawn <= |update| && p <= |list|
    requires update[l] == Prior(list, p)
    requires Relinked(before, after, update, drawn, |before|) && |node.forward| == drawn
    requires update[l].Some? ==>
             update[l].value < |before| && l < |before[update[l].value].forward|
               && node.forward[l] == before[update[l].value].forward[l]
    requires update[l].None? ==> node.forward[l] == first
    requires i <= |list|
    ensures LinksOn(after + [node], list[..p] + [|before|] + list[p..], l, i)
  {
    var all, placed := after + [node], list[..p] + [|before|] + list[p..];
    if i == p {
      assert all[placed[i]] == node;
      assert p > 0 ==> LinksOn(before, list, l, p - 1);
    } else {
      var j := if i < p then i else i - 1;
      assert placed[i] == list[j] && LinksOn(before, list, l, j);
      assert all[list[j]] == after[list[j]];
      if j != p - 1 && p > 0 {
        assert KeyAt(before, list[j]) != KeyAt(before, list[p - 1]);
      }
    }
  }

  lemma PlacedOrder(before: Nodes, first: Link, list: seq<nat>, l: nat, after: Nodes, update: seq<Link>, node: Node,
          p: nat)
    requires LevelOk(before, first, list, l) && p <= |list| && |after| == |before|
    requires forall x :: 0 <= x < |before| ==> after[x].key == before[x].key && before[x].key != node.key
    requires forall i :: 0 <= i < p ==> KeyAt(before, list[i]) < node.key
    requires forall i :: p <= i < |list| ==> node.key <= KeyAt(before, list[i])
    ensures Ascending(after + [node], list[..p] + [|before|] + list[p..])
  {
    var all, placed := after + [node], list[..p] + [|before|] + list[p..];
    forall i | 0 <= i < |placed| && i != p
      ensures KeyAt(all, placed[i]) == KeyAt(before, list[if i < p then i else i - 1])
              && KeyAt(all, placed[i]) != node.key
    {
      var j: nat := if i < p then i else i - 1;
      assert LinksOn(before, list, l, j) && placed[i] == list[j];
    }
    assert KeyAt(all, placed[p]) == node.key;
  }

  lemma InsertedMap(before: Nodes, after: Nodes, update: seq<Link>, drawn: nat, node: Node, entries: map<I64, I64>,
          level: nat)
    requires Relinked(before, after, update, drawn, |before|) && Holds(before, entries) && node.key !in entries
    requires Tall(before, level) && 1 <= drawn <= level && |node.forward| == drawn
    ensures Holds(after + [node], entries[node.key := node.value]) && Tall(after + [node], level)
    ensures |entries[node.key := node.value]| == |entries| + 1
  {
    var all, more := after + [node], entries[node.key := node.value];
    forall x: nat | x < |before|
      ensures all[x].key == before[x].key && all[x].value == before[x].value && |all[x].forward| == |before[x].forward|
    {
      assert RelinkedNode(before[x], after[x], x, update, drawn, |before|);
    }
    hide Relinked;
    MoreHolds(before, entries, all, node);
    assert more.Keys == entries.Keys + {node.key};
    assert |more| == |more.Keys| && |entries| == |entries.Keys|;
    hide Holds;
  }

  lemma MoreHolds(before: Nodes, entries: map<I64, I64>, all: Nodes, node: Node)
    requires Holds(before, entries) && node.key !in entries && |all| == |before| + 1 && all[|before|] == node
    requires forall x: nat :: x < |before| ==> all[x].key == before[x].key && all[x].value == before[x].value
    ensures Holds(all, entries[node.key := node.value])
  {
    var more := entries[node.key := node.value];
    forall k | k in more ensures exists x :: 0 <= x < |all| && all[x].key == k {
      if k == node.key {
        assert all[|before|].key == k;
      } else {
        var x :| 0 <= x < |before| && before[x].key == k;
        assert all[x].key == k;
      }
    }
  }

  // ----- listing -----------------------------------------------------------------------------------

  ghost function Pairs(nodes: Nodes, list: seq<nat>): (r: seq<(I64, I64)>)
  {
    if list == [] then []
    else
      var front, x := Pairs(nodes, list[..|list| - 1]), list[|list| - 1];
      if x < |nodes| then front + [(nodes[x].key, nodes[x].value)] else front
  }

  lemma PairsNext(nodes: Nodes, list: seq<nat>, from: nat, i: nat)
    requires from <= i < |list| && list[i] < |nodes|
    ensures Pairs(nodes, list[from..i + 1])
            == Pairs(nodes, list[from..i]) + [(nodes[list[i]].key, nodes[list[i]].value)]
  {
    var part := list[from..i + 1];
    assert part[..|part| - 1] == list[from..i] && part[|part| - 1] == list[i];
  }

  lemma {:induction false} PairsAt(nodes: Nodes, list: seq<nat>)
    requires forall i :: 0 <= i < |list| ==> list[i] < |nodes|
    ensures |Pairs(nodes, list)| == |list|
    ensures forall i :: 0 <= i < |list| ==> Pairs(nodes, list)[i] == (nodes[list[i]].key, nodes[list[i]].value)
  {
    if list != [] {
      PairsAt(nodes, list[..|list| - 1]);
    }
  }

  /** The first position from `from` on whose key is not below `hi`. */
  ghost function Stop(nodes: Nodes, list: seq<nat>, from: nat, hi: int): (to: nat)
    requires from <= |list|
    ensures from <= to <= |list|
    ensures forall i :: from <= i < to ==> KeyAt(nodes, list[i]) < hi
    ensures to < |list| ==> hi <= KeyAt(nodes, list[to])
    decreases |list| - from
  {
    if from == |list| || KeyAt(nodes, list[from]) >= hi then from else Stop(nodes, list, from + 1, hi)
  }

  /** The entries with a key from `lo` up to but not including `hi`, in strictly ascending
      key order. */
  ghost predicate ListsEntries(out: seq<(I64, I64)>, entries: map<I64, I64>, lo: int, hi: int)
  {
    && (forall i, j :: 0 <= i < j < |out| ==> out[i].0 < out[j].0)
    && (forall k, v :: (k, v) in out <==> k in entries && entries[k] == v && lo <= k < hi)
  }

  /** Keys are 64-bit integers. */
  lemma BottomKeys(nodes: Nodes, head: seq<Link>, lists: seq<seq<nat>>, from: nat)
    requires LevelsOk(nodes, head, lists) && from <= |lists[0]|
    ensures Stop(nodes, lists[0], from, I64_MAX + 1) == |lists[0]|
    ensures forall i :: 0 <= i < |lists[0]| ==> I64_MIN <= KeyAt(nodes, lists[0][i]) < I64_MAX + 1
  {
    forall i | 0 <= i < |lists[0]| ensures I64_MIN <= KeyAt(nodes, lists[0][i]) < I64_MAX + 1 {
      Follow(nodes, head, lists, 0, i);
    }
  }

  /** The nodes of the bottom level from one position to another are the entries of a key
      interval, if nothing before or after lies in it. */
  lemma PairsList(nodes: Nodes, head: seq<Link>, lists: seq<seq<nat>>, level: nat, entries: map<I64, I64>, from: nat,
          to: nat, lo: int, hi: int)
    requires LevelsOk(nodes, head, lists) && Holds(nodes, entries) && Tall(nodes, level) && from <= to <= |lists[0]|
    requires forall i :: 0 <= i < from ==> KeyAt(nodes, lists[0][i]) < lo
    requires forall i :: from <= i < to ==> lo <= KeyAt(nodes, lists[0][i]) < hi
    requires to < |lists[0]| ==> hi <= KeyAt(nodes, lists[0][to])
    ensures ListsEntries(Pairs(nodes, lists[0][from..to]), entries, lo, hi)
  {
    hide LevelsOk, Tall, Pairs, Holds, KeyAt;
    LevelFacts(nodes, head, lists, 0);
    var list := lists[0];
    hide LevelOk;
    forall i | 0 <= i < |list| ensures list[i] < |nodes| && KeyAt(nodes, list[i]) == nodes[list[i]].key {
      Follow(nodes, head, lists, 0, i);
    }
    var part, out := list[from..to], Pairs(nodes, list[from..to]);
    assert forall i :: 0 <= i < |part| ==> part[i] == list[from + i];
    PairsAt(nodes, part);
    forall k, v | (k, v) in out ensures k in entries && entries[k] == v && lo <= k < hi {
      var i :| 0 <= i < |out| && out[i] == (k, v);
      NodeEntry(nodes, entries, part[i]);
    }
    forall k, v | k in entries && entries[k] == v && lo <= k < hi ensures (k, v) in out {
      var i := KeyPlace(nodes, head, lists, level, entries, k);
      NodeEntry(nodes, entries, list[i]);
      AtOrBefore(nodes, list, from, to, i, lo, hi);
      assert part[i - from] == list[i] && out[i - from] == (k, v);
    }
  }

  lemma AtOrBefore(nodes: Nodes, list: seq<nat>, from: nat, to: nat, i: nat, lo: int, hi: int)
    requires Ascending(nodes, list) && from <= to <= |list| && i < |list| && lo <= KeyAt(nodes, list[i]) < hi
    requires forall j :: 0 <= j < from ==> KeyAt(nodes, list[j]) < lo
    requires to < |list| ==> hi <= KeyAt(nodes, list[to])
    ensures from <= i < to
  {
    hide KeyAt;
  }

  lemma NodeEntry(nodes: Nodes, entries: map<I64, I64>, x: nat)
    requires Holds(nodes, entries) && x < |nodes|
    ensures nodes[x].key in entries && entries[nodes[x].key] == nodes[x].value
  {
  }
}
