/** The compressed radix trie over byte strings (src/radix.rs). A node owns its children, so
    nodes are values here; a child map is a list of children by their first byte. */
module RadixTries {
  import opened Integers
  import opened Options

  type Key = seq<Byte>

  datatype Trie = Trie(prefix: Key, value: Option<I64>, kids: seq<Trie>)

  datatype Pair = Pair(key: Key, value: I64)

  function FirstByte(t: Trie): int
  {
    if t.prefix == [] then 0 else t.prefix[0]
  }

  ghost predicate Ascending(kids: seq<Trie>)
  {
    forall i, j :: 0 <= i < j < |kids| ==> FirstByte(kids[i]) < FirstByte(kids[j])
  }

  /** Children differ in their first byte, and no edge could be shortened away: a node below
      the root ends a key or branches. */
  ghost predicate WellFormed(t: Trie)
  {
    Ascending(t.kids) && forall i :: 0 <= i < |t.kids| ==>
      t.kids[i].prefix != [] && WellFormed(t.kids[i]) && Needed(t.kids[i])
  }

  ghost predicate Needed(t: Trie)
  {
    t.value.Some? || |t.kids| >= 2
  }

  // ----- children ------------------------------------------------------------------------

  /** How many children have a smaller first byte. */
  function Place(kids: seq<Trie>, b: int): (p: nat)
    ensures p <= |kids|
    ensures forall i :: 0 <= i < p ==> FirstByte(kids[i]) < b
    ensures p < |kids| ==> b <= FirstByte(kids[p])
  {
    if kids == [] || FirstByte(kids[0]) >= b then 0 else 1 + Place(kids[1..], b)
  }

  predicate HasKid(kids: seq<Trie>, b: int)
  {
    Place(kids, b) < |kids| && FirstByte(kids[Place(kids, b)]) == b
  }

  /** The child with this first byte. */
  ghost function KidAt(kids: seq<Trie>, b: int): (r: Option<Trie>)
    ensures r.Some? ==> Place(kids, b) < |kids| && r.value == kids[Place(kids, b)]
  {
    if HasKid(kids, b) then Some(kids[Place(kids, b)]) else None
  }

  lemma PlaceUnique(kids: seq<Trie>, b: int, p: nat)
    requires Ascending(kids) && p <= |kids|
    requires forall i :: 0 <= i < p ==> FirstByte(kids[i]) < b
    requires p < |kids| ==> b <= FirstByte(kids[p])
    ensures Place(kids, b) == p
  {
    var q := Place(kids, b);
    var atQ := if q < |kids| then FirstByte(kids[q]) else b;
    var atP := if p < |kids| then FirstByte(kids[p]) else b;
  }

  lemma KidAtReplaced(kids: seq<Trie>, p: nat, next: Trie, b: int)
    requires Ascending(kids) && p < |kids| && FirstByte(next) == FirstByte(kids[p])
    ensures Ascending(kids[p := next]) && KidAt(kids[p := next], b) ==
            if b == FirstByte(next) then Some(next) else KidAt(kids, b)
  {
    PlaceUnique(kids[p := next], b, Place(kids, b));
    PlaceUnique(kids, FirstByte(next), p);
    hide Place;
  }

  lemma KidAtInserted(kids: seq<Trie>, p: nat, leaf: Trie, b: int)
    requires Ascending(kids) && p == Place(kids, FirstByte(leaf)) && !HasKid(kids, FirstByte(leaf))
    ensures var more := kids[..p] + [leaf] + kids[p..];
            Ascending(more) && KidAt(more, b) == if b == FirstByte(leaf) then Some(leaf) else KidAt(kids, b)
  {
    hide Place;
    var more, q := kids[..p] + [leaf] + kids[p..], Place(kids, b);
    StillAscending(kids, p, leaf);
    hide FirstByte;
    PlaceUnique(more, b, if b > FirstByte(leaf) then q + 1 else q);
  }

  lemma StillAscending(kids: seq<Trie>, p: nat, leaf: Trie)
    requires Ascending(kids) && p == Place(kids, FirstByte(leaf)) && !HasKid(kids, FirstByte(leaf))
    ensures Ascending(kids[..p] + [leaf] + kids[p..])
  {
    hide Place;
    var more := kids[..p] + [leaf] + kids[p..];
    forall i, j | 0 <= i < j < |more| ensures FirstByte(more[i]) < FirstByte(more[j]) {
      assert j > p + 1 ==> FirstByte(kids[p]) < FirstByte(kids[j - 1]);
    }
  }

  // ----- looking up ------------------------------------------------------------------------

  /** The value of the key that continues with `rest` below a node. */
  ghost function Lookup(t: Trie, rest: Key): Option<I64>
    decreases t, 1
  {
    if rest == [] then t.value
    else
      var kid := KidAt(t.kids, rest[0]);
      if kid.None? then None else LookupEdge(kid.value, rest)
  }

  /** ... when an edge has to be passed first. */
  ghost function LookupEdge(t: Trie, rest: Key): Option<I64>
    decreases t, 2
  {
    if t.prefix <= rest then Lookup(t, rest[|t.prefix|..]) else None
  }

  /** Lines 37-43. */
  method CommonPrefix(a: Key, b: Key) returns (n: nat)
    ensures n <= |a| && n <= |b| && a[..n] == b[..n] && (n < |a| && n < |b| ==> a[n] != b[n])
  {
    n := 0;
    while n < |a| && n < |b| && a[n] == b[n]
      invariant n <= |a| && n <= |b| && a[..n] == b[..n]
    {
      n := n + 1;
    }
  }

  lemma EdgeCases(prefix: Key, rest: Key, n: nat)
    requires n <= |prefix| && n <= |rest| && prefix[..n] == rest[..n]
             && (n < |prefix| && n < |rest| ==> prefix[n] != rest[n])
    ensures n == |prefix| <==> prefix <= rest
    ensures n == |rest| <==> rest <= prefix
  {
    if n < |prefix| && n < |rest| {
      DiffersAt(prefix, rest, n);
    }
  }

  lemma DiffersAt(a: Key, b: Key, n: nat)
    requires n < |a| && n < |b| && a[n] != b[n]
    ensures !(a <= b) && !(b <= a)
  {
  }

  // ----- inserting ---------------------------------------------------------------------------

  /** `after` has one key more, or another value for it. */
  ghost predicate Puts(before: Trie, after: Trie, key: Key, value: I64)
  {
    forall k: Key :: Lookup(after, k) == if k == key then Some(value) else Lookup(before, k)
  }

  ghost predicate PutsEdge(before: Trie, after: Trie, key: Key, value: I64)
  {
    forall k: Key :: LookupEdge(after, k) == if k == key then Some(value) else LookupEdge(before, k)
  }

  function Leaf(key: Key, value: I64): Trie
  {
    Trie(key, Some(value), [])
  }

  /** Lines 78-113. */
  method InsertInto(t: Trie, key: Key, value: I64) returns (r: Trie, old': Option<I64>, added: bool)
    requires WellFormed(t)
    ensures WellFormed(r) && r.prefix == t.prefix && (Needed(t) ==> Needed(r))
    ensures Puts(t, r, key, value) && old' == Lookup(t, key) && added == old'.None?
    ensures Count(r) == Count(t) + if added then 1 else 0
    decreases t
  {
    hide WellFormed, Puts, Needed, LookupEdge;
    if key == [] {
      old', added := t.value, t.value.None?;
      r := t.(value := Some(value));
      ValueSet(t, value);
      return;
    }
    var first := key[0];
    var p := Place(t.kids, first);
    if HasKid(t.kids, first) {
      var child := t.kids[p];
      KidFacts(t, p);
      var cp := CommonPrefix(child.prefix, key);
      EdgeCases(child.prefix, key, cp);
      var next;
      if cp == |child.prefix| {
        next, old', added := InsertInto(child, key[cp..], value);
        EdgePassed(child, next, key, value);
      } else {
        next := SplitEdge(child, key, value, cp);
        old', added := None, true;
        assert LookupEdge(child, key) == None by { EdgeMissed(child, key); }
      }
      KidReplaced(t, p, next, key, value);
      r := t.(kids := t.kids[p := next]);
    } else {
      old', added := None, true;
      KidInserted(t, p, key, value);
      r := t.(kids := t.kids[..p] + [Leaf(key, value)] + t.kids[p..]);
    }
  }

  /** Lines 90-106: the edge is divided where the key leaves it. */
  method SplitEdge(child: Trie, key: Key, value: I64, cp: nat) returns (split: Trie)
    requires WellFormed(child) && Needed(child) && 0 < cp < |child.prefix| && cp <= |key|
             && child.prefix[..cp] == key[..cp]
    requires cp < |key| ==> child.prefix[cp] != key[cp]
    ensures WellFormed(split) && Needed(split) && split.prefix == child.prefix[..cp]
    ensures PutsEdge(child, split, key, value) && Count(split) == Count(child) + 1
  {
    hide WellFormed, PutsEdge, Needed;
    var lower := child.(prefix := child.prefix[cp..]);
    if cp == |key| {
      split := Trie(child.prefix[..cp], Some(value), [lower]);
      SplitAtKey(child, key, value, cp);
      return;
    }
    var leaf := Leaf(key[cp..], value);
    split := Trie(child.prefix[..cp], None, if leaf.prefix[0] < lower.prefix[0] then [leaf, lower] else [lower, leaf]);
    SplitBeforeKey(child, key, value, cp);
  }

  lemma KidFacts(t: Trie, p: nat)
    requires WellFormed(t) && p < |t.kids|
    ensures t.kids[p].prefix != [] && WellFormed(t.kids[p]) && Needed(t.kids[p]) && Ascending(t.kids)
  {
  }

  lemma ValueSet(t: Trie, value: I64)
    requires WellFormed(t)
    ensures var r := t.(value := Some(value));
            WellFormed(r) && Needed(r) && Puts(t, r, [], value) && Count(r) == Count(t) + if t.value.None? then 1 else 0
  {
    hide LookupEdge;
  }

  lemma EdgeMissed(t: Trie, key: Key)
    requires !(t.prefix <= key)
    ensures LookupEdge(t, key) == None
  {
  }

  /** Inserting below a whole edge. */
  lemma EdgePassed(child: Trie, next: Trie, key: Key, value: I64)
    requires child.prefix <= key && next.prefix == child.prefix && Puts(child, next, key[|child.prefix|..], value)
    ensures PutsEdge(child, next, key, value) && LookupEdge(child, key) == Lookup(child, key[|child.prefix|..])
  {
    var n := |child.prefix|;
    forall k: Key ensures LookupEdge(next, k) == if k == key then Some(value) else LookupEdge(child, k) {
      if child.prefix <= k {
        assert k == child.prefix + k[n..] && key == child.prefix + key[n..];
        assert k[n..] == key[n..] <==> k == key;
      }
    }
    hide Puts;
  }

  lemma LookupBelow(t: Trie, k: Key)
    requires k != []
    ensures var kid := KidAt(t.kids, k[0]); Lookup(t, k) == if kid.None? then None else LookupEdge(kid.value, k)
  {
  }

  lemma FormReplaced(t: Trie, p: nat, next: Trie)
    requires WellFormed(t) && p < |t.kids| && WellFormed(next) && Needed(next) && next.prefix != []
             && FirstByte(next) == FirstByte(t.kids[p])
    ensures WellFormed(t.(kids := t.kids[p := next]))
  {
  }

  lemma KidReplaced(t: Trie, p: nat, next: Trie, key: Key, value: I64)
    requires WellFormed(t) && key != [] && p == Place(t.kids, key[0]) && HasKid(t.kids, key[0])
    requires WellFormed(next) && Needed(next) && next.prefix != [] && FirstByte(next) == key[0]
             && PutsEdge(t.kids[p], next, key, value)
    ensures var r := t.(kids := t.kids[p := next]);
            WellFormed(r) && (Needed(t) ==> Needed(r)) && Puts(t, r, key, value)
              && Lookup(t, key) == LookupEdge(t.kids[p], key)
            && Count(r) == Count(t) - Count(t.kids[p]) + Count(next)
  {
    var r := t.(kids := t.kids[p := next]);
    FormReplaced(t, p, next);
    CountReplaced(t.kids, p, next);
    LookupBelow(t, key);
    KidFacts(t, p);
    hide WellFormed, Lookup, LookupEdge, Place, Ascending;
    forall k: Key ensures Lookup(r, k) == if k == key then Some(value) else Lookup(t, k) {
      if k != [] {
        LookupBelow(t, k);
        LookupBelow(r, k);
        KidAtReplaced(t.kids, p, next, k[0]);
        assert LookupEdge(next, k) == if k == key then Some(value) else LookupEdge(t.kids[p], k);
      } else {
        AtNode(t, r);
      }
    }
  }

  lemma AtNode(t: Trie, r: Trie)
    requires r.value == t.value
    ensures Lookup(r, []) == Lookup(t, [])
  {
  }

  lemma KidInserted(t: Trie, p: nat, key: Key, value: I64)
    requires WellFormed(t) && key != [] && p == Place(t.kids, key[0]) && !HasKid(t.kids, key[0])
    ensures var r := t.(kids := t.kids[..p] + [Leaf(key, value)] + t.kids[p..]);
            WellFormed(r) && (Needed(t) ==> Needed(r)) && Puts(t, r, key, value) && Count(r) == Count(t) + 1
    ensures Lookup(t, key) == None
  {
    var leaf := Leaf(key, value);
    var r := t.(kids := t.kids[..p] + [leaf] + t.kids[p..]);
    assert WellFormed(leaf) && Count(leaf) == 1;
    FormInserted(t, p, leaf);
    CountInserted(t.kids, p, leaf);
    LeafLookup(key, value);
    LookupBelow(t, key);
    assert Ascending(t.kids);
    hide WellFormed, Lookup, LookupEdge, Place, Ascending;
    forall k: Key ensures Lookup(r, k) == if k == key then Some(value) else Lookup(t, k) {
      if k != [] {
        LookupBelow(t, k);
        LookupBelow(r, k);
        KidAtInserted(t.kids, p, leaf, k[0]);
        assert LookupEdge(leaf, k) == if k == key then Some(value) else None;
      } else {
        AtNode(t, r);
      }
    }
  }

  lemma FormInserted(t: Trie, p: nat, leaf: Trie)
    requires WellFormed(t) && p == Place(t.kids, FirstByte(leaf)) && !HasKid(t.kids, FirstByte(leaf))
    requires WellFormed(leaf) && Needed(leaf) && leaf.prefix != []
    ensures WellFormed(t.(kids := t.kids[..p] + [leaf] + t.kids[p..]))
  {
    StillAscending(t.kids, p, leaf);
  }

  /** The leaf's only key is its own. */
  lemma LeafLookup(key: Key, value: I64)
    requires key != []
    ensures forall k: Key :: LookupEdge(Leaf(key, value), k) == if k == key then Some(value) else None
  {
    forall k: Key ensures LookupEdge(Leaf(key, value), k) == if k == key then Some(value) else None {
      if key <= k {
        assert k == key + k[|key|..];
      }
    }
  }

  /** The edge divided where the key ends. */
  lemma SplitAtKey(child: Trie, key: Key, value: I64, cp: nat)
    requires WellFormed(child) && Needed(child) && 0 < cp < |child.prefix| && cp == |key| && child.prefix[..cp] == key
    ensures var split := Trie(child.prefix[..cp], Some(value), [child.(prefix := child.prefix[cp..])]);
            WellFormed(split) && Needed(split) && PutsEdge(child, split, key, value) && Count(split) == Count(child) + 1
  {
    var lower := child.(prefix := child.prefix[cp..]);
    var split := Trie(child.prefix[..cp], Some(value), [lower]);
    assert WellFormed(lower) && Count(lower) == Count(child);
    assert CountAll([lower]) == Count(lower) by { assert [lower][..0] == []; }
    forall k: Key ensures LookupEdge(split, k) == if k == key then Some(value) else LookupEdge(child, k) {
      if key <= k {
        assert k == key + k[cp..];
        OneKid(lower, k[cp..]);
        LowerEdge(child, k, cp);
      } else {
        NotBelow(child, k, cp);
      }
    }
  }

  /** The edge divided where the key goes another way. */
  lemma SplitBeforeKey(child: Trie, key: Key, value: I64, cp: nat)
    requires WellFormed(child) && Needed(child) && 0 < cp < |child.prefix| && cp < |key|
             && child.prefix[..cp] == key[..cp]
    requires child.prefix[cp] != key[cp]
    ensures var lower, leaf := child.(prefix := child.prefix[cp..]), Leaf(key[cp..], value);
            var split := Trie(child.prefix[..cp], None,
              if leaf.prefix[0] < lower.prefix[0] then [leaf, lower] else [lower, leaf]);
            WellFormed(split) && Needed(split) && PutsEdge(child, split, key, value) && Count(split) == Count(child) + 1
  {
    var upper, lower, leaf := child.prefix[..cp], child.(prefix := child.prefix[cp..]), Leaf(key[cp..], value);
    var kids := if leaf.prefix[0] < lower.prefix[0] then [leaf, lower] else [lower, leaf];
    var split := Trie(upper, None, kids);
    assert WellFormed(lower) && WellFormed(leaf) && Count(lower) == Count(child) && Count(leaf) == 1;
    assert CountAll(kids) == Count(lower) + Count(leaf) by { assert kids[..1][..0] == [] && kids[..1] == [kids[0]]; }
    LeafLookup(key[cp..], value);
    forall k: Key ensures LookupEdge(split, k) == if k == key then Some(value) else LookupEdge(child, k) {
      if upper <= k {
        assert k == upper + k[cp..] && key == upper + key[cp..];
        TwoKids(lower, leaf, kids, k[cp..]);
        LowerEdge(child, k, cp);
        assert LookupEdge(leaf, k[cp..]) == if k[cp..] == key[cp..] then Some(value) else None;
        assert k[cp..] == key[cp..] <==> k == key;
      } else {
        NotBelow(child, k, cp);
      }
    }
  }

  lemma OneKid(kid: Trie, rest: Key)
    requires kid.prefix != []
    ensures forall b :: KidAt([kid], b) == if b == FirstByte(kid) then Some(kid) else None
    ensures rest != [] && rest[0] != FirstByte(kid) ==> LookupEdge(kid, rest) == None
  {
    forall b ensures KidAt([kid], b) == if b == FirstByte(kid) then Some(kid) else None {
      PlaceUnique([kid], b, if FirstByte(kid) < b then 1 else 0);
    }
  }

  lemma TwoKids(a: Trie, c: Trie, kids: seq<Trie>, rest: Key)
    requires a.prefix != [] && c.prefix != [] && FirstByte(a) != FirstByte(c)
             && kids == if FirstByte(c) < FirstByte(a) then [c, a] else [a, c]
    ensures forall b ::
            KidAt(kids, b) == if b == FirstByte(a) then Some(a) else if b == FirstByte(c) then Some(c) else None
    ensures rest == [] || rest[0] != FirstByte(a) ==> LookupEdge(a, rest) == None
    ensures rest == [] || rest[0] != FirstByte(c) ==> LookupEdge(c, rest) == None
  {
    forall b
      ensures KidAt(kids, b) == if b == FirstByte(a) then Some(a) else if b == FirstByte(c) then Some(c) else None
    {
      PlaceUnique(kids, b, if FirstByte(kids[1]) < b then 2 else if FirstByte(kids[0]) < b then 1 else 0);
    }
  }

  /** Passing an edge is passing its upper and then its lower part. */
  lemma LowerEdge(child: Trie, k: Key, cp: nat)
    requires cp <= |child.prefix| && cp <= |k| && child.prefix[..cp] == k[..cp]
    ensures LookupEdge(child, k) == LookupEdge(child.(prefix := child.prefix[cp..]), k[cp..])
  {
    var low := child.prefix[cp..];
    assert child.prefix == k[..cp] + low && k == k[..cp] + k[cp..];
    SharedStart(k[..cp], low, k[cp..]);
    if low <= k[cp..] {
      assert k[cp..][|low|..] == k[|child.prefix|..];
      SameBelow(child, low, k[|child.prefix|..]);
    }
  }

  lemma SharedStart(a: Key, b: Key, c: Key)
    ensures a + b <= a + c <==> b <= c
  {
    if a + b <= a + c {
      assert b == (a + b)[|a|..] && (a + c)[..|a + b|][|a|..] == c[..|b|];
    }
    if b <= c {
      assert (a + c)[..|a + b|] == a + c[..|b|];
    }
  }

  /** The prefix of a node plays no part below it. */
  lemma SameBelow(t: Trie, prefix: Key, rest: Key)
    ensures Lookup(t.(prefix := prefix), rest) == Lookup(t, rest)
  {
  }

  lemma NotBelow(child: Trie, k: Key, cp: nat)
    requires cp <= |child.prefix| && !(child.prefix[..cp] <= k)
    ensures LookupEdge(child, k) == None
  {
    ShorterPrefix(child.prefix, k, cp);
  }

  lemma ShorterPrefix(p: Key, k: Key, cp: nat)
    requires cp <= |p|
    ensures p <= k ==> p[..cp] <= k
  {
  }

  // ----- counting ------------------------------------------------------------------------------

  /** How many keys end at or below a node. */
  ghost function Count(t: Trie): nat
    decreases t, 1
  {
    (if t.value.Some? then 1 else 0) + CountAll(t.kids)
  }

  ghost function CountAll(kids: seq<Trie>): nat
    decreases kids, 0
  {
    if kids == [] then 0 else CountAll(kids[..|kids| - 1]) + Count(kids[|kids| - 1])
  }

  lemma {:induction false} CountReplaced(kids: seq<Trie>, p: nat, next: Trie)
    requires p < |kids|
    ensures CountAll(kids[p := next]) == CountAll(kids) - Count(kids[p]) + Count(next)
  {
    var n := |kids| - 1;
    if p < n {
      CountReplaced(kids[..n], p, next);
      assert kids[p := next][..n] == kids[..n][p := next];
    } else {
      assert kids[p := next][..n] == kids[..n];
    }
  }

  lemma {:induction false} CountInserted(kids: seq<Trie>, p: nat, leaf: Trie)
    requires p <= |kids|
    ensures CountAll(kids[..p] + [leaf] + kids[p..]) == CountAll(kids) + Count(leaf)
  {
    var more, n := kids[..p] + [leaf] + kids[p..], |kids|;
    if p < n {
      CountInserted(kids[..n - 1], p, leaf);
      assert more[..n] == kids[..n - 1][..p] + [leaf] + kids[..n - 1][p..];
    } else {
      assert more[..n] == kids;
    }
  }

  // ----- listing -------------------------------------------------------------------------------

  /** Each key behind `front`. */
  function Behind(front: Key, list: seq<Pair>): (r: seq<Pair>)
    ensures |r| == |list| && forall i :: 0 <= i < |r| ==> r[i] == Pair(front + list[i].key, list[i].value)
  {
    seq(|list|, i requires 0 <= i < |list| => Pair(front + list[i].key, list[i].value))
  }

  /** What is below a node, each key as it continues there. */
  ghost function Listing(t: Trie): seq<Pair>
    decreases t, 1
  {
    (if t.value.Some? then [Pair([], t.value.value)] else []) + KidsListing(t.kids)
  }

  ghost function KidsListing(kids: seq<Trie>): seq<Pair>
    decreases kids, 0
  {
    if kids == [] then [] else KidsListing(kids[..|kids| - 1]) + EdgeListing(kids[|kids| - 1])
  }

  ghost function EdgeListing(t: Trie): seq<Pair>
    decreases t, 2
  {
    Behind(t.prefix, Listing(t))
  }

  lemma KidsTake(kids: seq<Trie>, n: nat)
    requires n < |kids|
    ensures KidsListing(kids[..n + 1]) == KidsListing(kids[..n]) + EdgeListing(kids[n])
  {
    assert kids[..n + 1][..n] == kids[..n];
  }

  lemma NoKids(front: Key)
    ensures Behind(front, KidsListing([])) == []
  {
  }

  lemma BehindConcat(front: Key, a: seq<Pair>, b: seq<Pair>)
    ensures Behind(front, a + b) == Behind(front, a) + Behind(front, b)
    ensures Behind(front, []) == []
  {
  }

  lemma BehindTwice(front: Key, more: Key, list: seq<Pair>)
    ensures Behind(front, Behind(more, list)) == Behind(front + more, list)
  {
    forall i | 0 <= i < |list| ensures front + (more + list[i].key) == (front + more) + list[i].key {
    }
  }

  lemma BehindNothing(list: seq<Pair>)
    ensures Behind([], list) == list
  {
    forall i | 0 <= i < |list| ensures [] + list[i].key == list[i].key {
    }
  }

  /** Lines 151-161: everything from a node on, its edge included. */
  method Collect(t: Trie, front: Key, out0: seq<Pair>) returns (out: seq<Pair>)
    ensures out == out0 + Behind(front, EdgeListing(t))
    decreases t, 1
  {
    hide Behind, EdgeListing;
    EdgeParts(front, t);
    out := CollectBelow(t, front + t.prefix, out0);
  }

  /** Lines 154-159 and 196-201. */
  method CollectBelow(t: Trie, front: Key, out0: seq<Pair>) returns (out: seq<Pair>)
    ensures out == out0 + Behind(front, Listing(t))
    decreases t, 0
  {
    hide Behind, EdgeListing, Listing, KidsListing;
    ListingParts(front, t);
    NoKids(front);
    out := out0;
    if t.value.Some? {
      out := out + [Pair(front, t.value.value)];
    }
    ghost var start := out;
    assert t.kids[..0] == [];
    for n := 0 to |t.kids|
      invariant out == start + Behind(front, KidsListing(t.kids[..n]))
    {
      KidsTake(t.kids, n);
      BehindConcat(front, KidsListing(t.kids[..n]), EdgeListing(t.kids[n]));
      out := Collect(t.kids[n], front, out);
    }
    assert t.kids[..|t.kids|] == t.kids;
  }

  lemma EdgeParts(front: Key, t: Trie)
    ensures Behind(front, EdgeListing(t)) == Behind(front + t.prefix, Listing(t))
  {
    BehindTwice(front, t.prefix, Listing(t));
  }

  lemma ListingParts(front: Key, t: Trie)
    ensures Behind(front, Listing(t))
         == (if t.value.Some? then [Pair(front, t.value.value)] else []) + Behind(front, KidsListing(t.kids))
  {
    BehindConcat(front, if t.value.Some? then [Pair([], t.value.value)] else [], KidsListing(t.kids));
    assert front + [] == front;
  }

  // ----- what the listing is -----------------------------------------------------------------------

  /** The order of byte strings. */
  predicate Less(a: Key, b: Key)
  {
    if b == [] then false
    else if a == [] then true
    else a[0] < b[0] || (a[0] == b[0] && Less(a[1..], b[1..]))
  }

  ghost predicate Sorted(list: seq<Pair>)
  {
    forall i, j :: 0 <= i < j < |list| ==> Less(list[i].key, list[j].key)
  }

  lemma {:induction false} LessBehind(front: Key, a: Key, b: Key)
    ensures Less(front + a, front + b) == Less(a, b)
  {
    if front == [] {
      assert front + a == a && front + b == b;
    } else {
      LessBehind(front[1..], a, b);
      assert (front + a)[1..] == front[1..] + a && (front + b)[1..] == front[1..] + b;
    }
  }

  lemma SortedBehind(front: Key, list: seq<Pair>)
    requires Sorted(list)
    ensures Sorted(Behind(front, list))
  {
    forall i, j | 0 <= i < j < |list| ensures Less(Behind(front, list)[i].key, Behind(front, list)[j].key) {
      LessBehind(front, list[i].key, list[j].key);
    }
  }

  /** Every key of an edge starts with its first byte. */
  lemma EdgeStarts(t: Trie, i: nat)
    requires t.prefix != [] && i < |EdgeListing(t)|
    ensures EdgeListing(t)[i].key != [] && EdgeListing(t)[i].key[0] == FirstByte(t)
  {
  }

  /** The listing is in strictly ascending order of keys. */
  lemma {:induction false} ListingSorted(t: Trie)
    requires WellFormed(t)
    ensures Sorted(Listing(t))
    decreases t, 1
  {
    KidsSorted(t, |t.kids|);
    assert t.kids[..|t.kids|] == t.kids;
    hide WellFormed;
  }

  lemma {:induction false} KidsSorted(t: Trie, n: nat)
    requires WellFormed(t) && n <= |t.kids|
    ensures Sorted(KidsListing(t.kids[..n]))
    ensures forall i :: 0 <= i < |KidsListing(t.kids[..n])| ==>
      KidsListing(t.kids[..n])[i].key != [] && exists m ::
        0 <= m < n && FirstByte(t.kids[m]) == KidsListing(t.kids[..n])[i].key[0]
    decreases t, 0, n
  {
    if n > 0 {
      hide WellFormed, EdgeListing, Less, KidsListing, Sorted;
      KidsSorted(t, n - 1);
      KidsTake(t.kids, n - 1);
      KidsFacts(t, n - 1);
      var kid, front := t.kids[n - 1], KidsListing(t.kids[..n - 1]);
      ListingSorted(kid);
      EdgeSorted(kid);
      SortedConcat(front, EdgeListing(kid));
    } else {
      NoKidsSorted(t);
    }
  }

  lemma NoKidsSorted(t: Trie)
    ensures KidsListing(t.kids[..0]) == [] && Sorted([])
  {
  }

  lemma KidsFacts(t: Trie, n: nat)
    requires WellFormed(t) && n < |t.kids|
    ensures Ascending(t.kids) && WellFormed(t.kids[n]) && t.kids[n].prefix != []
    ensures forall m :: 0 <= m < n ==> FirstByte(t.kids[m]) < FirstByte(t.kids[n])
  {
  }

  /** What is behind an edge is sorted, and starts with the edge's first byte. */
  lemma EdgeSorted(kid: Trie)
    requires Sorted(Listing(kid)) && kid.prefix != []
    ensures Sorted(EdgeListing(kid))
    ensures forall i :: 0 <= i < |EdgeListing(kid)| ==>
            EdgeListing(kid)[i].key != [] && EdgeListing(kid)[i].key[0] == FirstByte(kid)
  {
    SortedBehind(kid.prefix, Listing(kid));
    forall i | 0 <= i < |EdgeListing(kid)|
      ensures EdgeListing(kid)[i].key != [] && EdgeListing(kid)[i].key[0] == FirstByte(kid)
    {
      EdgeStarts(kid, i);
    }
  }

  lemma SortedConcat(a: seq<Pair>, b: seq<Pair>)
    requires Sorted(a) && Sorted(b)
    ensures (forall i, j :: 0 <= i < |a| && 0 <= j < |b| ==>
            a[i].key != [] && b[j].key != [] && a[i].key[0] < b[j].key[0]) ==> Sorted(a + b)
  {
  }

  /** The listing holds exactly what looking up finds. */
  lemma {:induction false} ListingIsLookup(t: Trie, k: Key, v: I64)
    requires WellFormed(t)
    ensures Pair(k, v) in Listing(t) <==> Lookup(t, k) == Some(v)
    decreases t, 1
  {
    KidsListed(t, k, v, |t.kids|);
    assert t.kids[..|t.kids|] == t.kids;
    if k == [] {
      assert Pair(k, v) !in KidsListing(t.kids);
    } else {
      LookupBelow(t, k);
      var p := Place(t.kids, k[0]);
      hide WellFormed, Lookup, LookupEdge;
    }
  }

  lemma {:induction false} KidsListed(t: Trie, k: Key, v: I64, n: nat)
    requires WellFormed(t) && n <= |t.kids|
    ensures k == [] ==> Pair(k, v) !in KidsListing(t.kids[..n])
    ensures k != [] ==>
      (Pair(k, v) in KidsListing(t.kids[..n]) <==>
        HasKid(t.kids, k[0]) && Place(t.kids, k[0]) < n && LookupEdge(t.kids[Place(t.kids, k[0])], k) == Some(v))
    decreases t, 0, n
  {
    if n > 0 {
      KidsListed(t, k, v, n - 1);
      KidsTake(t.kids, n - 1);
      var kid := t.kids[n - 1];
      EdgeIsLookup(kid, k, v);
      if k != [] {
        PlaceOfKid(t.kids, n - 1, k[0]);
      }
      hide WellFormed, EdgeListing, KidsListing, LookupEdge, Place;
    }
  }

  lemma PlaceOfKid(kids: seq<Trie>, p: nat, b: int)
    requires Ascending(kids) && p < |kids|
    ensures FirstByte(kids[p]) == b <==> HasKid(kids, b) && Place(kids, b) == p
  {
    if FirstByte(kids[p]) == b {
      PlaceUnique(kids, b, p);
    }
  }

  lemma {:induction false} EdgeIsLookup(kid: Trie, k: Key, v: I64)
    requires WellFormed(kid) && kid.prefix != []
    ensures Pair(k, v) in EdgeListing(kid) <==> LookupEdge(kid, k) == Some(v)
    ensures k == [] || k[0] != FirstByte(kid) ==> Pair(k, v) !in EdgeListing(kid)
    decreases kid, 2
  {
    var list, edge := Listing(kid), EdgeListing(kid);
    if kid.prefix <= k {
      var rest := k[|kid.prefix|..];
      assert k == kid.prefix + rest;
      ListingIsLookup(kid, rest, v);
      if Pair(rest, v) in list {
        var i :| 0 <= i < |list| && list[i] == Pair(rest, v);
        assert edge[i] == Pair(k, v);
      }
      if Pair(k, v) in edge {
        var i :| 0 <= i < |edge| && edge[i] == Pair(k, v);
        assert kid.prefix + list[i].key == k;
        assert list[i].key == (kid.prefix + list[i].key)[|kid.prefix|..];
        assert list[i] == Pair(rest, v);
      }
    } else {
      forall i | 0 <= i < |edge| ensures edge[i].key != k {
        assert kid.prefix <= kid.prefix + list[i].key;
      }
    }
  }

  lemma {:induction false} ListingCount(t: Trie)
    ensures |Listing(t)| == Count(t)
    decreases t, 1
  {
    KidsCount(t.kids);
  }

  lemma {:induction false} KidsCount(kids: seq<Trie>)
    ensures |KidsListing(kids)| == CountAll(kids)
    decreases kids, 0
  {
    if kids != [] {
      KidsCount(kids[..|kids| - 1]);
      ListingCount(kids[|kids| - 1]);
    }
  }

  // ----- prefix queries ----------------------------------------------------------------------------

  /** The pairs whose key starts with `p`, in order. */
  ghost function Starting(list: seq<Pair>, p: Key): seq<Pair>
  {
    if list == [] then []
    else
      var front, last := Starting(list[..|list| - 1], p), list[|list| - 1];
      if p <= last.key then front + [last] else front
  }

  lemma {:induction false} StartingConcat(a: seq<Pair>, b: seq<Pair>, p: Key)
    ensures Starting(a + b, p) == Starting(a, p) + Starting(b, p)
  {
    if b == [] {
      assert a + b == a;
    } else {
      var n := |b| - 1;
      StartingConcat(a, b[..n], p);
      StartingLast(a + b, p);
      StartingLast(b, p);
      hide Starting;
      assert (a + b)[..|a| + n] == a + b[..n];
    }
  }

  lemma StartingLast(list: seq<Pair>, p: Key)
    requires list != []
    ensures var front, last := Starting(list[..|list| - 1], p), list[|list| - 1];
            Starting(list, p) == front + if p <= last.key then [last] else []
  {
  }

  lemma {:induction false} StartingAll(list: seq<Pair>, p: Key)
    requires forall i :: 0 <= i < |list| ==> p <= list[i].key
    ensures Starting(list, p) == list
  {
    if list != [] {
      StartingAll(list[..|list| - 1], p);
    }
  }

  lemma {:induction false} StartingNone(list: seq<Pair>, p: Key)
    requires forall i :: 0 <= i < |list| ==> !(p <= list[i].key)
    ensures Starting(list, p) == []
  {
    if list != [] {
      StartingNone(list[..|list| - 1], p);
    }
  }

  lemma {:induction false} StartingBehind(front: Key, list: seq<Pair>, p: Key)
    ensures Starting(Behind(front, list), front + p) == Behind(front, Starting(list, p))
  {
    if list != [] {
      var n := |list| - 1;
      StartingBehind(front, list[..n], p);
      assert Behind(front, list)[..n] == Behind(front, list[..n]);
      SharedStart(front, p, list[n].key);
      BehindConcat(front, Starting(list[..n], p), [list[n]]);
    }
  }

  /** Only one child can hold keys that start with a non-empty `p`. */
  lemma StartingBelow(t: Trie, p: Key)
    requires WellFormed(t) && p != []
    ensures Starting(Listing(t), p) ==
      var kid := KidAt(t.kids, p[0]); if kid.None? then [] else Starting(EdgeListing(kid.value), p)
  {
    hide WellFormed, EdgeListing, KidsListing, Starting, Place;
    var own := if t.value.Some? then [Pair([], t.value.value)] else [];
    StartingConcat(own, KidsListing(t.kids), p);
    StartingNone(own, p);
    StartingKids(t, p, |t.kids|);
    assert t.kids[..|t.kids|] == t.kids;
  }

  lemma {:induction false} StartingKids(t: Trie, p: Key, n: nat)
    requires WellFormed(t) && p != [] && n <= |t.kids|
    ensures Starting(KidsListing(t.kids[..n]), p) ==
      if HasKid(t.kids, p[0]) && Place(t.kids, p[0]) < n then Starting(EdgeListing(t.kids[Place(t.kids, p[0])]),
        p) else []
  {
    hide WellFormed, EdgeListing, KidsListing, Place, Starting;
    if n > 0 {
      StartingKids(t, p, n - 1);
      KidsTake(t.kids, n - 1);
      KidsFacts(t, n - 1);
      var kid := t.kids[n - 1];
      StartingConcat(KidsListing(t.kids[..n - 1]), EdgeListing(kid), p);
      PlaceOfKid(t.kids, n - 1, p[0]);
      if FirstByte(kid) != p[0] {
        forall i | 0 <= i < |EdgeListing(kid)| ensures !(p <= EdgeListing(kid)[i].key) {
          EdgeStarts(kid, i);
        }
        StartingNone(EdgeListing(kid), p);
      }
    } else {
      NothingStarts(t, p);
    }
  }

  lemma NothingStarts(t: Trie, p: Key)
    ensures Starting(KidsListing(t.kids[..0]), p) == []
  {
  }

  /** Inside, across or off an edge. */
  lemma StartingEdge(kid: Trie, p: Key)
    ensures p <= kid.prefix ==> Starting(EdgeListing(kid), p) == EdgeListing(kid)
    ensures kid.prefix <= p ==>
            Starting(EdgeListing(kid), p) == Behind(kid.prefix, Starting(Listing(kid), p[|kid.prefix|..]))
    ensures !(p <= kid.prefix) && !(kid.prefix <= p) ==> Starting(EdgeListing(kid), p) == []
  {
    var list := Listing(kid);
    if p <= kid.prefix {
      forall i | 0 <= i < |list| ensures p <= EdgeListing(kid)[i].key {
        assert (kid.prefix + list[i].key)[..|p|] == kid.prefix[..|p|];
      }
      StartingAll(EdgeListing(kid), p);
    }
    if kid.prefix <= p {
      assert p == kid.prefix + p[|kid.prefix|..];
      StartingBehind(kid.prefix, list, p[|kid.prefix|..]);
    }
    if !(p <= kid.prefix) && !(kid.prefix <= p) {
      forall i | 0 <= i < |list| ensures !(p <= EdgeListing(kid)[i].key) {
        Incomparable(p, kid.prefix, list[i].key);
      }
      StartingNone(EdgeListing(kid), p);
    }
  }

  lemma Incomparable(p: Key, prefix: Key, rest: Key)
    ensures p <= prefix + rest ==> p <= prefix || prefix <= p
  {
    if p <= prefix + rest {
      if |p| <= |prefix| {
        assert (prefix + rest)[..|p|] == prefix[..|p|];
      } else {
        assert (prefix + rest)[..|p|][..|prefix|] == prefix;
      }
    }
  }

  // ----- the tree -----------------------------------------------------------------------------------

  class RadixTree {
    var root: Trie
    var len: nat

    ghost predicate Valid()
      reads this
    {
      WellFormed(root) && len == |Listing(root)|
    }

    /** The keys with their values, in strictly ascending order. */
    ghost function Entries(): seq<Pair>
      reads this
    {
      Listing(root)
    }

    /** Lines 47-52. */
    constructor ()
      ensures Valid() && Entries() == []
    {
      root := Trie([], None, []);
      len := 0;
    }

    /** Lines 65-71. */
    method Insert(key: Key, value: I64) returns (previous: Option<I64>)
      requires Valid()
      modifies this
      ensures Valid() && Sorted(Entries())
      ensures forall k: Key, v: I64 :: Pair(k, v) in Entries() <==>
              if k == key then v == value else Pair(k, v) in old(Entries())
      ensures previous.Some? ==> Pair(key, previous.value) in old(Entries())
      ensures previous.None? ==> forall v: I64 :: Pair(key, v) !in old(Entries())
    {
      hide WellFormed, Listing, Less;
      ghost var before := root;
      var next, previous', added := InsertInto(root, key, value);
      ListingCount(before);
      ListingCount(next);
      ListingSorted(next);
      forall k: Key, v: I64
        ensures Pair(k, v) in Listing(next) <==> if k == key then v == value else Pair(k, v) in Listing(before)
      {
        ListingIsLookup(before, k, v);
        ListingIsLookup(next, k, v);
      }
      forall v: I64 ensures Pair(key, v) in Listing(before) <==> previous' == Some(v) {
        ListingIsLookup(before, key, v);
      }
      root := next;
      if added {
        len := len + 1;
      }
      previous := previous';
    }

    /** Lines 116-131. */
    method Get(key: Key) returns (r: Option<I64>)
      requires Valid()
      ensures forall v: I64 :: Pair(key, v) in Entries() <==> r == Some(v)
    {
      hide WellFormed, Listing, Lookup, LookupEdge, Place;
      forall v: I64 ensures Pair(key, v) in Entries() <==> Lookup(root, key) == Some(v) {
        ListingIsLookup(root, key, v);
      }
      var node, rest := root, key;
      while rest != []
        invariant WellFormed(node) && Lookup(node, rest) == Lookup(root, key)
        decreases |rest|
      {
        LookupBelow(node, rest);
        if !HasKid(node.kids, rest[0]) {
          return None;
        }
        var child := node.kids[Place(node.kids, rest[0])];
        KidFacts(node, Place(node.kids, rest[0]));
        var cp := CommonPrefix(child.prefix, rest);
        EdgeCases(child.prefix, rest, cp);
        LookupAcross(child, rest);
        if cp != |child.prefix| {
          return None;
        }
        rest := rest[cp..];
        node := child;
      }
      AtNodeValue(node);
      r := node.value;
    }

    /** Lines 144-149, `entries`. */
    method ListAll() returns (out: seq<Pair>)
      ensures out == Entries()
    {
      out := CollectBelow(root, [], []);
      BehindNothing(Listing(root));
    }

    /** Lines 164-203: exactly the entries whose key starts with the prefix, in order. */
    method WithPrefix(prefix: Key) returns (out: seq<Pair>)
      requires Valid()
      ensures out == Starting(Entries(), prefix)
    {
      hide WellFormed, Listing, EdgeListing, Starting, Place, Behind;
      var node, consumed: Key, rest := root, [], prefix;
      BehindNothing(Starting(Listing(root), prefix));
      while rest != []
        invariant WellFormed(node) && Starting(Entries(), prefix) == Behind(consumed, Starting(Listing(node), rest))
        decreases |rest|
      {
        StartingBelow(node, rest);
        BehindConcat(consumed, [], []);
        if !HasKid(node.kids, rest[0]) {
          return [];
        }
        var child := node.kids[Place(node.kids, rest[0])];
        KidFacts(node, Place(node.kids, rest[0]));
        var cp := CommonPrefix(child.prefix, rest);
        EdgeCases(child.prefix, rest, cp);
        StartingEdge(child, rest);
        if cp == |rest| {
          out := Collect(child, consumed, []);
          return;
        }
        if cp != |child.prefix| {
          return [];
        }
        BehindTwice(consumed, child.prefix, Starting(Listing(child), rest[cp..]));
        consumed := consumed + child.prefix;
        rest := rest[cp..];
        node := child;
      }
      EverythingStarts(Listing(node));
      out := CollectBelow(node, consumed, []);
    }
  }

  lemma EverythingStarts(list: seq<Pair>)
    ensures Starting(list, []) == list
  {
    StartingAll(list, []);
  }

  lemma LookupAcross(t: Trie, rest: Key)
    ensures LookupEdge(t, rest) == if t.prefix <= rest then Lookup(t, rest[|t.prefix|..]) else None
  {
  }

  lemma AtNodeValue(t: Trie)
    ensures Lookup(t, []) == t.value
  {
  }
}
