/** The bucketed hash index with overflow chains (src/hashindex.rs), for any hash function.
    It holds a bag of (key, row) pairs. */
module HashIndexes {
  import opened Integers
  import opened Options

  const BUCKET_CAPACITY: nat := 16

  datatype Entry = Entry(key: I64, row: nat)

  datatype Bucket = Bucket(entries: seq<Entry>, next: Option<nat>)

  type Overflow = map<nat, Bucket>
  type Bag = multiset<Entry>

  // ----- one chain ---------------------------------------------------------------------------

  function At(chain: seq<nat>, i: nat): Option<nat>
  {
    if i < |chain| then Some(chain[i]) else None
  }

  ghost predicate LinkOk(overflow: Overflow, chain: seq<nat>, i: nat)
  {
    && i < |chain| && chain[i] in overflow && overflow[chain[i]].next == At(chain, i + 1)
    && |overflow[chain[i]].entries| <= BUCKET_CAPACITY
  }

  /** From `head` the links run through the buckets of `chain`, each once. */
  ghost predicate ChainOk(overflow: Overflow, head: Option<nat>, chain: seq<nat>)
  {
    && head == At(chain, 0) && (forall i: nat :: i < |chain| ==> LinkOk(overflow, chain, i))
    && forall i, j :: 0 <= i < j < |chain| ==> chain[i] != chain[j]
  }

  /** What a chain holds, in walking order. */
  ghost function ChainEntries(overflow: Overflow, chain: seq<nat>): seq<Entry>
  {
    if chain == [] then []
    else (if chain[0] in overflow then overflow[chain[0]].entries else []) + ChainEntries(overflow, chain[1..])
  }

  lemma {:induction false} SameChain(before: Overflow, after: Overflow, head: Option<nat>, chain: seq<nat>)
    requires ChainOk(before, head, chain)
    requires forall x :: x in chain ==> x in before && x in after && after[x] == before[x]
    ensures ChainOk(after, head, chain) && ChainEntries(after, chain) == ChainEntries(before, chain)
  {
    forall i: nat | i < |chain| ensures LinkOk(after, chain, i) {
      assert LinkOk(before, chain, i) && chain[i] in chain;
    }
    SameEntries(before, after, chain);
  }

  lemma {:induction false} SameEntries(before: Overflow, after: Overflow, chain: seq<nat>)
    requires forall x :: x in chain ==> x in before && x in after && after[x] == before[x]
    ensures ChainEntries(after, chain) == ChainEntries(before, chain)
  {
    if chain != [] {
      SameEntries(before, after, chain[1..]);
    }
  }

  lemma TailOk(overflow: Overflow, head: Option<nat>, chain: seq<nat>)
    requires ChainOk(overflow, head, chain) && chain != []
    ensures chain[0] in overflow && head == Some(chain[0]) && ChainOk(overflow, overflow[chain[0]].next, chain[1..])
    ensures |overflow[chain[0]].entries| <= BUCKET_CAPACITY && chain[0] !in chain[1..]
    ensures ChainEntries(overflow, chain) == overflow[chain[0]].entries + ChainEntries(overflow, chain[1..])
  {
    assert LinkOk(overflow, chain, 0);
    forall i: nat | i < |chain| - 1 ensures LinkOk(overflow, chain[1..], i) {
      assert LinkOk(overflow, chain, i + 1);
    }
  }

  /** A bucket before a chain. */
  lemma Prepended(overflow: Overflow, x: nat, tail: seq<nat>)
    requires x in overflow && ChainOk(overflow, overflow[x].next, tail) && x !in tail
             && |overflow[x].entries| <= BUCKET_CAPACITY
    ensures ChainOk(overflow, Some(x), [x] + tail)
    ensures ChainEntries(overflow, [x] + tail) == overflow[x].entries + ChainEntries(overflow, tail)
  {
    var chain := [x] + tail;
    assert chain[1..] == tail;
    forall i: nat | i < |chain| ensures LinkOk(overflow, chain, i) {
      assert i > 0 ==> LinkOk(overflow, tail, i - 1);
    }
  }

  ghost predicate Below(overflow: Overflow, next: nat)
  {
    forall x :: x in overflow ==> x < next
  }

  // ----- all chains --------------------------------------------------------------------------

  ghost predicate Apart(chains: seq<seq<nat>>)
  {
    forall b, c, x :: 0 <= b < |chains| && 0 <= c < |chains| && b != c && x in chains[b] ==> x !in chains[c]
  }

  /** What a bucket and its chain hold. */
  ghost function BucketList(bucket: Bucket, overflow: Overflow, chain: seq<nat>): seq<Entry>
  {
    bucket.entries + ChainEntries(overflow, chain)
  }

  ghost function Lists(buckets: seq<Bucket>, overflow: Overflow, chains: seq<seq<nat>>): (r: seq<seq<Entry>>)
    requires |chains| == |buckets|
    ensures |r| == |buckets| && forall b :: 0 <= b < |r| ==> r[b] == BucketList(buckets[b], overflow, chains[b])
  {
    seq(|buckets|, b requires 0 <= b < |buckets| => BucketList(buckets[b], overflow, chains[b]))
  }

  ghost function BagOf(lists: seq<seq<Entry>>): Bag
  {
    if lists == [] then multiset{} else BagOf(lists[..|lists| - 1]) + multiset(lists[|lists| - 1])
  }

  lemma {:induction false} BagUpdate(lists: seq<seq<Entry>>, b: nat, list: seq<Entry>, e: Entry)
    requires b < |lists|
    ensures BagOf(lists)[e] >= multiset(lists[b])[e]
    ensures BagOf(lists[b := list])[e] + multiset(lists[b])[e] == BagOf(lists)[e] + multiset(list)[e]
  {
    var n := |lists| - 1;
    if b == n {
      assert lists[b := list][..n] == lists[..n];
    } else {
      BagUpdate(lists[..n], b, list, e);
      assert lists[b := list][..n] == lists[..n][b := list];
    }
  }

  /** Every pair is where its key hashes to. */
  ghost predicate Homed(lists: seq<seq<Entry>>, hash: I64 -> nat)
  {
    forall b, e :: 0 <= b < |lists| && e in lists[b] ==> Home(hash, e.key, |lists|) == b
  }

  /** Lines 85-93: where a key belongs among `n` buckets. */
  function Home(hash: I64 -> nat, key: I64, n: nat): (b: nat)
    ensures n > 0 ==> b < n
  {
    if n > 0 then hash(key) % n else 0
  }

  /** A key's pairs are all in its bucket. */
  lemma {:induction false} OnlyHome(lists: seq<seq<Entry>>, n: nat, b: nat, e: Entry)
    requires n <= |lists| && b < |lists| && forall c :: 0 <= c < |lists| && c != b ==> e !in lists[c]
    ensures BagOf(lists[..n])[e] == if b < n then multiset(lists[b])[e] else 0
  {
    if n > 0 {
      assert lists[..n][..n - 1] == lists[..n - 1];
      OnlyHome(lists, n - 1, b, e);
      if n - 1 != b {
        assert e !in lists[n - 1];
      }
    }
  }

  ghost predicate AllChains(buckets: seq<Bucket>, overflow: Overflow, chains: seq<seq<nat>>)
  {
    && |chains| == |buckets| && Apart(chains)
    && forall b :: 0 <= b < |buckets| ==>
      ChainOk(overflow, buckets[b].next, chains[b]) && |buckets[b].entries| <= BUCKET_CAPACITY
  }

  class HashIndex {
    const hash: I64 -> nat
    var buckets: seq<Bucket>
    var overflow: Overflow
    var nextOverflow: nat
    var len: nat

    ghost var chains: seq<seq<nat>>
    /** How many copies removals took beyond the one they counted, since the last rehash. */
    ghost var uncounted: nat

    /** The length is never short of what is held. */
    ghost predicate Valid()
      reads this
    {
      |chains| == |buckets| && Wired() && len == |Contents()| + uncounted
    }

    ghost predicate Wired()
      reads this
    {
      && |buckets| > 0 && AllChains(buckets, overflow, chains) && Below(overflow, nextOverflow)
      && Homed(Lists(buckets, overflow, chains), hash)
    }

    /** The pairs held. */
    ghost function Contents(): Bag
      requires |chains| == |buckets|
      reads this
    {
      BagOf(Lists(buckets, overflow, chains))
    }

    /** Lines 58-70. */
    constructor (bucketCount: nat, hash: I64 -> nat)
      ensures Valid() && Contents() == multiset{} && len == 0 && uncounted == 0 && this.hash == hash
      ensures |buckets| == if bucketCount > 4 then bucketCount else 4
    {
      var n := if bucketCount > 4 then bucketCount else 4;
      this.hash := hash;
      buckets, overflow, nextOverflow, len := seq(n, _ => Bucket([], None)), map[], 0, 0;
      chains, uncounted := seq(n, _ => []), 0;
      new;
      NothingHeld(Lists(buckets, overflow, chains));
    }

    /** Lines 96-100. */
    method Insert(key: I64, row: nat)
      requires Valid()
      modifies this
      ensures Valid() && Contents() == old(Contents()) + multiset{Entry(key, row)} && len == old(len) + 1
      ensures |buckets| == |old(buckets)| && uncounted == old(uncounted)
    {
      hide AllChains, Below, Homed, Lists, BagOf;
      InsertInto(Home(hash, key, |buckets|), key, row);
      len := len + 1;
    }

    /** Lines 102-121. */
    method InsertInto(b: nat, key: I64, row: nat)
      requires Wired() && b == Home(hash, key, |buckets|)
      modifies this`buckets, this`overflow, this`nextOverflow, this`chains
      ensures Wired() && |chains| == |buckets| == |old(buckets)|
              && Contents() == old(Contents()) + multiset{Entry(key, row)}
    {
      hide Home, ChainOk, ChainEntries, Homed, BagOf, Below, Apart;
      ghost var e := Entry(key, row);
      ghost var lists := Lists(buckets, overflow, chains);
      var bucket := buckets[b];
      if |bucket.entries| < BUCKET_CAPACITY {
        PrimaryGrown(buckets, overflow, chains, b, e, hash);
        buckets := buckets[b := bucket.(entries := bucket.entries + [Entry(key, row)])];
        return;
      }
      ghost var before := overflow;
      ghost var chain;
      var created;
      created, chain := InsertOverflow(bucket.next, key, row, chains[b]);
      ChainGrown(buckets, before, overflow, chains, b, chain, created, e, old(nextOverflow), hash);
      if bucket.next.None? && created.Some? {
        buckets := buckets[b := bucket.(next := created)];
      }
      chains := chains[b := chain];
    }

    /** Lines 126-158: the first bucket of the chain with room gets the pair, or a new one
        at its end. */
    method InsertOverflow(head: Option<nat>, key: I64, row: nat, ghost chain: seq<nat>)
      returns (created: Option<nat>, ghost chain': seq<nat>)
      requires ChainOk(overflow, head, chain) && Below(overflow, nextOverflow)
      modifies this`overflow, this`nextOverflow
      ensures Below(overflow, nextOverflow)
      ensures ChainPut(old(overflow), overflow, old(nextOverflow), head, chain, created, chain', Entry(key, row))
      decreases |chain|
    {
      hide ChainOk, ChainEntries, Below;
      if head.None? {
        var id := nextOverflow;
        nextOverflow := nextOverflow + 1;
        NewBucket(overflow, id, chain, Entry(key, row));
        overflow := overflow[id := Bucket([Entry(key, row)], None)];
        return Some(id), [id];
      }
      HeadOf(overflow, head, chain);
      TailOk(overflow, head, chain);
      var x := head.value;
      var bucket := overflow[x];
      if |bucket.entries| < BUCKET_CAPACITY {
        RoomThere(overflow, nextOverflow, chain, Entry(key, row));
        overflow := overflow[x := bucket.(entries := bucket.entries + [Entry(key, row)])];
        return None, chain;
      }
      ghost var before := overflow;
      var next := bucket.next;
      ghost var tail;
      var newId;
      newId, tail := InsertOverflow(next, key, row, chain[1..]);
      Relinked(before, overflow, old(nextOverflow), nextOverflow, chain, newId, tail, Entry(key, row));
      if next.None? && newId.Some? {
        overflow := overflow[x := overflow[x].(next := newId)];
      }
      return None, [x] + tail;
    }

    /** Lines 161-180. */
    method Lookup(key: I64) returns (rows: seq<nat>)
      requires Valid()
      ensures forall r: nat :: multiset(rows)[r] == Contents()[Entry(key, r)]
    {
      hide Home, ChainOk, ChainEntries, Homed, BagOf;
      var b := Home(hash, key, |buckets|);
      ghost var lists := Lists(buckets, overflow, chains);
      rows := RowsOf(buckets[b].entries, key, []);
      var cur := buckets[b].next;
      ghost var seen, rest := buckets[b].entries, chains[b];
      assert seen + ChainEntries(overflow, rest) == lists[b];
      while cur.Some?
        invariant ChainOk(overflow, cur, rest) && seen + ChainEntries(overflow, rest) == lists[b]
        invariant rows == RowsWith(seen, key)
        decreases |rest|
      {
        HeadOf(overflow, cur, rest);
        TailOk(overflow, cur, rest);
        var bucket := overflow[cur.value];
        rows := RowsOf(bucket.entries, key, rows);
        RowsConcat(seen, bucket.entries, key);
        assert (seen + bucket.entries) + ChainEntries(overflow, rest[1..])
          == seen + (bucket.entries + ChainEntries(overflow, rest[1..]));
        seen, rest := seen + bucket.entries, rest[1..];
        cur := bucket.next;
      }
      ChainDone(overflow, rest);
      assert seen + [] == seen;
      forall r: nat ensures multiset(rows)[r] == Contents()[Entry(key, r)] {
        RowsCount(seen, key, r);
        AtHome(lists, hash, b, Entry(key, r));
      }
    }

    /** Lines 183-204: every copy of the pair goes, but the length falls by one only. */
    method Remove(key: I64, row: nat) returns (removed: bool)
      requires Valid()
      modifies this`buckets, this`overflow, this`len, this`uncounted
      ensures Valid() && |buckets| == |old(buckets)|
      ensures removed <==> Entry(key, row) in old(Contents())
      ensures forall e: Entry :: Contents()[e] == if e == Entry(key, row) then 0 else old(Contents())[e]
      ensures len == if removed then old(len) - 1 else old(len)
      ensures uncounted == old(uncounted) + if removed then old(Contents())[Entry(key, row)] - 1 else 0
    {
      hide AllChains, Below, Homed, Lists, BagOf;
      ghost var e, held := Entry(key, row), Contents();
      removed := Purge(key, row);
      RemovedSize(held, Contents(), e);
      if removed {
        len := len - 1;
        uncounted := uncounted + held[e] - 1;
      }
    }

    /** Lines 184-200. */
    method Purge(key: I64, row: nat) returns (removed: bool)
      requires Wired() && |chains| == |buckets|
      modifies this`buckets, this`overflow
      ensures Wired() && |buckets| == |old(buckets)|
      ensures removed <==> Entry(key, row) in old(Contents())
      ensures forall e: Entry :: Contents()[e] == if e == Entry(key, row) then 0 else old(Contents())[e]
    {
      hide Home, ChainOk, ChainEntries, Homed, BagOf, Below, AllChains, Purged, Without;
      ChainCount(buckets, overflow, chains);
      var b := Home(hash, key, |buckets|);
      var e := Entry(key, row);
      ghost var before, chain := overflow, chains[b];
      var bucket := buckets[b];
      ChainAt(buckets, overflow, chains, b);
      var left := Without(bucket.entries, e);
      WithoutCount(bucket.entries, e, e);
      removed := |left| < |bucket.entries|;
      buckets := buckets[b := bucket.(entries := left)];
      var cur := bucket.next;
      ghost var done: nat := 0;
      StartPurge(overflow, bucket.next, chain, e);
      while cur.Some?
        invariant buckets == old(buckets)[b := bucket.(entries := left)]
        invariant done <= |chain| && cur == At(chain, done) && Purged(before, overflow, bucket.next, chain, done, e)
        invariant removed <==> e in bucket.entries || e in ChainEntries(before, chain[..done])
        decreases |chain| - done
      {
        var x := cur.value;
        PurgeStep(before, overflow, bucket.next, chain, done, e);
        var ob := overflow[x];
        var fewer := Without(ob.entries, e);
        removed := removed || |fewer| < |ob.entries|;
        overflow := overflow[x := ob.(entries := fewer)];
        cur := ob.next;
        done := done + 1;
      }
      assert chain[..done] == chain;
      PurgedAll(old(buckets), buckets, before, overflow, chains, b, e, hash, nextOverflow);
    }

    /** Lines 207-219. */
    method Iter() returns (out: seq<Entry>)
      requires Valid()
      ensures multiset(out) == Contents()
    {
      hide Home, ChainOk, ChainEntries, Homed, BagOf;
      ghost var lists := Lists(buckets, overflow, chains);
      out := [];
      BagNone(lists);
      for b := 0 to |buckets|
        invariant multiset(out) == BagOf(lists[..b])
      {
        ghost var start := out;
        out := out + buckets[b].entries;
        var cur := buckets[b].next;
        ghost var rest := chains[b];
        while cur.Some?
          invariant ChainOk(overflow, cur, rest) && out + ChainEntries(overflow, rest) == start + lists[b]
          decreases |rest|
        {
          HeadOf(overflow, cur, rest);
          TailOk(overflow, cur, rest);
          var bucket := overflow[cur.value];
          assert (out + bucket.entries) + ChainEntries(overflow, rest[1..])
            == out + (bucket.entries + ChainEntries(overflow, rest[1..]));
          out := out + bucket.entries;
          cur := bucket.next;
          rest := rest[1..];
        }
        ChainDone(overflow, rest);
        assert out + [] == out;
        BagTake(lists, b);
      }
      assert lists[..|buckets|] == lists;
    }

    /** The length is right exactly when no removal since the last rehash met more than one
        copy of its pair. */
    lemma LengthRight()
      requires Valid()
      ensures len == |Contents()| <==> uncounted == 0
    {
    }

    /** Lines 222-228: the same pairs in another number of buckets, and the length right. */
    method Rehash(newCount: nat)
      requires Valid()
      modifies this
      ensures Valid() && Contents() == old(Contents()) && len == |Contents()| && uncounted == 0
      ensures |buckets| == if newCount > 4 then newCount else 4
    {
      hide AllChains, Below, Homed, BagOf, Lists, Home;
      var entries := Iter();
      var n := if newCount > 4 then newCount else 4;
      Clear(n);
      assert entries[..0] == [];
      for i := 0 to |entries|
        invariant Valid() && |chains| == |buckets| && Contents() == multiset(entries[..i]) && len == i && uncounted == 0
        invariant |buckets| == n
      {
        assert entries[..i + 1] == entries[..i] + [entries[i]];
        Insert(entries[i].key, entries[i].row);
        }
      assert entries[..|entries|] == entries;
    }

    /** The empty index again. */
    method Clear(n: nat)
      requires n > 0
      modifies this
      ensures Valid() && |chains| == |buckets| == n && Contents() == multiset{} && len == 0 && uncounted == 0
    {
      buckets, overflow, nextOverflow, len := seq(n, _ => Bucket([], None)), map[], 0, 0;
      chains, uncounted := seq(n, _ => []), 0;
      NothingHeld(Lists(buckets, overflow, chains));
    }
  }

  // ----- empty indexes and sums ------------------------------------------------------------

  lemma {:induction false} NothingHeld(lists: seq<seq<Entry>>)
    requires forall b :: 0 <= b < |lists| ==> lists[b] == []
    ensures BagOf(lists) == multiset{}
  {
    if lists != [] {
      NothingHeld(lists[..|lists| - 1]);
    }
  }

  lemma BagNone(lists: seq<seq<Entry>>)
    ensures BagOf(lists[..0]) == multiset{}
  {
  }

  lemma BagTake(lists: seq<seq<Entry>>, b: nat)
    requires b < |lists|
    ensures BagOf(lists[..b + 1]) == BagOf(lists[..b]) + multiset(lists[b])
  {
    assert lists[..b + 1][..b] == lists[..b];
  }

  /** How often a pair is held is how often it is in its bucket. */
  lemma AtHome(lists: seq<seq<Entry>>, hash: I64 -> nat, b: nat, e: Entry)
    requires |lists| > 0 && Homed(lists, hash) && b == Home(hash, e.key, |lists|)
    ensures BagOf(lists)[e] == multiset(lists[b])[e]
  {
    hide Home;
    assert lists[..|lists|] == lists;
    OnlyHome(lists, |lists|, b, e);
  }

  lemma ChainAt(buckets: seq<Bucket>, overflow: Overflow, chains: seq<seq<nat>>, b: nat)
    requires AllChains(buckets, overflow, chains) && b < |buckets|
    ensures |chains| == |buckets| && ChainOk(overflow, buckets[b].next, chains[b])
  {
  }

  lemma ChainCount(buckets: seq<Bucket>, overflow: Overflow, chains: seq<seq<nat>>)
    requires AllChains(buckets, overflow, chains)
    ensures |chains| == |buckets|
  {
  }

  lemma HeadOf(overflow: Overflow, head: Option<nat>, chain: seq<nat>)
    requires ChainOk(overflow, head, chain)
    ensures head.Some? <==> chain != []
    ensures head.Some? ==> head.value == chain[0] && head.value in overflow
  {
    assert chain != [] ==> LinkOk(overflow, chain, 0);
  }

  lemma ChainDone(overflow: Overflow, chain: seq<nat>)
    requires ChainOk(overflow, None, chain)
    ensures chain == [] && ChainEntries(overflow, chain) == []
  {
  }

  // ----- inserting -----------------------------------------------------------------------------

  /** The chain holds one pair more; at most one new bucket is at its end, and the buckets
      of other chains are as they were. */
  ghost predicate ChainPut(before: Overflow, after: Overflow, unused: nat, head: Option<nat>, chain: seq<nat>,
          created: Option<nat>, chain': seq<nat>, e: Entry)
  {
    && (if head.None? then created == Some(unused) && chain' == [unused]
        else created == None && (chain' == chain || chain' == chain + [unused]))
    && ChainOk(after, if head.None? then created else head, chain')
    && multiset(ChainEntries(after, chain')) == multiset(ChainEntries(before, chain)) + multiset{e}
    && (forall x :: x in before && x !in chain ==> x in after && after[x] == before[x])
    && (forall x :: x in after ==> x in before || x == unused)
  }

  lemma NewBucket(overflow: Overflow, id: nat, chain: seq<nat>, e: Entry)
    requires ChainOk(overflow, None, chain) && Below(overflow, id)
    ensures var after := overflow[id := Bucket([e], None)];
            ChainPut(overflow, after, id, None, chain, Some(id), [id], e) && Below(after, id + 1)
  {
    var after := overflow[id := Bucket([e], None)];
    assert ChainOk(after, None, []);
    Prepended(after, id, []);
    assert [id] + [] == [id] && [e] + [] == [e];
    ChainDone(overflow, chain);
  }

  lemma RoomThere(overflow: Overflow, unused: nat, chain: seq<nat>, e: Entry)
    requires chain != [] && ChainOk(overflow, Some(chain[0]), chain) && chain[0] in overflow
             && |overflow[chain[0]].entries| < BUCKET_CAPACITY
    requires Below(overflow, unused)
    ensures var x := chain[0];
            var after := overflow[x := overflow[x].(entries := overflow[x].entries + [e])];
            ChainPut(overflow, after, unused, Some(x), chain, None, chain, e) && Below(after, unused)
  {
    var x, tail := chain[0], chain[1..];
    var after := overflow[x := overflow[x].(entries := overflow[x].entries + [e])];
    TailOk(overflow, Some(x), chain);
    ChainIn(overflow, overflow[x].next, tail);
    SameChain(overflow, after, overflow[x].next, tail);
    Prepended(after, x, tail);
    assert chain == [x] + tail;
    assert multiset(overflow[x].entries + [e]) == multiset(overflow[x].entries) + multiset{e};
    hide ChainEntries, ChainOk;
    JoinedBags(overflow[x].entries, [e], ChainEntries(overflow, tail));
  }

  lemma JoinedBags(a: seq<Entry>, b: seq<Entry>, c: seq<Entry>)
    ensures multiset((a + b) + c) == multiset(a + c) + multiset(b)
    ensures multiset(a + c) == multiset(a) + multiset(c)
  {
    assert multiset((a + b) + c) == multiset(a) + multiset(b) + multiset(c);
  }

  /** The pair went further down the chain, and the link to a new bucket is set. */
  lemma Relinked(before: Overflow, between: Overflow, unused: nat, next: nat, chain: seq<nat>, newId: Option<nat>,
          tail: seq<nat>, e: Entry)
    requires chain != [] && ChainOk(before, Some(chain[0]), chain) && chain[0] in before && Below(before, unused)
             && Below(between, next)
    requires ChainPut(before, between, unused, before[chain[0]].next, chain[1..], newId, tail, e)
    ensures chain[0] in between
    ensures var x := chain[0];
            var after := if before[x].next.None?
              && newId.Some? then between[x := between[x].(next := newId)] else between;
            ChainPut(before, after, unused, Some(x), chain, None, [x] + tail, e) && Below(after, next)
  {
    hide ChainEntries, ChainOk;
    var x, rest := chain[0], chain[1..];
    TailOk(before, Some(x), chain);
    assert x != unused && between[x] == before[x];
    HeadOf(before, before[x].next, rest);
    var tailHead := if before[x].next.None? then newId else before[x].next;
    var after := if before[x].next.None? && newId.Some? then between[x := between[x].(next := newId)] else between;
    TailChanged(before, between, after, unused, x, rest, newId, tail, tailHead, e);
    LastLinked(before[x].next, chain, x, rest, tail, unused);
    hide Below;
    Prepended(after, x, tail);
    PutInFront(before, after, unused, x, rest, tail, e);
    assert chain == [x] + rest;
  }

  lemma LastLinked(next: Option<nat>, chain: seq<nat>, x: nat, rest: seq<nat>, tail: seq<nat>, unused: nat)
    requires chain == [x] + rest && (next.None? <==> rest == [])
    requires if next.None? then tail == [unused] else tail == rest || tail == rest + [unused]
    ensures [x] + tail == chain || [x] + tail == chain + [unused]
  {
  }

  lemma TailChanged(before: Overflow, between: Overflow, after: Overflow, unused: nat, x: nat, rest: seq<nat>,
          newId: Option<nat>, tail: seq<nat>, tailHead: Option<nat>, e: Entry)
    requires x in before && x in between && between[x] == before[x] && x !in rest && x != unused
    requires ChainPut(before, between, unused, before[x].next, rest, newId, tail, e)
             && ChainOk(before, before[x].next, rest)
    requires tailHead == (if before[x].next.None? then newId else before[x].next)
    requires after == if before[x].next.None? && newId.Some? then between[x := between[x].(next := newId)] else between
    ensures x !in tail && ChainOk(after, tailHead, tail) && ChainEntries(after, tail) == ChainEntries(between, tail)
    ensures after[x].next == tailHead && after[x].entries == before[x].entries
  {
    ChainIn(between, tailHead, tail);
    hide ChainEntries, ChainOk;
    SameChain(between, after, tailHead, tail);
  }

  lemma PutInFront(before: Overflow, after: Overflow, unused: nat, x: nat, rest: seq<nat>, tail: seq<nat>, e: Entry)
    requires x in before && x in after && after[x].entries == before[x].entries
    requires multiset(ChainEntries(after, tail)) == multiset(ChainEntries(before, rest)) + multiset{e}
    requires ChainEntries(after, [x] + tail) == after[x].entries + ChainEntries(after, tail)
    ensures ChainEntries(before, [x] + rest) == before[x].entries + ChainEntries(before, rest)
    ensures multiset(ChainEntries(after, [x] + tail)) == multiset(ChainEntries(before, [x] + rest)) + multiset{e}
  {
    assert ([x] + rest)[1..] == rest;
    var a, b, c := before[x].entries, ChainEntries(before, rest), ChainEntries(after, tail);
    hide ChainEntries;
    JoinedBags(a, [], c);
    JoinedBags(a, [], b);
  }

  lemma ChainIn(overflow: Overflow, head: Option<nat>, chain: seq<nat>)
    requires ChainOk(overflow, head, chain)
    ensures forall x :: x in chain ==> x in overflow
  {
    forall x | x in chain ensures x in overflow {
      var i: nat :| i < |chain| && chain[i] == x;
      assert LinkOk(overflow, chain, i);
    }
  }

  lemma PrimaryGrown(buckets: seq<Bucket>, overflow: Overflow, chains: seq<seq<nat>>, b: nat, e: Entry,
          hash: I64 -> nat)
    requires AllChains(buckets, overflow, chains) && b < |buckets| && |buckets[b].entries| < BUCKET_CAPACITY
    requires Homed(Lists(buckets, overflow, chains), hash) && Home(hash, e.key, |buckets|) == b
    ensures var buckets' := buckets[b := buckets[b].(entries := buckets[b].entries + [e])];
            AllChains(buckets', overflow, chains) && Homed(Lists(buckets', overflow, chains), hash)
            && BagOf(Lists(buckets', overflow, chains)) == BagOf(Lists(buckets, overflow, chains)) + multiset{e}
  {
    hide Home, ChainOk, ChainEntries, Homed, BagOf;
    var buckets' := buckets[b := buckets[b].(entries := buckets[b].entries + [e])];
    assert AllChains(buckets', overflow, chains);
    hide AllChains, Lists;
    ChainCount(buckets, overflow, chains);
    var lists, list := Lists(buckets, overflow, chains), BucketList(buckets'[b], overflow, chains[b]);
    ListsUpdate(buckets, buckets', overflow, overflow, chains, chains, b);
    JoinedBags(buckets[b].entries, [e], ChainEntries(overflow, chains[b]));
    hide BucketList;
    ListPut(lists, b, list, e, hash);
  }

  /** One bucket with its chain changed. */
  lemma ListsUpdate(buckets: seq<Bucket>, buckets': seq<Bucket>, before: Overflow, after: Overflow,
          chains: seq<seq<nat>>, chains': seq<seq<nat>>, b: nat)
    requires |chains| == |chains'| == |buckets| == |buckets'| && b < |buckets|
    requires forall c :: 0 <= c < |buckets| && c != b ==>
             buckets'[c] == buckets[c] && chains'[c] == chains[c]
               && ChainEntries(after, chains[c]) == ChainEntries(before, chains[c])
    ensures Lists(buckets', after, chains')
            == Lists(buckets, before, chains)[b := BucketList(buckets'[b], after, chains'[b])]
    ensures Lists(buckets, before, chains)[b] == BucketList(buckets[b], before, chains[b])
  {
    hide ChainEntries;
    var a, c := Lists(buckets', after, chains'),
      Lists(buckets, before, chains)[b := BucketList(buckets'[b], after, chains'[b])];
    forall i | 0 <= i < |a| ensures a[i] == c[i] {
    }
  }

  /** One list with one pair more. */
  lemma ListPut(lists: seq<seq<Entry>>, b: nat, list: seq<Entry>, e: Entry, hash: I64 -> nat)
    requires b < |lists| && Homed(lists, hash) && Home(hash, e.key, |lists|) == b
             && multiset(list) == multiset(lists[b]) + multiset{e}
    ensures Homed(lists[b := list], hash) && BagOf(lists[b := list]) == BagOf(lists) + multiset{e}
  {
    hide Home;
    forall x | x in list ensures x == e || x in lists[b] {
      assert x in multiset(list);
    }
    forall x: Entry ensures BagOf(lists[b := list])[x] == (BagOf(lists) + multiset{e})[x] {
      BagUpdate(lists, b, list, x);
    }
  }

  lemma ChainGrown(buckets: seq<Bucket>, before: Overflow, after: Overflow, chains: seq<seq<nat>>, b: nat,
          chain: seq<nat>, created: Option<nat>, e: Entry, unused: nat, hash: I64 -> nat)
    requires AllChains(buckets, before, chains) && b < |buckets| && Below(before, unused)
    requires Homed(Lists(buckets, before, chains), hash) && Home(hash, e.key, |buckets|) == b
    requires ChainPut(before, after, unused, buckets[b].next, chains[b], created, chain, e)
    ensures var buckets' := if buckets[b].next.None?
            && created.Some? then buckets[b := buckets[b].(next := created)] else buckets;
            AllChains(buckets', after, chains[b := chain]) && Homed(Lists(buckets', after, chains[b := chain]), hash)
            && BagOf(Lists(buckets', after, chains[b := chain])) == BagOf(Lists(buckets, before, chains)) + multiset{e}
  {
    hide Home;
    var buckets' := if buckets[b].next.None?
      && created.Some? then buckets[b := buckets[b].(next := created)] else buckets;
    var chains' := chains[b := chain];
    hide ChainEntries, ChainOk, Homed, BagOf, Below;
    OthersKept(buckets, before, after, chains, b, unused);
    StillApart(buckets, before, after, chains, b, chain, unused, buckets', created, e);
    var lists, list := Lists(buckets, before, chains), BucketList(buckets'[b], after, chain);
    ListsUpdate(buckets, buckets', before, after, chains, chains', b);
    hide AllChains, Lists;
    BagsGrown(buckets[b].entries, ChainEntries(before, chains[b]), ChainEntries(after, chain), e);
    hide BucketList;
    ListPut(lists, b, list, e, hash);
  }

  lemma StillApart(buckets: seq<Bucket>, before: Overflow, after: Overflow, chains: seq<seq<nat>>, b: nat,
          chain: seq<nat>, unused: nat, buckets': seq<Bucket>, created: Option<nat>, e: Entry)
    requires AllChains(buckets, before, chains) && b < |buckets|
             && ChainPut(before, after, unused, buckets[b].next, chains[b], created, chain, e)
    requires buckets' == if buckets[b].next.None?
             && created.Some? then buckets[b := buckets[b].(next := created)] else buckets
    requires forall c :: 0 <= c < |buckets| && c != b ==>
             ChainOk(after, buckets[c].next, chains[c]) && unused !in chains[c]
    ensures AllChains(buckets', after, chains[b := chain])
  {
    hide ChainEntries, ChainOk;
    forall x | x in chain ensures x in chains[b] || x == unused {
    }
  }

  lemma BagsGrown(a: seq<Entry>, b: seq<Entry>, c: seq<Entry>, e: Entry)
    requires multiset(c) == multiset(b) + multiset{e}
    ensures multiset(a + c) == multiset(a + b) + multiset{e}
  {
    JoinedBags(a, [], b);
    JoinedBags(a, [], c);
  }

  /** The chains of other buckets are untouched. */
  lemma OthersKept(buckets: seq<Bucket>, before: Overflow, after: Overflow, chains: seq<seq<nat>>, b: nat, unused: nat)
    requires AllChains(buckets, before, chains) && b < |buckets| && Below(before, unused)
    requires forall x :: x in before && x !in chains[b] ==> x in after && after[x] == before[x]
    ensures forall c :: 0 <= c < |buckets| && c != b ==>
      ChainOk(after, buckets[c].next, chains[c]) && ChainEntries(after, chains[c]) == ChainEntries(before, chains[c])
        && unused !in chains[c]
  {
    forall c | 0 <= c < |buckets| && c != b
      ensures ChainOk(after, buckets[c].next, chains[c])
              && ChainEntries(after, chains[c]) == ChainEntries(before, chains[c]) && unused !in chains[c]
    {
      ChainIn(before, buckets[c].next, chains[c]);
      SameChain(before, after, buckets[c].next, chains[c]);
    }
  }

  // ----- looking up ------------------------------------------------------------------------------

  /** The rows of a key among some pairs. */
  function RowsWith(entries: seq<Entry>, key: I64): seq<nat>
  {
    if entries == [] then []
    else
      var front, last := RowsWith(entries[..|entries| - 1], key), entries[|entries| - 1];
      if last.key == key then front + [last.row] else front
  }

  method RowsOf(entries: seq<Entry>, key: I64, rows0: seq<nat>) returns (rows: seq<nat>)
    ensures rows == rows0 + RowsWith(entries, key)
  {
    rows := rows0;
    for i := 0 to |entries|
      invariant rows == rows0 + RowsWith(entries[..i], key)
    {
      assert entries[..i + 1][..i] == entries[..i];
      if entries[i].key == key {
        rows := rows + [entries[i].row];
      }
    }
    assert entries[..|entries|] == entries;
  }

  lemma {:induction false} RowsConcat(a: seq<Entry>, b: seq<Entry>, key: I64)
    ensures RowsWith(a + b, key) == RowsWith(a, key) + RowsWith(b, key)
  {
    if b == [] {
      assert a + b == a;
    } else {
      var n := |b| - 1;
      RowsConcat(a, b[..n], key);
      assert (a + b)[..|a| + n] == a + b[..n];
    }
  }

  lemma {:induction false} RowsCount(entries: seq<Entry>, key: I64, r: nat)
    ensures multiset(RowsWith(entries, key))[r] == multiset(entries)[Entry(key, r)]
  {
    if entries != [] {
      var n := |entries| - 1;
      RowsCount(entries[..n], key, r);
      assert entries == entries[..n] + [entries[n]];
    }
  }

  // ----- removing --------------------------------------------------------------------------------

  /** `retain`: everything but one pair. */
  function Without(entries: seq<Entry>, e: Entry): (r: seq<Entry>)
    ensures |r| <= |entries|
  {
    if entries == [] then []
    else
      var front, last := Without(entries[..|entries| - 1], e), entries[|entries| - 1];
      if last == e then front else front + [last]
  }

  lemma {:induction false} WithoutCount(entries: seq<Entry>, e: Entry, x: Entry)
    ensures multiset(Without(entries, e))[x] == if x == e then 0 else multiset(entries)[x]
    ensures |Without(entries, e)| < |entries| <==> e in entries
  {
    if entries != [] {
      var n := |entries| - 1;
      WithoutCount(entries[..n], e, x);
      assert entries == entries[..n] + [entries[n]];
    }
  }

  /** The first `done` buckets of the chain have lost the pair. */
  ghost predicate Purged(before: Overflow, after: Overflow, head: Option<nat>, chain: seq<nat>, done: nat, e: Entry)
  {
    && ChainOk(after, head, chain) && after.Keys == before.Keys
    && (forall i: nat :: i < |chain| ==> chain[i] in before && PurgedAt(before, after, chain[i], i < done, e))
    && (forall x :: x in before && x !in chain ==> after[x] == before[x])
  }

  ghost predicate PurgedAt(before: Overflow, after: Overflow, x: nat, gone: bool, e: Entry)
  {
    x in before && x in after
    && after[x] == before[x].(entries := if gone then Without(before[x].entries, e) else before[x].entries)
  }

  lemma StartPurge(overflow: Overflow, head: Option<nat>, chain: seq<nat>, e: Entry)
    requires ChainOk(overflow, head, chain)
    ensures Purged(overflow, overflow, head, chain, 0, e) && ChainEntries(overflow, chain[..0]) == []
            && head == At(chain, 0)
  {
    ChainIn(overflow, head, chain);
  }

  lemma PurgeStep(before: Overflow, after: Overflow, head: Option<nat>, chain: seq<nat>, done: nat, e: Entry)
    requires Purged(before, after, head, chain, done, e) && done < |chain|
    ensures var x := chain[done];
            x in after && x in before && after[x] == before[x] && after[x].next == At(chain, done + 1)
            && Purged(before, after[x := after[x].(entries := Without(after[x].entries, e))], head, chain, done + 1, e)
    ensures e in ChainEntries(before, chain[..done + 1]) <==>
            e in ChainEntries(before, chain[..done]) || e in before[chain[done]].entries
    ensures |Without(before[chain[done]].entries, e)| < |before[chain[done]].entries| <==>
            e in before[chain[done]].entries
  {
    hide ChainEntries, Without, PurgedAt, LinkOk, ChainOk, Purged;
    PurgeAt(before, after, head, chain, done, e);
    WithoutCount(before[chain[done]].entries, e, e);
    EntriesSnoc(before, chain[..done], chain[done]);
    assert chain[..done + 1] == chain[..done] + [chain[done]];
    OnePurged(before, after, head, chain, done, e);
  }

  lemma PurgeAt(before: Overflow, after: Overflow, head: Option<nat>, chain: seq<nat>, done: nat, e: Entry)
    requires Purged(before, after, head, chain, done, e) && done < |chain|
    ensures var x := chain[done];
            x in after && x in before && after[x] == before[x] && after[x].next == At(chain, done + 1)
  {
    assert PurgedAt(before, after, chain[done], false, e) && LinkOk(after, chain, done);
  }

  lemma OnePurged(before: Overflow, after: Overflow, head: Option<nat>, chain: seq<nat>, done: nat, e: Entry)
    requires Purged(before, after, head, chain, done, e) && done < |chain| && chain[done] in after
             && chain[done] in before && after[chain[done]] == before[chain[done]]
    ensures Purged(before, after[chain[done] := after[chain[done]].(entries := Without(after[chain[done]].entries,
            e))], head, chain, done + 1, e)
  {
    var x := chain[done];
    var fewer := after[x := after[x].(entries := Without(after[x].entries, e))];
    WithoutShorter(after[x].entries, e);
    hide Without;
    forall i: nat | i < |chain| ensures LinkOk(fewer, chain, i) && PurgedAt(before, fewer, chain[i], i < done + 1, e) {
      assert LinkOk(after, chain, i) && PurgedAt(before, after, chain[i], i < done, e);
      if i != done {
        assert chain[i] != x && fewer[chain[i]] == after[chain[i]];
      }
    }
    assert x in chain;
    hide LinkOk, PurgedAt;
    assert fewer.Keys == after.Keys;
  }

  lemma WithoutShorter(entries: seq<Entry>, e: Entry)
    ensures |Without(entries, e)| <= |entries|
  {
  }

  lemma {:induction false} EntriesSnoc(overflow: Overflow, chain: seq<nat>, x: nat)
    requires x in overflow
    ensures ChainEntries(overflow, chain + [x]) == ChainEntries(overflow, chain) + overflow[x].entries
  {
    if chain == [] {
      assert [x][1..] == [];
    } else {
      EntriesSnoc(overflow, chain[1..], x);
      assert (chain + [x])[1..] == chain[1..] + [x];
    }
  }

  lemma {:induction false} PurgedEntries(before: Overflow, after: Overflow, chain: seq<nat>, e: Entry, x: Entry)
    requires forall i: nat :: i < |chain| ==> PurgedAt(before, after, chain[i], true, e)
    ensures multiset(ChainEntries(after, chain))[x] == if x == e then 0 else multiset(ChainEntries(before, chain))[x]
  {
    if chain != [] {
      assert PurgedAt(before, after, chain[0], true, e);
      forall i: nat | i < |chain[1..]| ensures PurgedAt(before, after, chain[1..][i], true, e) {
        assert PurgedAt(before, after, chain[i + 1], true, e);
      }
      PurgedEntries(before, after, chain[1..], e, x);
      WithoutCount(before[chain[0]].entries, e, x);
      hide Without;
    }
  }

  /** The pair is gone from its bucket, and nothing else has changed. */
  lemma PurgedAll(buckets: seq<Bucket>, buckets': seq<Bucket>, before: Overflow, after: Overflow, chains: seq<seq<nat>>,
          b: nat, e: Entry, hash: I64 -> nat, next: nat)
    requires AllChains(buckets, before, chains) && b < |buckets| && Homed(Lists(buckets, before, chains), hash)
             && Home(hash, e.key, |buckets|) == b
    requires buckets' == buckets[b := buckets[b].(entries := Without(buckets[b].entries, e))] && Below(before, next)
    requires Purged(before, after, buckets[b].next, chains[b], |chains[b]|, e)
    ensures AllChains(buckets', after, chains) && Homed(Lists(buckets', after, chains), hash) && Below(after, next)
    ensures forall x: Entry ::
            BagOf(Lists(buckets', after, chains))[x] == if x == e then 0 else BagOf(Lists(buckets, before, chains))[x]
    ensures e in BagOf(Lists(buckets, before, chains)) <==>
            e in buckets[b].entries || e in ChainEntries(before, chains[b])
  {
    hide Home;
    OthersKept(buckets, before, after, chains, b, next);
    WithoutCount(buckets[b].entries, e, e);
    assert AllChains(buckets', after, chains) by { hide ChainEntries, Homed, BagOf, Without, LinkOk; }
    var lists, list := Lists(buckets, before, chains), BucketList(buckets'[b], after, chains[b]);
    ListsUpdate(buckets, buckets', before, after, chains, chains, b);
    ListWithout(buckets[b].entries, before, after, buckets[b].next, chains[b], e);
    hide ChainEntries, ChainOk, Without, AllChains, Purged;
    AtHome(lists, hash, b, e);
    assert e in lists[b] <==> e in multiset(lists[b]);
    hide Homed, BagOf;
    ListPurged(lists, b, list, e, hash);
  }

  lemma ListWithout(entries: seq<Entry>, before: Overflow, after: Overflow, head: Option<nat>, chain: seq<nat>,
          e: Entry)
    requires Purged(before, after, head, chain, |chain|, e)
    ensures forall x: Entry ::
            multiset(Without(entries, e) + ChainEntries(after, chain))[x] ==
              if x == e then 0 else multiset(entries + ChainEntries(before, chain))[x]
  {
    forall i: nat | i < |chain| ensures PurgedAt(before, after, chain[i], true, e) {
      assert PurgedAt(before, after, chain[i], i < |chain|, e);
    }
    hide Purged, PurgedAt;
    forall x: Entry
      ensures multiset(Without(entries, e) + ChainEntries(after, chain))[x] == if x
              == e then 0 else multiset(entries + ChainEntries(before, chain))[x]
    {
      PurgedEntries(before, after, chain, e, x);
      WithoutCount(entries, e, x);
      hide Without, ChainEntries;
      JoinedBags(Without(entries, e), [], ChainEntries(after, chain));
      JoinedBags(entries, [], ChainEntries(before, chain));
    }
  }

  lemma ListPurged(lists: seq<seq<Entry>>, b: nat, list: seq<Entry>, e: Entry, hash: I64 -> nat)
    requires b < |lists| && Homed(lists, hash) && Home(hash, e.key, |lists|) == b
    requires forall x: Entry :: multiset(list)[x] == if x == e then 0 else multiset(lists[b])[x]
    ensures Homed(lists[b := list], hash)
    ensures forall x: Entry :: BagOf(lists[b := list])[x] == if x == e then 0 else BagOf(lists)[x]
  {
    hide Home;
    forall x | x in list ensures x in lists[b] {
      assert x in multiset(list) && x in multiset(lists[b]);
    }
    AtHome(lists, hash, b, e);
    forall x: Entry ensures BagOf(lists[b := list])[x] == if x == e then 0 else BagOf(lists)[x] {
      BagUpdate(lists, b, list, x);
    }
  }

  /** A removal that was counted once leaves the length as far off as it was, and by the
      copies beyond the first: a right length stays right exactly when the pair was held at
      most once. */
  lemma LengthRightIff(before: Bag, after: Bag, e: Entry, len: nat)
    requires len == |before| && forall x: Entry :: after[x] == if x == e then 0 else before[x]
    ensures (if e in before then len - 1 else len) == |after| <==> before[e] <= 1
  {
    RemovedSize(before, after, e);
  }

  lemma RemovedSize(before: Bag, after: Bag, e: Entry)
    requires forall x: Entry :: after[x] == if x == e then 0 else before[x]
    ensures |before| == |after| + before[e]
  {
    assert before == after + multiset{e}[e := before[e]];
    CopiesSize(e, before[e]);
  }

  lemma {:induction false} CopiesSize(e: Entry, n: nat)
    ensures |multiset{e}[e := n]| == n
  {
    if n == 0 {
      assert multiset{e}[e := n] == multiset{};
    } else {
      CopiesSize(e, n - 1);
      assert multiset{e}[e := n] == multiset{e}[e := n - 1] + multiset{e};
    }
  }

  /** A pair inserted twice and removed once leaves a length of one and nothing held. */
  method RemoveMiscounts(hash: I64 -> nat) returns (index: HashIndex)
    ensures fresh(index) && index.Valid() && |index.chains| == |index.buckets| && index.Contents() == multiset{}
            && index.len == 1
  {
    index := new HashIndex(4, hash);
    index.Insert(7, 1);
    index.Insert(7, 1);
    var removed := index.Remove(7, 1);
    assert forall e: Entry :: index.Contents()[e] == 0;
    NothingLeft(index.Contents());
  }

  lemma NothingLeft(bag: Bag)
    requires forall e: Entry :: bag[e] == 0
    ensures bag == multiset{}
  {
  }
}
