/** The bounded least-recently-used cache (src/lru.rs): a table from keys to numbered nodes,
    the nodes threaded into a doubly linked list. It behaves as one list of entries, most
    recently used first. */
module LruCaches {
  import opened Options

  type Link = Option<nat>

  datatype Node<K, V> = Node(key: K, value: V, prev: Link, next: Link)

  datatype Entry<K, V> = Entry(key: K, value: V)

  type Nodes<K, V> = seq<Option<Node<K, V>>>

  // ----- the list behind the links ---------------------------------------------------------

  function At(order: seq<nat>, i: int): Link
  {
    if 0 <= i < |order| then Some(order[i]) else None
  }

  ghost predicate Distinct(order: seq<nat>)
  {
    forall i, j :: 0 <= i < j < |order| ==> order[i] != order[j]
  }

  /** The node at position `i` is there and linked to its neighbours. */
  ghost predicate LinkedAt<K, V>(nodes: Nodes<K, V>, order: seq<nat>, i: nat)
  {
    && i < |order| && order[i] < |nodes| && nodes[order[i]].Some?
    && nodes[order[i]].value.prev == At(order, i - 1) && nodes[order[i]].value.next == At(order, i + 1)
  }

  /** The links run through the nodes of `order`, and the ends are its ends. */
  ghost predicate Threaded<K, V>(nodes: Nodes<K, V>, order: seq<nat>, head: Link, tail: Link)
  {
    && Distinct(order) && head == At(order, 0) && tail == At(order, |order| - 1)
    && forall i: nat :: i < |order| ==> LinkedAt(nodes, order, i)
  }

  /** The table and the nodes name each other. */
  ghost predicate Tabled<K, V>(nodes: Nodes<K, V>, table: map<K, nat>)
  {
    && (forall k :: k in table ==> Holds(nodes, table[k], k))
    && (forall x: nat :: x < |nodes| && nodes[x].Some? ==>
      nodes[x].value.key in table && table[nodes[x].value.key] == x)
  }

  ghost predicate Holds<K, V>(nodes: Nodes<K, V>, x: nat, k: K)
  {
    x < |nodes| && nodes[x].Some? && nodes[x].value.key == k
  }

  /** The free list is the empty nodes, each once. */
  ghost predicate Slotted<K, V>(nodes: Nodes<K, V>, free: seq<nat>)
  {
    && (forall x: nat :: x in free <==> x < |nodes| && nodes[x].None?)
    && (forall i, j :: 0 <= i < j < |free| ==> free[i] != free[j])
  }

  /** Every node but the empty ones is listed. */
  ghost predicate Covered<K, V>(nodes: Nodes<K, V>, order: seq<nat>)
  {
    forall x: nat :: x < |nodes| && nodes[x].Some? ==> x in order
  }

  ghost predicate Listed<K, V>(nodes: Nodes<K, V>, order: seq<nat>)
  {
    forall i :: 0 <= i < |order| ==> order[i] < |nodes| && nodes[order[i]].Some?
  }

  /** The entries in order of use. */
  ghost function EntriesOf<K, V>(nodes: Nodes<K, V>, order: seq<nat>): (r: seq<Entry<K, V>>)
    requires Listed(nodes, order)
    ensures |r| == |order| && forall i :: 0 <= i < |r| ==> r[i] == EntryOf(nodes[order[i]].value)
  {
    seq(|order|, i requires 0 <= i < |order| => EntryOf(nodes[order[i]].value))
  }

  function EntryOf<K, V>(n: Node<K, V>): Entry<K, V>
  {
    Entry(n.key, n.value)
  }

  // ----- what the cache means --------------------------------------------------------------

  /** The place of a key, or the length of the list. */
  ghost function PlaceIn<K, V>(entries: seq<Entry<K, V>>, key: K): (p: nat)
    ensures p <= |entries| && (p < |entries| ==> entries[p].key == key)
    ensures forall i :: 0 <= i < p ==> entries[i].key != key
  {
    if entries == [] || entries[0].key == key then 0 else 1 + PlaceIn(entries[1..], key)
  }

  ghost predicate HasKey<K, V>(entries: seq<Entry<K, V>>, key: K)
  {
    PlaceIn(entries, key) < |entries|
  }

  ghost function Without<T>(s: seq<T>, p: nat): (r: seq<T>)
    requires p < |s|
    ensures |r| == |s| - 1
  {
    s[..p] + s[p + 1..]
  }

  ghost function Dropped<K, V>(entries: seq<Entry<K, V>>, key: K): seq<Entry<K, V>>
  {
    if HasKey(entries, key) then Without(entries, PlaceIn(entries, key)) else entries
  }

  ghost predicate UniqueKeys<K, V>(entries: seq<Entry<K, V>>)
  {
    forall i, j :: 0 <= i < j < |entries| ==> entries[i].key != entries[j].key
  }

  class LruCache<K(==), V> {
    var table: map<K, nat>
    var nodes: Nodes<K, V>
    var free: seq<nat>
    var head: Link
    var tail: Link
    const capacity: nat
    var hits: nat
    var misses: nat

    ghost var order: seq<nat>

    ghost predicate Wired()
      reads this
    {
      && Threaded(nodes, order, head, tail) && Listed(nodes, order) && Covered(nodes, order)
      && Tabled(nodes, table) && Slotted(nodes, free)
    }

    ghost predicate Valid()
      reads this
    {
      Wired() && |order| == |table| <= capacity && capacity > 0
    }

    /** Most recently used first. */
    ghost function Entries(): seq<Entry<K, V>>
      requires Wired()
      reads this
    {
      EntriesOf(nodes, order)
    }

    /** Lines 37-48. */
    constructor (bound: nat)
      ensures Valid() && Entries() == [] && capacity == (if bound > 1 then bound else 1) && hits == misses == 0
    {
      table, nodes, free, order := map[], [], [], [];
      head, tail := None, None;
      capacity := if bound > 1 then bound else 1;
      hits, misses := 0, 0;
    }

    /** Lines 78-93: takes the node at place `p` out of the list. */
    method Detach(x: nat, ghost p: nat)
      requires Threaded(nodes, order, head, tail) && p < |order| && order[p] == x
      modifies this`nodes, this`head, this`tail, this`order
      ensures order == Without(old(order), p) && Threaded(nodes, order, head, tail) && x !in order
      ensures SameEntries(old(nodes), nodes) && x < |nodes| && nodes[x].Some? && Distinct(old(order))
    {
      assert LinkedAt(nodes, order, p);
      var prev, next := nodes[x].value.prev, nodes[x].value.next;
      Detached(nodes, order, head, tail, p);
      if prev.Some? {
        nodes := nodes[prev.value := Some(nodes[prev.value].value.(next := next))];
      } else {
        head := next;
      }
      if next.Some? {
        nodes := nodes[next.value := Some(nodes[next.value].value.(prev := prev))];
      } else {
        tail := prev;
      }
      NotLeft(order, p);
      order := Without(order, p);
    }

    /** Lines 95-109. */
    method PushFront(x: nat)
      requires Threaded(nodes, order, head, tail) && x < |nodes| && nodes[x].Some? && x !in order
      modifies this`nodes, this`head, this`tail, this`order
      ensures order == [x] + old(order) && Threaded(nodes, order, head, tail)
      ensures SameEntries(old(nodes), nodes)
    {
      Pushed(nodes, order, head, tail, x);
      var oldHead := head;
      nodes := nodes[x := Some(nodes[x].value.(prev := None, next := oldHead))];
      if oldHead.Some? {
        nodes := nodes[oldHead.value := Some(nodes[oldHead.value].value.(prev := Some(x)))];
      }
      head := Some(x);
      if tail.None? {
        tail := Some(x);
      }
      order := [x] + order;
    }

    /** Moves a listed node to the front. */
    method Touch(x: nat, ghost p: nat)
      requires Wired() && p < |order| && order[p] == x
      modifies this`nodes, this`head, this`tail, this`order
      ensures Wired() && |order| == |old(order)| && SameEntries(old(nodes), nodes)
      ensures Entries() == [old(Entries())[p]] + Without(old(Entries()), p)
    {
      hide Threaded, Tabled, Slotted, Covered, Listed, SameEntries;
      ghost var before, between := nodes, nodes;
      Detach(x, p);
      between := nodes;
      PushFront(x);
      SameTrans(before, between, nodes);
      Shuffled(before, nodes, old(order), order, p);
      SameKept(before, nodes, table, free);
    }

    /** Lines 112-124. */
    method Get(key: K) returns (r: Option<V>)
      requires Valid()
      modifies this`nodes, this`head, this`tail, this`order, this`hits, this`misses
      ensures Valid()
      ensures var p := PlaceIn(old(Entries()), key);
              if p < |old(Entries())| then
                r == Some(old(Entries())[p].value) && Entries() == [old(Entries())[p]] + Without(old(Entries()), p)
                && hits == old(hits) + 1 && misses == old(misses)
              else
                r == None && Entries() == old(Entries()) && hits == old(hits) && misses == old(misses) + 1
    {
      hide Threaded, Tabled, Slotted, Covered, Listed, SameEntries;
      KeyPlace(nodes, order, table, key);
      if key !in table {
        misses := misses + 1;
        return None;
      }
      var x := table[key];
      hits := hits + 1;
      ghost var p, before := PlaceIn(Entries(), key), nodes;
      Touch(x, p);
      SameAt(before, nodes, x);
      r := Some(nodes[x].value.value);
    }

    /** Lines 138-165: the entry goes to the front; a new key may push the last entry out. */
    method Put(key: K, value: V) returns (evicted: Option<Entry<K, V>>)
      requires Valid()
      modifies this`nodes, this`head, this`tail, this`order, this`table, this`free
      ensures Valid() && hits == old(hits) && misses == old(misses)
      ensures if HasKey(old(Entries()), key) then
                evicted == None && Entries() == [Entry(key, value)] + Dropped(old(Entries()), key)
              else if |old(Entries())| < capacity then
                evicted == None && Entries() == [Entry(key, value)] + old(Entries())
              else
                |old(Entries())| == capacity && evicted == Some(old(Entries())[capacity - 1])
                && Entries() == [Entry(key, value)] + old(Entries())[..capacity - 1]
    {
      hide Threaded, Tabled, Slotted, Covered, Listed, SameEntries;
      KeyPlace(nodes, order, table, key);
      if key in table {
        var x := table[key];
        ghost var p := PlaceIn(Entries(), key);
        Revalued(nodes, order, head, tail, table, free, p, value);
        nodes := nodes[x := Some(nodes[x].value.(value := value))];
        Touch(x, p);
        return None;
      }
      evicted := None;
      if |table| >= capacity {
        evicted := EvictLru();
      }
      AddNew(key, value);
    }

    /** Lines 149-163. */
    method AddNew(key: K, value: V)
      requires Wired() && key !in table && |order| == |table|
      modifies this`nodes, this`head, this`tail, this`order, this`table, this`free
      ensures Wired() && |order| == |table| == |old(order)| + 1 && Entries() == [Entry(key, value)] + old(Entries())
    {
      hide Threaded, Tabled, Slotted, Covered, Listed, SameEntries;
      var node := Node(key, value, None, None);
      ghost var fewer := free;
      var x: nat;
      if |free| > 0 {
        x := free[|free| - 1];
        FreePlace(nodes, free);
        Filled(nodes, nodes[x := Some(node)], order, head, tail, table, free, free[..|free| - 1], x, node);
        free := free[..|free| - 1];
        nodes := nodes[x := Some(node)];
      } else {
        x := |nodes|;
        Filled(nodes, nodes + [Some(node)], order, head, tail, table, free, free, x, node);
        nodes := nodes + [Some(node)];
      }
      ghost var placed, listed := nodes, order;
      table := table[key := x];
      PushFront(x);
      SameKept(placed, nodes, table, free);
      Fronted(placed, nodes, listed, order, x);
    }

    /** Lines 167-177. */
    method EvictLru() returns (r: Option<Entry<K, V>>)
      requires Wired() && |order| == |table|
      modifies this`nodes, this`head, this`tail, this`order, this`table, this`free
      ensures Wired() && |order| == |table| && table.Keys <= old(table).Keys
      ensures if |old(order)| == 0 then r == None && Entries() == old(Entries())
              else r == Some(old(Entries())[|old(order)| - 1]) && Entries() == old(Entries())[..|old(order)| - 1]
    {
      hide Threaded, Tabled, Slotted, Covered, Listed, SameEntries;
      TailIsLast(nodes, order, head, tail);
      if tail.None? {
        return None;
      }
      var x := tail.value;
      ghost var before, p := nodes, |order| - 1;
      Detach(x, p);
      var node := nodes[x].value;
      Emptied(before, nodes, old(order), order, head, tail, table, free, p);
      nodes := nodes[x := None];
      table := table - {node.key};
      free := free + [x];
      r := Some(Entry(node.key, node.value));
    }

    /** Lines 180-186. */
    method Remove(key: K) returns (r: Option<V>)
      requires Valid()
      modifies this`nodes, this`head, this`tail, this`order, this`table, this`free
      ensures Valid() && Entries() == Dropped(old(Entries()), key)
      ensures r == if HasKey(old(Entries()),
              key) then Some(old(Entries())[PlaceIn(old(Entries()), key)].value) else None
    {
      hide Threaded, Tabled, Slotted, Covered, Listed, SameEntries;
      KeyPlace(nodes, order, table, key);
      if key !in table {
        return None;
      }
      var x := table[key];
      ghost var before, p := nodes, PlaceIn(Entries(), key);
      table := table - {key};
      Detach(x, p);
      var node := nodes[x].value;
      Emptied(before, nodes, old(order), order, head, tail, old(table), free, p);
      nodes := nodes[x := None];
      free := free + [x];
      r := Some(node.value);
    }

    /** Lines 189-198. */
    method KeysMru() returns (out: seq<K>)
      requires Valid()
      ensures |out| == |Entries()| && forall i :: 0 <= i < |out| ==> out[i] == Entries()[i].key
    {
      out := [];
      var cur := head;
      ghost var i: nat := 0;
      while cur.Some?
        invariant i <= |order| && cur == At(order, i) && |out| == i
        invariant forall j :: 0 <= j < i ==> out[j] == Entries()[j].key
        decreases |order| - i
      {
        assert LinkedAt(nodes, order, i);
        out := out + [nodes[cur.value].value.key];
        cur := nodes[cur.value].value.next;
        i := i + 1;
      }
    }
  }

  /** Only links differ. */
  ghost predicate SameEntries<K, V>(before: Nodes<K, V>, after: Nodes<K, V>)
  {
    && |after| == |before|
    && forall x :: 0 <= x < |before| ==> SameNode(before[x], after[x])
  }

  ghost predicate SameNode<K, V>(a: Option<Node<K, V>>, b: Option<Node<K, V>>)
  {
    (a.Some? <==> b.Some?) && (a.Some? ==> EntryOf(a.value) == EntryOf(b.value))
  }

  lemma SameTrans<K, V>(a: Nodes<K, V>, b: Nodes<K, V>, c: Nodes<K, V>)
    requires SameEntries(a, b) && SameEntries(b, c)
    ensures SameEntries(a, c)
  {
  }

  lemma SameAt<K, V>(a: Nodes<K, V>, b: Nodes<K, V>, x: nat)
    requires SameEntries(a, b) && x < |a| && a[x].Some?
    ensures x < |b| && b[x].Some? && EntryOf(b[x].value) == EntryOf(a[x].value)
  {
  }

  /** Relinking keeps the table and the free list right. */
  lemma SameKept<K, V>(before: Nodes<K, V>, after: Nodes<K, V>, table: map<K, nat>, free: seq<nat>)
    requires SameEntries(before, after) && Tabled(before, table) && Slotted(before, free)
    ensures Tabled(after, table) && Slotted(after, free)
  {
  }

  // ----- facts -------------------------------------------------------------------------------

  lemma TailIsLast<K, V>(nodes: Nodes<K, V>, order: seq<nat>, head: Link, tail: Link)
    requires Threaded(nodes, order, head, tail)
    ensures (tail.None? <==> order == []) && (tail.Some? ==> tail.value == order[|order| - 1])
  {
  }

  /** The cache never lists a key twice. */
  lemma KeysUnique<K, V>(nodes: Nodes<K, V>, order: seq<nat>, table: map<K, nat>)
    requires Distinct(order) && Listed(nodes, order) && Tabled(nodes, table)
    ensures UniqueKeys(EntriesOf(nodes, order))
  {
  }

  lemma KeyPlace<K, V>(nodes: Nodes<K, V>, order: seq<nat>, table: map<K, nat>, key: K)
    requires Tabled(nodes, table) && Listed(nodes, order) && Covered(nodes, order)
    ensures var es := EntriesOf(nodes, order);
            (key in table <==> HasKey(es, key))
            && (key in table ==>
              table[key] < |nodes| && nodes[table[key]].Some? && order[PlaceIn(es, key)] == table[key]
                                 && EntryOf(nodes[table[key]].value) == es[PlaceIn(es, key)])
  {
    var es := EntriesOf(nodes, order);
    if key in table {
      assert Holds(nodes, table[key], key);
      var i :| 0 <= i < |order| && order[i] == table[key];
      assert es[i].key == key;
    }
  }

  lemma NotLeft(order: seq<nat>, p: nat)
    requires Distinct(order) && p < |order|
    ensures order[p] !in Without(order, p)
  {
  }

  // ----- relinking ---------------------------------------------------------------------------

  /** What `Detach` does to the nodes. */
  ghost function Bypassed<K, V>(nodes: Nodes<K, V>, prev: Link, next: Link): (r: Nodes<K, V>)
    requires prev.Some? ==> prev.value < |nodes| && nodes[prev.value].Some?
    requires next.Some? ==> next.value < |nodes| && nodes[next.value].Some?
    ensures |r| == |nodes|
  {
    var a := if prev.Some? then nodes[prev.value := Some(nodes[prev.value].value.(next := next))] else nodes;
    if next.Some? then a[next.value := Some(a[next.value].value.(prev := prev))] else a
  }

  lemma Detached<K, V>(nodes: Nodes<K, V>, order: seq<nat>, head: Link, tail: Link, p: nat)
    requires Threaded(nodes, order, head, tail) && p < |order|
    ensures order[p] < |nodes| && nodes[order[p]].Some?
    ensures var prev, next := At(order, p - 1), At(order, p + 1);
            (prev.Some? ==> prev.value < |nodes| && nodes[prev.value].Some?)
              && (next.Some? ==> next.value < |nodes| && nodes[next.value].Some?)
            && Threaded(Bypassed(nodes, prev, next), Without(order, p), if p == 0 then next else head,
              if p == |order| - 1 then prev else tail)
            && SameEntries(nodes, Bypassed(nodes, prev, next))
            && nodes[order[p]].value.prev == prev && nodes[order[p]].value.next == next
  {
    assert LinkedAt(nodes, order, p);
    assert p > 0 ==> LinkedAt(nodes, order, p - 1);
    assert p + 1 < |order| ==> LinkedAt(nodes, order, p + 1);
    var after, left := Bypassed(nodes, At(order, p - 1), At(order, p + 1)), Without(order, p);
    forall i: nat | i < |left| ensures LinkedAt(after, left, i) {
      assert LinkedAt(nodes, order, if i < p then i else i + 1);
    }
  }

  lemma Pushed<K, V>(nodes: Nodes<K, V>, order: seq<nat>, head: Link, tail: Link, x: nat)
    requires Threaded(nodes, order, head, tail) && x < |nodes| && nodes[x].Some? && x !in order
    ensures var a := nodes[x := Some(nodes[x].value.(prev := None, next := head))];
            (head.Some? ==> head.value < |nodes| && a[head.value].Some?)
            && var after := if head.Some? then a[head.value := Some(a[head.value].value.(prev := Some(x)))] else a;
            Threaded(after, [x] + order, Some(x), if tail.None? then Some(x) else tail) && SameEntries(nodes, after)
  {
    assert order != [] ==> LinkedAt(nodes, order, 0);
    var a := nodes[x := Some(nodes[x].value.(prev := None, next := head))];
    var after := if head.Some? then a[head.value := Some(a[head.value].value.(prev := Some(x)))] else a;
    var more := [x] + order;
    forall i: nat | i < |more| ensures LinkedAt(after, more, i) {
      assert i > 0 ==> LinkedAt(nodes, order, i - 1) && more[i] == order[i - 1];
    }
  }

  // ----- the table and the free list -----------------------------------------------------------

  /** The same nodes are listed. */
  lemma SameListed(order: seq<nat>, order': seq<nat>, p: nat)
    requires p < |order| && order' == [order[p]] + Without(order, p)
    ensures forall x: nat :: x in order' <==> x in order
  {
    forall x: nat ensures x in order' <==> x in order {
      if x in order {
        var i :| 0 <= i < |order| && order[i] == x;
        assert order'[if i < p then i + 1 else if i == p then 0 else i] == x;
      }
    }
  }

  lemma Shuffled<K, V>(before: Nodes<K, V>, after: Nodes<K, V>, order: seq<nat>, order': seq<nat>, p: nat)
    requires Listed(before, order) && Covered(before, order) && SameEntries(before, after)
    requires p < |order| && order' == [order[p]] + Without(order, p)
    ensures Listed(after, order') && Covered(after, order')
    ensures EntriesOf(after, order') == [EntriesOf(before, order)[p]] + Without(EntriesOf(before, order), p)
  {
    SameListed(order, order', p);
  }

  lemma Revalued<K, V>(nodes: Nodes<K, V>, order: seq<nat>, head: Link, tail: Link, table: map<K, nat>, free: seq<nat>,
          p: nat, value: V)
    requires Threaded(nodes, order, head, tail) && Listed(nodes, order) && Covered(nodes, order)
             && Tabled(nodes, table) && Slotted(nodes, free) && p < |order|
    ensures order[p] < |nodes| && nodes[order[p]].Some?
    ensures var x := order[p];
            var after := nodes[x := Some(nodes[x].value.(value := value))];
            Threaded(after, order, head, tail) && Listed(after, order) && Covered(after, order)
              && Tabled(after, table) && Slotted(after, free)
            && EntriesOf(after, order) == EntriesOf(nodes, order)[p := Entry(nodes[x].value.key, value)]
  {
    var x := order[p];
    var after := nodes[x := Some(nodes[x].value.(value := value))];
    forall i: nat | i < |order| ensures LinkedAt(after, order, i) {
      assert LinkedAt(nodes, order, i);
    }
    hide LinkedAt;
  }

  lemma OthersListed(order: seq<nat>, order': seq<nat>, p: nat)
    requires Distinct(order) && p < |order| && order' == Without(order, p)
    ensures forall y: nat :: y in order' <==> y in order && y != order[p]
  {
    NotLeft(order, p);
    forall y: nat ensures y in order' <==> y in order && y != order[p] {
      if y in order && y != order[p] {
        var i :| 0 <= i < |order| && order[i] == y;
        assert order'[if i < p then i else i - 1] == y;
      }
    }
  }

  /** A node taken off the list and emptied. */
  lemma Emptied<K, V>(before: Nodes<K, V>, after: Nodes<K, V>, order: seq<nat>, order': seq<nat>, head: Link,
          tail: Link, table: map<K, nat>, free: seq<nat>, p: nat)
    requires Distinct(order) && Listed(before, order) && Covered(before, order) && Tabled(before, table)
             && Slotted(before, free) && |order| == |table|
    requires SameEntries(before, after) && p < |order| && order' == Without(order, p)
             && Threaded(after, order', head, tail)
    ensures order[p] < |after| && after[order[p]].Some?
    ensures var x := order[p];
            var left, fewer := after[x := None], table - {after[x].value.key};
            Threaded(left, order', head, tail) && Listed(left, order') && Covered(left, order') && Tabled(left, fewer)
              && Slotted(left, free + [x])
            && |order'| == |fewer|
            && EntriesOf(left, order') == Without(EntriesOf(before, order), p)
              && EntryOf(after[x].value) == EntriesOf(before, order)[p]
  {
    var x := order[p];
    OthersListed(order, order', p);
    EmptiedThread(after, order', head, tail, x);
    hide Threaded;
    EmptiedList(before, after, order, order', p);
    hide Covered, EntriesOf;
    EmptiedTable(before, after, table, free, x);
  }

  lemma EmptiedList<K, V>(before: Nodes<K, V>, after: Nodes<K, V>, order: seq<nat>, order': seq<nat>, p: nat)
    requires Distinct(order) && Listed(before, order) && Covered(before, order) && SameEntries(before, after)
    requires p < |order| && order' == Without(order, p) && forall y: nat :: y in order' <==> y in order && y != order[p]
    ensures order[p] < |after| && after[order[p]].Some? && EntryOf(after[order[p]].value) == EntriesOf(before, order)[p]
    ensures Listed(after[order[p] := None], order') && Covered(after[order[p] := None], order')
    ensures EntriesOf(after[order[p] := None], order') == Without(EntriesOf(before, order), p)
  {
    var x := order[p];
    assert SameNode(before[x], after[x]);
    var left := after[x := None];
    forall i | 0 <= i < |order'|
      ensures order'[i] < |left| && left[order'[i]].Some?
              && EntryOf(left[order'[i]].value) == EntryOf(before[order'[i]].value)
    {
      var j := if i < p then i else i + 1;
      assert order'[i] == order[j] && order[j] != x;
      assert SameNode(before[order[j]], after[order[j]]);
    }
    hide EntryOf, SameEntries, SameNode;
    forall y: nat | y < |left| && left[y].Some? ensures y in order' {
      SameSome(before, after, y);
    }
  }

  lemma SameSome<K, V>(before: Nodes<K, V>, after: Nodes<K, V>, y: nat)
    requires SameEntries(before, after) && y < |after|
    ensures y < |before| && (before[y].Some? <==> after[y].Some?)
  {
    assert SameNode(before[y], after[y]);
  }

  lemma EmptiedThread<K, V>(after: Nodes<K, V>, order: seq<nat>, head: Link, tail: Link, x: nat)
    requires Threaded(after, order, head, tail) && x !in order && x < |after|
    ensures Threaded(after[x := None], order, head, tail)
  {
    var left := after[x := None];
    forall i: nat | i < |order| ensures LinkedAt(left, order, i) {
      assert LinkedAt(after, order, i) && order[i] in order;
    }
  }

  lemma EmptiedTable<K, V>(before: Nodes<K, V>, after: Nodes<K, V>, table: map<K, nat>, free: seq<nat>, x: nat)
    requires Tabled(before, table) && Slotted(before, free) && SameEntries(before, after) && x < |after|
             && after[x].Some?
    ensures Tabled(after[x := None], table - {after[x].value.key}) && Slotted(after[x := None], free + [x])
    ensures |table - {after[x].value.key}| == |table| - 1
  {
    var key := after[x].value.key;
    assert key in table;
    assert (table - {key}).Keys == table.Keys - {key};
    assert |(table - {key}).Keys| == |table - {key}| && |table.Keys| == |table|;
  }

  lemma FreePlace<K, V>(nodes: Nodes<K, V>, free: seq<nat>)
    requires Slotted(nodes, free) && free != []
    ensures var x := free[|free| - 1];
            x < |nodes| && nodes[x].None? && forall y: nat :: y in free[..|free| - 1] <==> y in free && y != x
    ensures forall i, j :: 0 <= i < j < |free| - 1 ==> free[i] != free[j]
  {
    var x := free[|free| - 1];
    assert x in free;
    forall y: nat ensures y in free[..|free| - 1] <==> y in free && y != x {
      if y in free && y != x {
        var i :| 0 <= i < |free| && free[i] == y;
        assert free[..|free| - 1][i] == y;
      }
    }
  }

  /** The node at `x`, free or just past the end, filled. */
  ghost predicate FilledAt<K, V>(before: Nodes<K, V>, after: Nodes<K, V>, x: nat, node: Node<K, V>)
  {
    if x < |before| then before[x].None? && after == before[x := Some(node)]
    else x == |before| && after == before + [Some(node)]
  }

  lemma OthersSame<K, V>(before: Nodes<K, V>, after: Nodes<K, V>, x: nat, node: Node<K, V>)
    requires FilledAt(before, after, x, node)
    ensures x < |after| && after[x] == Some(node) && |before| <= |after| && (x < |before| ==> before[x].None?)
    ensures forall y :: 0 <= y < |after| && y != x ==> y < |before| && after[y] == before[y]
  {
  }

  /** A new node in a free place or at the end, not yet listed. */
  lemma Filled<K, V>(before: Nodes<K, V>, after: Nodes<K, V>, order: seq<nat>, head: Link, tail: Link,
          table: map<K, nat>, free: seq<nat>, left: seq<nat>, x: nat, node: Node<K, V>)
    requires Threaded(before, order, head, tail) && Listed(before, order) && Covered(before, order)
             && Tabled(before, table) && Slotted(before, free)
    requires node.key !in table && FilledAt(before, after, x, node)
    requires forall y: nat :: y in left <==> y in free && y != x
    requires forall i, j :: 0 <= i < j < |left| ==> left[i] != left[j]
    ensures x !in order && x < |after| && after[x] == Some(node)
    ensures Threaded(after, order, head, tail) && Listed(after, order) && Tabled(after, table[node.key := x])
            && Slotted(after, left)
    ensures (forall y: nat :: y < |after| && after[y].Some? ==> y in order || y == x)
            && EntriesOf(after, order) == EntriesOf(before, order)
    ensures |table[node.key := x]| == |table| + 1
  {
    OthersSame(before, after, x, node);
    hide FilledAt;
    FilledThread(before, after, order, head, tail, x);
    hide Threaded;
    FilledList(before, after, order, x);
    FilledTable(before, after, table, x, node);
    FilledSlots(before, after, free, left, x);
    hide *;
  }

  lemma FilledSlots<K, V>(before: Nodes<K, V>, after: Nodes<K, V>, free: seq<nat>, left: seq<nat>, x: nat)
    requires Slotted(before, free) && x < |after| && after[x].Some? && |before| <= |after|
    requires forall y :: 0 <= y < |after| && y != x ==> y < |before| && after[y] == before[y]
    requires forall y: nat :: y in left <==> y in free && y != x
    requires forall i, j :: 0 <= i < j < |left| ==> left[i] != left[j]
    ensures Slotted(after, left)
  {
  }

  lemma FilledTable<K, V>(before: Nodes<K, V>, after: Nodes<K, V>, table: map<K, nat>, x: nat, node: Node<K, V>)
    requires Tabled(before, table) && node.key !in table && x < |after| && after[x] == Some(node)
    requires (x < |before| ==> before[x].None?) && |before| <= |after|
    requires forall y :: 0 <= y < |after| && y != x ==> y < |before| && after[y] == before[y]
    ensures Tabled(after, table[node.key := x]) && |table[node.key := x]| == |table| + 1
  {
    var more := table[node.key := x];
    forall k | k in more ensures Holds(after, more[k], k) {
      assert k != node.key ==> Holds(before, table[k], k);
    }
    assert more.Keys == table.Keys + {node.key};
    assert |more.Keys| == |more| && |table.Keys| == |table|;
  }

  lemma FilledList<K, V>(before: Nodes<K, V>, after: Nodes<K, V>, order: seq<nat>, x: nat)
    requires Listed(before, order) && Covered(before, order) && x !in order && |before| <= |after|
    requires forall y :: 0 <= y < |after| && y != x ==> y < |before| && after[y] == before[y]
    ensures Listed(after, order) && EntriesOf(after, order) == EntriesOf(before, order)
    ensures forall y: nat :: y < |after| && after[y].Some? ==> y in order || y == x
  {
    forall i | 0 <= i < |order| ensures after[order[i]] == before[order[i]] {
      assert order[i] in order;
    }
  }

  lemma FilledThread<K, V>(before: Nodes<K, V>, after: Nodes<K, V>, order: seq<nat>, head: Link, tail: Link, x: nat)
    requires Threaded(before, order, head, tail) && (x < |before| ==> before[x].None?) && |before| <= |after|
    requires forall y :: 0 <= y < |after| && y != x ==> y < |before| && after[y] == before[y]
    ensures Threaded(after, order, head, tail) && x !in order
  {
    forall i: nat | i < |order| ensures LinkedAt(after, order, i) && order[i] != x {
      assert LinkedAt(before, order, i);
    }
  }

  lemma Fronted<K, V>(placed: Nodes<K, V>, after: Nodes<K, V>, order: seq<nat>, order': seq<nat>, x: nat)
    requires x < |placed| && placed[x].Some? && SameEntries(placed, after) && order' == [x] + order
             && Listed(placed, order)
    requires forall y: nat :: y < |placed| && placed[y].Some? ==> y in order || y == x
    ensures Listed(after, order') && Covered(after, order')
    ensures EntriesOf(after, order') == [EntryOf(placed[x].value)] + EntriesOf(placed, order)
  {
    forall y: nat ensures y in order' <==> y in order || y == x {
      assert order' == [x] + order;
    }
  }
}
