/** The binary min-heap with a key-to-position table (src/pqueue.rs). Pushing a present key
    sets its priority, up or down, although the source's comment speaks of the lower one. */
module KeyedHeaps {
  import opened Options
  import opened Integers

  type Key = nat

  datatype Entry = Entry(priority: I64, key: Key)

  type Heap = seq<Entry>
  type Positions = map<Key, nat>

  // ----- invariants ----------------------------------------------------------------------

  /** The table gives every key its place, and only the keys of the heap. */
  ghost predicate Placed(heap: Heap, pos: Positions)
  {
    && (forall i :: 0 <= i < |heap| ==> heap[i].key in pos && pos[heap[i].key] == i)
    && (forall k :: k in pos ==> pos[k] < |heap| && heap[pos[k]].key == k)
  }

  function Parent(i: nat): nat
    requires i > 0
  {
    (i - 1) / 2
  }

  /** An entry is not below its parent; entry `hole` is not asked, nor are its children of
      it, but they are not below its parent. */
  ghost predicate OrderedBut(heap: Heap, hole: nat)
  {
    && (forall i :: 0 < i < |heap| && i != hole && Parent(i) != hole ==> heap[Parent(i)].priority <= heap[i].priority)
    && (forall i :: 0 < i < |heap| && Parent(i) == hole && hole > 0 && hole < |heap| ==>
      heap[Parent(hole)].priority <= heap[i].priority)
  }

  ghost predicate Ordered(heap: Heap)
  {
    forall i :: 0 < i < |heap| ==> heap[Parent(i)].priority <= heap[i].priority
  }

  /** The entry at `i` is not above its children. */
  ghost predicate AboveChildren(heap: Heap, i: nat)
  {
    forall c :: 0 < c < |heap| && Parent(c) == i && i < |heap| ==> heap[i].priority <= heap[c].priority
  }

  /** The entry at `i` is not below its parent. */
  ghost predicate BelowParent(heap: Heap, i: nat)
  {
    0 < i < |heap| ==> heap[Parent(i)].priority <= heap[i].priority
  }

  lemma OrderedFromBut(heap: Heap, hole: nat)
    requires OrderedBut(heap, hole) && AboveChildren(heap, hole) && BelowParent(heap, hole)
    ensures Ordered(heap)
  {
  }

  /** The root is a least entry. */
  lemma {:induction false} RootIsLeast(heap: Heap, i: nat)
    requires Ordered(heap) && i < |heap|
    ensures heap[0].priority <= heap[i].priority
  {
    if i > 0 {
      RootIsLeast(heap, Parent(i));
    }
  }

  /** Keys with their priorities. */
  ghost function Priorities(heap: Heap, pos: Positions): (r: map<Key, I64>)
    requires Placed(heap, pos)
    ensures r.Keys == pos.Keys && forall k :: k in r ==> r[k] == heap[pos[k]].priority
  {
    map k | k in pos :: heap[pos[k]].priority
  }

  function Swapped(heap: Heap, a: nat, b: nat): (r: Heap)
    requires a < |heap| && b < |heap|
    ensures |r| == |heap|
  {
    heap[a := heap[b]][b := heap[a]]
  }

  lemma SwapKeeps(heap: Heap, pos: Positions, a: nat, b: nat)
    requires Placed(heap, pos) && a < |heap| && b < |heap| && a != b
    ensures var heap', pos' := Swapped(heap, a, b), pos[heap[b].key := a][heap[a].key := b];
            Placed(heap', pos') && Priorities(heap', pos') == Priorities(heap, pos)
  {
  }

  /** Moving a low entry above its parent moves the exempt place up. */
  lemma {:induction false} SwapUp(heap: Heap, i: nat)
    requires 0 < i < |heap| && OrderedBut(heap, i) && AboveChildren(heap, i)
             && heap[i].priority < heap[Parent(i)].priority
    ensures var heap' := Swapped(heap, i, Parent(i)); OrderedBut(heap', Parent(i)) && AboveChildren(heap', Parent(i))
  {
    var p, heap' := Parent(i), Swapped(heap, i, Parent(i));
    forall c | 0 < c < |heap| && Parent(c) == p ensures heap'[p].priority <= heap'[c].priority {
      assert c != i ==> heap[p].priority <= heap[c].priority;
    }
  }

  /** Moving a high entry below its smaller child moves the exempt place down. */
  lemma {:induction false} SwapDown(heap: Heap, i: nat, c: nat)
    requires 0 < c < |heap| && Parent(c) == i && OrderedBut(heap, i) && BelowParent(heap, i)
             && heap[c].priority < heap[i].priority
    requires forall d :: 0 < d < |heap| && Parent(d) == i ==> heap[c].priority <= heap[d].priority
    ensures var heap' := Swapped(heap, i, c); OrderedBut(heap', c) && BelowParent(heap', c)
  {
  }

  lemma RootHasNoParent(heap: Heap)
    ensures BelowParent(heap, 0)
  {
  }

  lemma ParentBefore(heap: Heap, i: nat)
    requires 0 < i < |heap|
    ensures Parent(i) < i && (heap[Parent(i)].priority <= heap[i].priority ==> BelowParent(heap, i))
  {
  }

  /** A heap in order is in order with any place exempt. */
  lemma OrderedAnywhere(heap: Heap, i: nat)
    requires Ordered(heap)
    ensures OrderedBut(heap, i) && BelowParent(heap, i)
  {
    forall c | 0 < c < |heap| && Parent(c) == i && 0 < i < |heap| ensures heap[Parent(i)].priority <= heap[c].priority {
      assert heap[Parent(i)].priority <= heap[i].priority <= heap[c].priority;
    }
  }

  /** The smallest of an entry and its children. */
  lemma SmallestChild(heap: Heap, i: nat, s: nat)
    requires i < |heap| && s < |heap| && (s == i || s == 2 * i + 1 || s == 2 * i + 2)
             && (s != i ==> heap[s].priority < heap[i].priority)
    requires 2 * i + 1 < |heap| ==> heap[s].priority <= heap[2 * i + 1].priority
    requires 2 * i + 2 < |heap| ==> heap[s].priority <= heap[2 * i + 2].priority
    ensures s == i ==> AboveChildren(heap, i)
    ensures s != i ==> 0 < s && Parent(s) == i && i < s
    ensures forall d :: 0 < d < |heap| && Parent(d) == i ==> heap[s].priority <= heap[d].priority
  {
    forall d | 0 < d < |heap| && Parent(d) == i ensures heap[s].priority <= heap[d].priority {
      assert d == 2 * i + 1 || d == 2 * i + 2;
    }
  }

  class PriorityQueue {
    var heap: Heap
    var pos: Positions

    ghost predicate Valid()
      reads this
    {
      Placed(heap, pos) && Ordered(heap)
    }

    /** The queue as a map from keys to priorities. */
    ghost function Entries(): map<Key, I64>
      reads this
      requires Placed(heap, pos)
    {
      Priorities(heap, pos)
    }

    constructor ()
      ensures Valid() && Entries() == map[]
    {
      heap, pos := [], map[];
    }

    /** Lines 153-157. */
    method Swap(a: nat, b: nat)
      requires Placed(heap, pos) && a < |heap| && b < |heap| && a != b
      modifies this
      ensures heap == Swapped(old(heap), a, b) && Placed(heap, pos) && Entries() == old(Entries())
    {
      SwapKeeps(heap, pos, a, b);
      var x, y := heap[a], heap[b];
      heap := heap[a := y][b := x];
      pos := pos[heap[a].key := a];
      pos := pos[heap[b].key := b];
    }

    /** Lines 120-130: afterwards only the children of `start` may be out of order, and not
        even they if they were in order. */
    method SiftUp(start: nat)
      requires Placed(heap, pos) && start < |heap| && OrderedBut(heap, start)
      modifies this
      ensures Placed(heap, pos) && Entries() == old(Entries()) && |heap| == |old(heap)|
      ensures OrderedBut(heap, start) && BelowParent(heap, start)
      ensures AboveChildren(old(heap), start) ==> Ordered(heap)
    {
      hide Placed, OrderedBut, AboveChildren, BelowParent, Ordered, Priorities, Swapped;
      var i: nat := start;
      RootHasNoParent(heap);
      while i > 0
        invariant i < |heap| == |old(heap)| && Placed(heap, pos) && Entries() == old(Entries())
        invariant OrderedBut(heap, i) && (i != start || AboveChildren(old(heap), start) ==> AboveChildren(heap, i))
        invariant i == 0 ==> BelowParent(heap, i)
      {
        var parent := Parent(i);
        ParentBefore(heap, i);
        if heap[i].priority < heap[parent].priority {
          NotBelow(heap, i);
          SwapUp(heap, i);
          Swap(i, parent);
          RootHasNoParent(heap);
          i := parent;
        } else {
          break;
        }
      }
      if i != start || AboveChildren(heap, i) {
        OrderedFromBut(heap, i);
        OrderedAnywhere(heap, start);
      }
    }

    /** Lines 132-151. */
    method SiftDown(start: nat)
      requires Placed(heap, pos) && start < |heap| && OrderedBut(heap, start) && BelowParent(heap, start)
      modifies this
      ensures Valid() && Entries() == old(Entries()) && |heap| == |old(heap)|
    {
      hide Placed, OrderedBut, AboveChildren, BelowParent, Ordered, Priorities, Swapped, Parent;
      var i: nat := start;
      while true
        invariant i < |heap| == |old(heap)| && Placed(heap, pos) && Entries() == old(Entries())
        invariant OrderedBut(heap, i) && BelowParent(heap, i)
        decreases |heap| - i
      {
        var n, l, r, smallest := |heap|, 2 * i + 1, 2 * i + 2, i;
        if l < n && heap[l].priority < heap[smallest].priority {
          smallest := l;
        }
        if r < n && heap[r].priority < heap[smallest].priority {
          smallest := r;
        }
        SmallestChild(heap, i, smallest);
        if smallest != i {
          SwapDown(heap, i, smallest);
          Swap(i, smallest);
          i := smallest;
        } else {
          break;
        }
      }
      OrderedFromBut(heap, i);
    }

    /** Lines 51-66. */
    method Push(key: Key, priority: I64)
      requires Valid()
      modifies this
      ensures Valid() && Entries() == old(Entries())[key := priority]
      ensures Entries() == Lowered(old(Entries()), key, priority) <==>
              key !in old(Entries()) || priority <= old(Entries())[key]
    {
      hide Placed, OrderedBut, AboveChildren, BelowParent, Ordered, Priorities;
      if key in pos {
        var i := pos[key];
        KeyAt(heap, pos, key);
        Reprioritized(heap, pos, i, priority);
        if priority < heap[i].priority {
          heap := heap[i := heap[i].(priority := priority)];
          SiftUp(i);
        } else if priority > heap[i].priority {
          heap := heap[i := heap[i].(priority := priority)];
          SiftDown(i);
        } else {
          assert Entries() == Entries()[key := priority];
        }
        return;
      }
      var i := |heap|;
      Grown(heap, pos, Entry(priority, key));
      heap := heap + [Entry(priority, key)];
      pos := pos[key := i];
      SiftUp(i);
    }

    /** Lines 70-79. */
    method DecreaseKey(key: Key, priority: I64) returns (lowered: bool)
      requires Valid()
      modifies this
      ensures Valid()
      ensures lowered <==> key in old(Entries()) && priority < old(Entries())[key]
      ensures Entries() == if lowered then old(Entries())[key := priority] else old(Entries())
    {
      hide Placed, OrderedBut, AboveChildren, BelowParent, Ordered;
      if key in pos {
        var i := pos[key];
        KeyAt(heap, pos, key);
        if priority < heap[i].priority {
          Reprioritized(heap, pos, i, priority);
          heap := heap[i := heap[i].(priority := priority)];
          SiftUp(i);
          return true;
        }
      }
      return false;
    }

    /** Lines 87-101: a least entry leaves. */
    method Pop() returns (r: Option<Entry>)
      requires Valid()
      modifies this
      ensures Valid() && (r.None? <==> old(Entries()) == map[])
      ensures r.None? ==> Entries() == old(Entries())
      ensures r.Some? ==> r.value.key in old(Entries()) && old(Entries())[r.value.key] == r.value.priority
      ensures r.Some? ==> forall k :: k in old(Entries()) ==> r.value.priority <= old(Entries())[k]
      ensures r.Some? ==> Entries() == old(Entries()) - {r.value.key} && |heap| == |old(heap)| - 1
    {
      hide Placed, OrderedBut, AboveChildren, BelowParent, Ordered, Priorities;
      if heap == [] {
        NoEntries(heap, pos);
        return None;
      }
      var top := heap[0];
      RootEntry(heap, pos);
      var last := |heap| - 1;
      TakenOut(heap, pos, 0);
      heap := heap[0 := heap[last]][..last];
      pos := pos - {top.key};
      if heap != [] {
        pos := pos[heap[0].key := 0];
        RootHasNoParent(heap);
        SiftDown(0);
      }
      return Some(top);
    }

    /** Lines 104-118. */
    method Remove(key: Key) returns (r: Option<I64>)
      requires Valid()
      modifies this
      ensures Valid() && r == if key in old(Entries()) then Some(old(Entries())[key]) else None
      ensures Entries() == old(Entries()) - {key}
    {
      hide Placed, OrderedBut, AboveChildren, BelowParent, Ordered, Priorities;
      if key !in pos {
        assert Entries() == Entries() - {key};
        return None;
      }
      var i := pos[key];
      KeyAt(heap, pos, key);
      var last := |heap| - 1;
      r := Some(heap[i].priority);
      TakenOut(heap, pos, i);
      heap := heap[i := heap[last]][..last];
      pos := pos - {key};
      if i < |heap| {
        pos := pos[heap[i].key := i];
        SiftUp(i);
        SiftDown(i);
      }
    }

    /** Lines 160-166: popping everything gives the entries in ascending order. */
    method IntoSorted() returns (out: seq<Entry>)
      requires Valid()
      modifies this
      ensures forall i, j :: 0 <= i < j < |out| ==> out[i].priority <= out[j].priority
      ensures forall i, j :: 0 <= i < j < |out| ==> out[i].key != out[j].key
      ensures forall e: Entry :: e in out <==> e.key in old(Entries()) && old(Entries())[e.key] == e.priority
    {
      hide Placed, OrderedBut, AboveChildren, BelowParent, Ordered, Priorities, Drained;
      ghost var all := Entries();
      out := [];
      StartDrain(all);
      while true
        invariant Valid() && Drained(out, Entries(), all)
        decreases |heap|
      {
        ghost var left := Entries();
        var x := Pop();
        if x.None? {
          break;
        }
        DrainStep(out, left, all, x.value);
        out := out + [x.value];
      }
      DrainedAll(out, all);
    }
  }

  /** The popped entries, ascending and none above what is left; together they are all. */
  ghost predicate Drained(out: seq<Entry>, left: map<Key, I64>, all: map<Key, I64>)
  {
    && (forall i, j :: 0 <= i < j < |out| ==> out[i].priority <= out[j].priority && out[i].key != out[j].key)
    && (forall i, k :: 0 <= i < |out| && k in left ==> out[i].priority <= left[k] && out[i].key != k)
    && (forall e: Entry :: e in out || (e.key in left && left[e.key] == e.priority) <==>
      e.key in all && all[e.key] == e.priority)
  }

  lemma StartDrain(all: map<Key, I64>)
    ensures Drained([], all, all)
  {
  }

  lemma DrainStep(out: seq<Entry>, left: map<Key, I64>, all: map<Key, I64>, x: Entry)
    requires Drained(out, left, all) && x.key in left && left[x.key] == x.priority && forall k :: k in left ==>
             x.priority <= left[k]
    ensures Drained(out + [x], left - {x.key}, all)
  {
    var more, less := out + [x], left - {x.key};
    forall e: Entry
      ensures e in more || (e.key in less && less[e.key] == e.priority) <==> e.key in all && all[e.key] == e.priority
    {
      assert e in more <==> e in out || e == x;
    }
  }

  lemma DrainedAll(out: seq<Entry>, all: map<Key, I64>)
    requires Drained(out, map[], all)
    ensures forall i, j :: 0 <= i < j < |out| ==> out[i].priority <= out[j].priority
    ensures forall i, j :: 0 <= i < j < |out| ==> out[i].key != out[j].key
    ensures forall e: Entry :: e in out <==> e.key in all && all[e.key] == e.priority
  {
  }

  lemma KeyAt(heap: Heap, pos: Positions, key: Key)
    requires Placed(heap, pos) && key in pos
    ensures pos[key] < |heap| && heap[pos[key]].key == key && Priorities(heap, pos)[key] == heap[pos[key]].priority
  {
  }

  lemma NoEntries(heap: Heap, pos: Positions)
    requires Placed(heap, pos) && heap == []
    ensures Priorities(heap, pos) == map[]
  {
  }

  lemma RootEntry(heap: Heap, pos: Positions)
    requires Placed(heap, pos) && Ordered(heap) && heap != []
    ensures var all := Priorities(heap, pos);
            heap[0].key in all && all[heap[0].key] == heap[0].priority && forall k :: k in all ==>
              heap[0].priority <= all[k]
  {
    var all := Priorities(heap, pos);
    forall k | k in all ensures heap[0].priority <= all[k] {
      RootIsLeast(heap, pos[k]);
    }
  }

  /** A new priority in place: only its own order with its neighbours is in doubt. */
  lemma Reprioritized(heap: Heap, pos: Positions, i: nat, priority: I64)
    requires Placed(heap, pos) && Ordered(heap) && i < |heap|
    ensures var heap' := heap[i := heap[i].(priority := priority)];
            Placed(heap', pos) && Priorities(heap', pos) == Priorities(heap, pos)[heap[i].key := priority]
              && OrderedBut(heap', i)
            && (priority <= heap[i].priority ==> AboveChildren(heap', i))
              && (priority >= heap[i].priority ==> BelowParent(heap', i))
  {
    var heap' := heap[i := heap[i].(priority := priority)];
    forall c | 0 < c < |heap| && Parent(c) == i && i > 0 ensures heap[Parent(i)].priority <= heap[c].priority {
      assert heap[Parent(i)].priority <= heap[i].priority <= heap[c].priority;
    }
  }

  lemma Grown(heap: Heap, pos: Positions, e: Entry)
    requires Placed(heap, pos) && Ordered(heap) && e.key !in pos
    ensures var heap', pos' := heap + [e], pos[e.key := |heap|];
            Placed(heap', pos') && Priorities(heap', pos') == Priorities(heap, pos)[e.key := e.priority]
            && OrderedBut(heap', |heap|) && AboveChildren(heap', |heap|)
  {
  }

  /** The last entry in the place of entry `i`. */
  lemma TakenOut(heap: Heap, pos: Positions, i: nat)
    requires Placed(heap, pos) && Ordered(heap) && i < |heap|
    ensures var last, key := |heap| - 1, heap[i].key;
            var heap', pos' := heap[i := heap[last]][..last],
              if i == last then pos - {key} else (pos - {key})[heap[last].key := i];
            Placed(heap', pos') && Priorities(heap', pos') == Priorities(heap, pos) - {key} && OrderedBut(heap', i)
            && (i == last ==> Ordered(heap'))
  {
    TakenOutOrder(heap, i);
    TakenOutPlaces(heap, pos, i);
    hide Placed, OrderedBut, Ordered, Priorities;
  }

  lemma TakenOutOrder(heap: Heap, i: nat)
    requires Ordered(heap) && i < |heap|
    ensures var last := |heap| - 1;
            var heap' := heap[i := heap[last]][..last]; OrderedBut(heap', i) && (i == last ==> Ordered(heap'))
  {
    OrderedAnywhere(heap, i);
  }

  lemma TakenOutPlaces(heap: Heap, pos: Positions, i: nat)
    requires Placed(heap, pos) && i < |heap|
    ensures var last, key := |heap| - 1, heap[i].key;
            var heap', pos' := heap[i := heap[last]][..last],
              if i == last then pos - {key} else (pos - {key})[heap[last].key := i];
            Placed(heap', pos') && Priorities(heap', pos') == Priorities(heap, pos) - {key}
  {
  }

  /** An entry below its parent is below what the parent's children bound. */
  lemma NotBelow(heap: Heap, i: nat)
    requires 0 < i < |heap| && OrderedBut(heap, i) && heap[i].priority < heap[Parent(i)].priority
    ensures AboveChildren(heap, i)
  {
  }

  /** What taking the lower priority would give. */
  function Lowered(entries: map<Key, I64>, key: Key, priority: I64): (r: map<Key, I64>)
    ensures r.Keys == entries.Keys + {key} && forall k :: k in entries && k != key ==> r[k] == entries[k]
    ensures r[key] <= priority && (key in entries ==> r[key] <= entries[key])
    ensures r[key] == priority || (key in entries && r[key] == entries[key])
  {
    entries[key := if key in entries && entries[key] < priority then entries[key] else priority]
  }

  /** Pushing a key that is there with a higher priority raises it. */
  method PushRaises() returns (queue: PriorityQueue)
    ensures fresh(queue) && queue.Valid() && queue.Entries() == map[7 := 2]
            && queue.Entries() != Lowered(map[7 := 1], 7, 2)
  {
    queue := new PriorityQueue();
    queue.Push(7, 1);
    queue.Push(7, 2);
    assert Lowered(map[7 := 1], 7, 2)[7] == 1;
  }
}
