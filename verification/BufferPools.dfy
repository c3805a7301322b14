/** The clock buffer pool (src/bufferpool.rs). The writebacks it returns are applied to a
    store; every page's latest bytes are then in its frame or in the store. */
module BufferPools {
  import opened Integers
  import opened Options
  import Sorting

  type PageId = nat
  type Buffer = seq<Byte>

  datatype Frame = Frame(page: Option<PageId>, data: Buffer, pins: nat, dirty: bool, referenced: bool)

  datatype PoolError = AllFramesPinned | NotResident(page: PageId)

  datatype Writeback = Writeback(page: PageId, data: Buffer)

  datatype PoolStats = PoolStats(hits: nat, misses: nat, evictions: nat, flushes: nat)

  type Frames = seq<Frame>
  type PageTable = map<PageId, nat>
  type Store = map<PageId, Buffer>

  function Zeros(n: nat): (r: Buffer)
    ensures |r| == n
  {
    seq(n, _ => 0)
  }

  function EmptyFrame(pageSize: nat): Frame { Frame(None, Zeros(pageSize), 0, false, false) }

  /** Cut or zero-filled to the page size. */
  function Resized(data: Buffer, n: nat): (r: Buffer)
    ensures |r| == n && forall i :: 0 <= i < n ==> r[i] == if i < |data| then data[i] else 0
  {
    if |data| >= n then data[..n] else data + Zeros(n - |data|)
  }

  // ----- the invariants ------------------------------------------------------------------

  /** The table and the frames name each other, and the free list is the empty frames, each
      once. */
  ghost predicate Wired(frames: Frames, table: PageTable, freeList: seq<nat>)
  {
    && (forall p :: p in table ==> table[p] < |frames| && frames[table[p]].page == Some(p))
    && (forall i :: 0 <= i < |frames| && frames[i].page.Some? ==>
      frames[i].page.value in table && table[frames[i].page.value] == i)
    && (forall i :: 0 <= i < |frames| && frames[i].page.None? ==> frames[i].pins == 0)
    && (forall i :: i in freeList <==> 0 <= i < |frames| && frames[i].page.None?)
    && (forall j, k :: 0 <= j < k < |freeList| ==> freeList[j] != freeList[k])
  }

  /** A page's latest bytes are in its frame; unless the frame is dirty, they are in the
      store too. */
  ghost predicate Held(frames: Frames, table: PageTable, store: Store, latest: Store, p: PageId)
  {
    if p in table && table[p] < |frames| then
      p in latest && frames[table[p]].data == latest[p]
        && (!frames[table[p]].dirty ==> p in store && store[p] == latest[p])
    else
      p in latest ==> p in store && store[p] == latest[p]
  }

  ghost predicate NothingLost(frames: Frames, table: PageTable, store: Store, latest: Store)
  {
    forall p: PageId :: Held(frames, table, store, latest, p)
  }

  class BufferPool {
    const pageSize: nat

    var frames: Frames
    var pageTable: PageTable
    var freeList: seq<nat>
    var clockHand: nat
    var stats: PoolStats

    /** The backing store, with every returned writeback applied. */
    ghost var store: Store
    /** The bytes last installed or written for each page. */
    ghost var latest: Store

    ghost predicate Valid()
      reads this
    {
      && |frames| > 0 && clockHand < |frames|
      && Wired(frames, pageTable, freeList)
      && NothingLost(frames, pageTable, store, latest)
    }

    /** Lines 99-111. */
    constructor (capacity: nat, size: nat)
      ensures Valid() && pageSize == size && latest == map[] && pageTable == map[]
      ensures |frames| == if capacity > 1 then capacity else 1
    {
      var n := if capacity > 1 then capacity else 1;
      pageSize := size;
      frames := seq(n, _ => EmptyFrame(size));
      pageTable := map[];
      freeList := seq(n, i requires 0 <= i < n => n - 1 - i);
      clockHand := 0;
      stats := PoolStats(0, 0, 0, 0);
      store, latest := map[], map[];
      new;
      forall i | 0 <= i < n ensures i in freeList {
        assert freeList[n - 1 - i] == i;
      }
    }

    /** Lines 136-154: the page's bytes become the given ones; a displaced dirty page is
        handed back, and the store is taken to be updated with it. */
    method Install(page: PageId, data: Buffer) returns (r: Result<Option<Writeback>, PoolError>)
      requires Valid()
      modifies this
      ensures Valid() && |frames| == |old(frames)|
      ensures r.Err? ==> r.error == AllFramesPinned && AllPinned(old(frames)) && page !in old(pageTable)
      ensures r.Err? ==> latest == old(latest) && store == old(store) && pageTable == old(pageTable)
      ensures r.Ok? ==>
              page in pageTable
              && latest == old(latest)[page := if page in old(pageTable) then data else Resized(data, pageSize)]
      ensures r.Ok? && page !in old(pageTable) ==>
              frames[pageTable[page]] == Frame(Some(page), Resized(data, pageSize), 1, true, true)
      ensures page in old(pageTable) ==> r == Ok(None) && pageTable == old(pageTable)
      ensures page in old(pageTable) ==>
              frames == old(frames)[pageTable[page] := old(frames)[pageTable[page]].(data := data, dirty := true,
                referenced := true)]
      ensures r.Ok? && r.value.Some? ==>
              r.value.value.page in old(latest) && r.value.value.data == old(latest)[r.value.value.page]
      ensures r.Ok? ==>
              store == if r.value.Some? then old(store)[r.value.value.page := r.value.value.data] else old(store)
      ensures PinnedStay(old(frames), old(pageTable), frames, pageTable, Some(page))
    {
      hide Wired, NothingLost;
      PoolFacts(frames, pageTable, freeList, page);
      if page in pageTable {
        var i := pageTable[page];
        Rewritten(frames, pageTable, freeList, store, latest, i,
          frames[i].(data := data, dirty := true, referenced := true), page, data);
        frames := frames[i := frames[i].(data := data, dirty := true, referenced := true)];
        latest := latest[page := data];
        return Ok(None);
      }
      var acquired := AcquireFrame();
      if acquired.Err? {
        return Err(acquired.error);
      }
      var (i, writeback) := acquired.value;
      var resized := Resized(data, pageSize);
      var frame := Frame(Some(page), resized, 1, true, true);
      Filled(frames, pageTable, freeList, store, latest, i, frame, page);
      EmptyHolds(frames, pageTable, freeList + [i], i);
      frames := frames[i := frame];
      pageTable := pageTable[page := i];
      latest := latest[page := resized];
      return Ok(writeback);
    }

    /** Lines 158-171. */
    method Pin(page: PageId) returns (r: Result<Buffer, PoolError>)
      requires Valid()
      modifies this`frames, this`stats
      ensures Valid() && |frames| == |old(frames)|
      ensures r == if page in pageTable && page in latest then Ok(latest[page]) else Err(NotResident(page))
      ensures page in pageTable ==>
        frames == old(frames)[pageTable[page] :=
          old(frames)[pageTable[page]].(pins := old(frames)[pageTable[page]].pins + 1, referenced := true)]
      ensures page !in pageTable ==> frames == old(frames)
      ensures stats == Counted(old(stats), page in pageTable)
    {
      assert Held(frames, pageTable, store, latest, page);
      if page in pageTable {
        var i := pageTable[page];
        Touched(frames, pageTable, freeList, store, latest, i,
          frames[i].(pins := frames[i].pins + 1, referenced := true));
        frames := frames[i := frames[i].(pins := frames[i].pins + 1, referenced := true)];
        stats := stats.(hits := stats.hits + 1);
        return Ok(frames[i].data);
      }
      stats := stats.(misses := stats.misses + 1);
      return Err(NotResident(page));
    }

    /** Lines 174-188, and the write through the view it returns: `data` is what the caller
        leaves in the page. */
    method PinMut(page: PageId, data: Buffer) returns (r: Result<(), PoolError>)
      requires Valid() && (page in pageTable ==> |data| == |frames[pageTable[page]].data|)
      modifies this`frames, this`stats, this`latest
      ensures Valid() && |frames| == |old(frames)|
      ensures r == if page in pageTable then Ok(()) else Err(NotResident(page))
      ensures latest == if page in pageTable then old(latest)[page := data] else old(latest)
      ensures page in pageTable ==>
        frames == old(frames)[pageTable[page] := Frame(Some(page), data, old(frames)[pageTable[page]].pins + 1,
          true, true)]
      ensures page !in pageTable ==> frames == old(frames)
      ensures stats == Counted(old(stats), page in pageTable)
    {
      if page in pageTable {
        var i := pageTable[page];
        var frame := frames[i].(pins := frames[i].pins + 1, referenced := true, dirty := true, data := data);
        Rewritten(frames, pageTable, freeList, store, latest, i, frame, page, data);
        frames := frames[i := frame];
        latest := latest[page := data];
        stats := stats.(hits := stats.hits + 1);
        return Ok(());
      }
      stats := stats.(misses := stats.misses + 1);
      return Err(NotResident(page));
    }

    /** Lines 191-197: unpinning an unpinned page does nothing. */
    method Unpin(page: PageId)
      requires Valid()
      modifies this`frames
      ensures Valid() && |frames| == |old(frames)|
      ensures page in pageTable ==>
        frames == old(frames)[pageTable[page] :=
          old(frames)[pageTable[page]].(pins := LessOne(old(frames)[pageTable[page]].pins))]
      ensures page !in pageTable ==> frames == old(frames)
    {
      if page in pageTable {
        var i := pageTable[page];
        if frames[i].pins > 0 {
          Touched(frames, pageTable, freeList, store, latest, i, frames[i].(pins := frames[i].pins - 1));
          frames := frames[i := frames[i].(pins := frames[i].pins - 1)];
        } else {
          assert frames[i] == frames[i].(pins := 0);
          assert frames == frames[i := frames[i].(pins := 0)];
        }
      }
    }

    /** Lines 216-227: a flushed page is clean and its bytes are in the store. */
    method Flush(page: PageId) returns (r: Option<Writeback>)
      requires Valid()
      modifies this`frames, this`stats, this`store
      ensures Valid() && |frames| == |old(frames)|
      ensures r.Some? <==> page in pageTable && old(frames)[pageTable[page]].dirty
      ensures r.Some? ==> page in latest && r.value == Writeback(page, latest[page])
      ensures store == if r.Some? then old(store)[page := r.value.data] else old(store)
      ensures page in pageTable ==> page in store && page in latest && store[page] == latest[page]
      ensures page in pageTable ==>
              frames == old(frames)[pageTable[page] := old(frames)[pageTable[page]].(dirty := false)]
      ensures page !in pageTable ==> frames == old(frames)
      ensures stats == if r.Some? then old(stats).(flushes := old(stats).flushes + 1) else old(stats)
    {
      assert Held(frames, pageTable, store, latest, page);
      if page !in pageTable {
        return None;
      }
      var i := pageTable[page];
      if !frames[i].dirty {
        assert frames == frames[i := frames[i].(dirty := false)];
        return None;
      }
      Cleaned(frames, pageTable, freeList, store, latest, i, page);
      frames := frames[i := frames[i].(dirty := false)];
      stats := stats.(flushes := stats.flushes + 1);
      store := store[page := frames[i].data];
      return Some(Writeback(page, frames[i].data));
    }

    /** Lines 200-204. */
    method MarkDirty(page: PageId)
      requires Valid()
      modifies this`frames
      ensures Valid()
      ensures page in pageTable ==>
              frames == old(frames)[pageTable[page] := old(frames)[pageTable[page]].(dirty := true)]
      ensures page !in pageTable ==> frames == old(frames)
    {
      if page in pageTable {
        var i := pageTable[page];
        Soiled(frames, pageTable, freeList, store, latest, i);
        frames := frames[i := frames[i].(dirty := true)];
      }
    }

    /** Lines 230-240: every resident page is clean afterwards, and the writebacks are those
        of the dirty ones, in page order. */
    method FlushAll() returns (out: seq<Writeback>)
      requires Valid()
      modifies this`frames, this`stats, this`store
      ensures Valid() && |frames| == |old(frames)|
      ensures forall i :: 0 <= i < |frames| && frames[i].page.Some? ==> frames[i] == old(frames)[i].(dirty := false)
      ensures forall i :: 0 <= i < |frames| && frames[i].page.None? ==> frames[i] == old(frames)[i]
      ensures forall p :: p in pageTable ==> p in store && p in latest && store[p] == latest[p]
      ensures forall w :: w in out <==>
              WasDirty(old(frames), pageTable, w.page) && w.page in latest && w.data == latest[w.page]
      ensures forall j, k :: 0 <= j < k < |out| ==> out[j].page < out[k].page
    {
      hide Wired, NothingLost, Held, Sorting.Sort, AllFlushed, Returned;
      var ids := SortedPages();
      NoneFlushed(frames, pageTable, store, latest, ids);
      out := [];
      for n := 0 to |ids|
        invariant Valid() && AllFlushed(old(frames), frames, pageTable, store, latest, ids[..n])
        invariant Returned(out, old(frames), pageTable, latest, ids[..n])
      {
        ghost var before, stored := frames, store;
        TableFrames(frames, pageTable, freeList);
        StillDirty(old(frames), frames, pageTable, freeList, store, latest, ids, n);
        var flushed := Flush(ids[n]);
        FlushedMore(old(frames), before, frames, pageTable, stored, store, latest, ids, n);
        ReturnedMore(out, old(frames), pageTable, latest, ids, n, flushed);
        if flushed.Some? {
          out := out + [flushed.value];
        }
      }
      assert ids[..|ids|] == ids;
      EveryFrame(old(frames), frames, pageTable, freeList, store, latest, ids);
      ReturnedAll(out, old(frames), pageTable, latest, ids);
    }

    /** The resident pages, ascending. */
    method SortedPages() returns (ids: seq<PageId>)
      ensures forall p :: p in ids <==> p in pageTable
      ensures forall j, k :: 0 <= j < k < |ids| ==> ids[j] < ids[k]
    {
      var keys: seq<PageId> := [];
      var todo := pageTable.Keys;
      while todo != {}
        invariant todo <= pageTable.Keys && forall p :: p in keys <==> p in pageTable && p !in todo
        invariant forall j, k :: 0 <= j < k < |keys| ==> keys[j] != keys[k]
        decreases |todo|
      {
        var p :| p in todo;
        todo := todo - {p};
        keys := keys + [p];
      }
      Sorting.SortDistinct(keys);
      ids := Sorting.Sort(keys);
    }

    /** Lines 243-262: a free frame, or an unpinned one emptied. */
    method AcquireFrame() returns (r: Result<(nat, Option<Writeback>), PoolError>)
      requires Valid()
      modifies this
      ensures |frames| == |old(frames)| && clockHand < |frames| && latest == old(latest)
      ensures r.Err? ==>
              Valid() && r.error == AllFramesPinned && AllPinned(old(frames)) && pageTable == old(pageTable)
              && store == old(store)
      ensures PinnedStay(old(frames), old(pageTable), frames, pageTable, None)
      ensures r.Ok? ==> r.value.0 < |frames| && frames[r.value.0].page.None?
      ensures r.Ok? ==> r.value.0 !in freeList && Wired(frames, pageTable, freeList + [r.value.0])
      ensures r.Ok? ==> NothingLost(frames, pageTable, store, latest) && forall p :: p in pageTable ==>
              p in old(pageTable)
      ensures r.Ok? ==>
              store == if r.value.1.Some? then old(store)[r.value.1.value.page := r.value.1.value.data] else old(store)
      ensures r.Ok? && r.value.1.Some? ==>
              r.value.1.value.page in latest && r.value.1.value.data == latest[r.value.1.value.page]
      ensures |old(freeList)| > 0 ==>
              r.Ok? && r.value == (old(freeList)[|old(freeList)| - 1], None) && pageTable == old(pageTable)
      ensures r.Ok? && |old(freeList)| == 0 ==> IsVictim(old(frames), old(clockHand), r.value.0)
    {
      hide Wired, NothingLost, OnlyReferenced, AllPinned, PinnedStay, IsVictim;
      if |freeList| > 0 {
        var i := freeList[|freeList| - 1];
        TakeFree(frames, pageTable, freeList);
        SamePins(frames, frames, pageTable);
        freeList := freeList[..|freeList| - 1];
        return Ok((i, None));
      }
      var chosen := ChooseVictim();
      SamePins(old(frames), frames, pageTable);
      if chosen.Err? {
        return Err(chosen.error);
      }
      var victim := chosen.value;
      VictimFound(old(frames), frames, old(clockHand), victim);
      NoneFree(frames, pageTable, victim);
      var p := frames[victim].page.value;
      var writeback: Option<Writeback> := None;
      Evicted(frames, pageTable, freeList, store, latest, victim, EmptyFrame(pageSize));
      VictimPins(old(frames), frames, pageTable, freeList, victim, EmptyFrame(pageSize));
      if frames[victim].dirty {
        writeback := Some(Writeback(p, frames[victim].data));
        stats := stats.(flushes := stats.flushes + 1);
        store := store[p := frames[victim].data];
      }
      pageTable := pageTable - {p};
      frames := frames[victim := EmptyFrame(pageSize)];
      stats := stats.(evictions := stats.evictions + 1);
      return Ok((victim, writeback));
    }

    /** Lines 266-284, the second-chance rule: the first frame from the hand on that is not
        pinned and was not referenced, or, when there is none, the first that is not pinned.
        The unpinned frames passed on the way lose their reference bits. */
    method ChooseVictim() returns (r: Result<nat, PoolError>)
      requires Valid()
      modifies this`frames, this`clockHand
      ensures Valid() && |frames| == |old(frames)|
      ensures OnlyReferenced(old(frames), frames)
      ensures r.Err? ==> r.error == AllFramesPinned
      ensures r.Err? <==> AllPinned(old(frames))
      ensures r.Ok? ==> r.value < |frames| && frames[r.value].pins == 0 && clockHand == Next(r.value, |frames|)
      ensures r.Ok? ==> exists k :: Chosen(old(frames), frames, old(clockHand), k, r.value)
    {
      hide Wired, NothingLost, OnlyReferenced, Cleared, NoneBefore, AllPinned, Hand, Candidate;
      ghost var start, before := clockHand, frames;
      var n := |frames|;
      var swept := 0;
      StartSweep(frames, start, n);
      while swept < 2 * n
        invariant 0 <= swept <= 2 * n && n == |frames| && start < n && clockHand == Hand(start, swept, n)
        invariant Valid() && Cleared(before, frames, start, swept, n) && NoneBefore(before, start, swept, n)
      {
        var i := clockHand;
        NextIsMod(i, n);
        HandStep(start, swept, n);
        clockHand := (clockHand + 1) % n;
        SweepStep(before, frames, start, swept, n);
        if frames[i].pins > 0 {
          swept := swept + 1;
          continue;
        }
        if frames[i].referenced {
          Touched(frames, pageTable, freeList, store, latest, i, frames[i].(referenced := false));
          frames := frames[i := frames[i].(referenced := false)];
          swept := swept + 1;
          continue;
        }
        OnlyBits(before, frames, start, swept, n);
        SomeUnpinned(before, frames, i);
        assert Chosen(before, frames, start, swept, i);
        return Ok(i);
      }
      OnlyBits(before, frames, start, 2 * n, n);
      SweptTwice(before, start, n);
      return Err(AllFramesPinned);
    }
  }

  function Counted(stats: PoolStats, hit: bool): (r: PoolStats)
    ensures r.hits + r.misses == stats.hits + stats.misses + 1 && (r.hits > stats.hits <==> hit)
    ensures r.hits >= stats.hits && r.misses >= stats.misses
  {
    if hit then stats.(hits := stats.hits + 1) else stats.(misses := stats.misses + 1)
  }

  function LessOne(n: nat): (r: nat)
    ensures n > 0 ==> r + 1 == n
    ensures n == 0 ==> r == 0
  {
    if n > 0 then n - 1 else 0
  }

  // ----- pins -----------------------------------------------------------------------------

  ghost predicate AllPinned(frames: Frames)
  {
    forall i :: 0 <= i < |frames| ==> frames[i].pins > 0
  }

  /** Only reference bits changed. */
  ghost predicate OnlyReferenced(before: Frames, after: Frames)
  {
    |after| == |before| && forall i :: 0 <= i < |before| ==> after[i] == before[i].(referenced := after[i].referenced)
  }

  /** Pinned pages other than `page` keep their frame, bytes and pins. */
  ghost predicate PinnedStay(before: Frames, table: PageTable, after: Frames, table': PageTable, page: Option<PageId>)
  {
    forall p :: p in table && Some(p) != page && table[p] < |before| && before[table[p]].pins > 0 ==>
      p in table' && table'[p] == table[p] && table[p] < |after|
      && after[table[p]].data == before[table[p]].data && after[table[p]].pins == before[table[p]].pins
  }

  lemma SamePins(before: Frames, after: Frames, table: PageTable)
    requires OnlyReferenced(before, after) || before == after
    ensures PinnedStay(before, table, after, table, None)
  {
  }

  lemma TakeFree(frames: Frames, table: PageTable, freeList: seq<nat>)
    requires Wired(frames, table, freeList) && freeList != []
    ensures var i := freeList[|freeList| - 1];
            i < |frames| && frames[i].page.None? && i !in freeList[..|freeList| - 1]
              && Wired(frames, table, freeList[..|freeList| - 1] + [i])
  {
    var i := freeList[|freeList| - 1];
    assert i in freeList;
    assert freeList == freeList[..|freeList| - 1] + [i];
  }

  lemma NoneFree(frames: Frames, table: PageTable, i: nat)
    requires Wired(frames, table, []) && i < |frames|
    ensures frames[i].page.Some?
  {
  }

  /** Evicting an unpinned frame leaves the pinned pages alone. */
  lemma VictimPins(before: Frames, frames: Frames, table: PageTable, freeList: seq<nat>, i: nat, empty: Frame)
    requires OnlyReferenced(before, frames) && Wired(frames, table, freeList) && i < |frames| && frames[i].page.Some?
             && frames[i].pins == 0
    ensures PinnedStay(before, table, frames[i := empty], table - {frames[i].page.value}, None)
  {
  }

  // ----- the clock hand ---------------------------------------------------------------------

  function Next(i: nat, n: nat): (r: nat)
    requires i < n
    ensures r < n
  {
    if i + 1 == n then 0 else i + 1
  }

  /** Where the hand is after `k` steps. */
  function Hand(start: nat, k: nat, n: nat): (r: nat)
    requires start < n
    ensures r < n
  {
    if k == 0 then start else Next(Hand(start, k - 1, n), n)
  }

  /** At its `j`-th step the hand may stop: the frame there is unpinned and was not
      referenced, or is passed for the second time. */
  ghost predicate Candidate(before: Frames, start: nat, j: nat, n: nat)
    requires start < n == |before|
  {
    var f := before[Hand(start, j, n)];
    f.pins == 0 && (!f.referenced || j >= n)
  }

  ghost predicate NoneBefore(before: Frames, start: nat, k: nat, n: nat)
    requires start < n == |before|
  {
    forall j: nat :: j < k ==> !Candidate(before, start, j, n)
  }

  /** The unpinned frames of the first `k` steps have lost their reference bits, and nothing
      else has changed. */
  ghost predicate Cleared(before: Frames, frames: Frames, start: nat, k: nat, n: nat)
    requires start < n
  {
    && |before| == |frames| == n
    && forall j: nat :: j < n ==>
      frames[Hand(start, j, n)] == AfterPass(before[Hand(start, j, n)], j < k)
  }

  ghost function AfterPass(f: Frame, passed: bool): Frame
  {
    if passed && f.pins == 0 then f.(referenced := false) else f
  }

  /** The hand stops at step `k`, at frame `i`, and not before. */
  ghost predicate Chosen(before: Frames, after: Frames, start: nat, k: nat, i: nat)
  {
    && start < |before| && i == Hand(start, k, |before|)
    && Candidate(before, start, k, |before|) && NoneBefore(before, start, k, |before|)
    && Cleared(before, after, start, k, |before|)
  }

  ghost predicate IsVictim(before: Frames, start: nat, i: nat)
  {
    exists after, k :: Chosen(before, after, start, k, i)
  }

  lemma VictimFound(before: Frames, after: Frames, start: nat, i: nat)
    requires exists k :: Chosen(before, after, start, k, i)
    ensures IsVictim(before, start, i)
  {
  }

  lemma StartSweep(frames: Frames, start: nat, n: nat)
    requires start < n == |frames|
    ensures Cleared(frames, frames, start, 0, n) && NoneBefore(frames, start, 0, n) && Hand(start, 0, n) == start
  {
  }

  lemma HandStep(start: nat, k: nat, n: nat)
    requires start < n
    ensures Hand(start, k + 1, n) == Next(Hand(start, k, n), n)
  {
  }

  /** One more step, whichever way it goes. */
  lemma SweepStep(before: Frames, frames: Frames, start: nat, k: nat, n: nat)
    requires start < n == |before| && k < 2 * n && Cleared(before, frames, start, k, n)
             && NoneBefore(before, start, k, n)
    ensures |frames| == n
    ensures var i := Hand(start, k, n);
            if frames[i].pins > 0 then Cleared(before, frames, start, k + 1, n) && NoneBefore(before, start, k + 1, n)
            else if frames[i].referenced then
              Cleared(before, frames[i := frames[i].(referenced := false)], start, k + 1, n)
                && NoneBefore(before, start, k + 1, n)
            else Candidate(before, start, k, n)
  {
    var i := Hand(start, k, n);
    var first := if k < n then k else k - n;
    if k >= n {
      HandWraps(start, first, n);
    }
    assert frames[i] == AfterPass(before[i], first < k);
    forall j: nat | j < n && j != first ensures Hand(start, j, n) != i {
      HandAt(start, j, n);
      HandAt(start, first, n);
    }
    hide Hand;
  }

  /** Sweeping changes reference bits only. */
  lemma OnlyBits(before: Frames, frames: Frames, start: nat, k: nat, n: nat)
    requires start < n && Cleared(before, frames, start, k, n)
    ensures OnlyReferenced(before, frames)
  {
    forall i | 0 <= i < n ensures frames[i] == before[i].(referenced := frames[i].referenced) {
      var j := Reaches(start, i, n);
    }
  }

  lemma SomeUnpinned(before: Frames, frames: Frames, i: nat)
    requires OnlyReferenced(before, frames) && i < |frames| && frames[i].pins == 0
    ensures !AllPinned(before)
  {
    assert before[i].pins == 0;
  }

  lemma SweptTwice(before: Frames, start: nat, n: nat)
    requires start < n == |before| && NoneBefore(before, start, 2 * n, n)
    ensures AllPinned(before)
  {
    forall i | 0 <= i < n ensures before[i].pins > 0 {
      var k := Reaches(start, i, n);
      HandWraps(start, k, n);
      assert !Candidate(before, start, n + k, n);
    }
  }

  lemma NextIsMod(i: nat, n: nat)
    requires i < n
    ensures (i + 1) % n == Next(i, n)
  {
  }

  lemma {:induction false} HandAt(start: nat, k: nat, n: nat)
    requires start < n && k <= n
    ensures Hand(start, k, n) == if start + k < n then start + k else start + k - n
  {
    if k > 0 {
      HandAt(start, k - 1, n);
    }
  }

  lemma {:induction false} HandWraps(start: nat, k: nat, n: nat)
    requires start < n
    ensures Hand(start, n + k, n) == Hand(start, k, n)
  {
    if k == 0 {
      HandAt(start, n, n);
    } else {
      HandWraps(start, k - 1, n);
    }
  }

  /** One sweep reaches every frame. */
  lemma Reaches(start: nat, i: nat, n: nat) returns (k: nat)
    requires start < n && i < n
    ensures k < n && Hand(start, k, n) == i
  {
    k := if i >= start then i - start else n + i - start;
    HandAt(start, k, n);
  }

  // ----- steps -----------------------------------------------------------------------------------

  /** Changing a frame's pins and bits only. */
  lemma Touched(frames: Frames, table: PageTable, freeList: seq<nat>, store: Store, latest: Store, i: nat, frame: Frame)
    requires Wired(frames, table, freeList) && NothingLost(frames, table, store, latest) && i < |frames|
    requires frame.page == frames[i].page && frame.data == frames[i].data && frame.dirty == frames[i].dirty
    requires frame.page.None? ==> frame.pins == 0
    ensures Wired(frames[i := frame], table, freeList) && NothingLost(frames[i := frame], table, store, latest)
  {
    var after := frames[i := frame];
    forall p: PageId ensures Held(after, table, store, latest, p) {
      assert Held(frames, table, store, latest, p);
    }
  }

  /** A resident page taken to be dirty. */
  lemma Soiled(frames: Frames, table: PageTable, freeList: seq<nat>, store: Store, latest: Store, i: nat)
    requires Wired(frames, table, freeList) && NothingLost(frames, table, store, latest) && i < |frames|
    ensures Wired(frames[i := frames[i].(dirty := true)], table, freeList)
    ensures NothingLost(frames[i := frames[i].(dirty := true)], table, store, latest)
  {
    var after := frames[i := frames[i].(dirty := true)];
    forall p: PageId ensures Held(after, table, store, latest, p) {
      assert Held(frames, table, store, latest, p);
    }
  }

  // ----- flushing everything -----------------------------------------------------------------

  ghost predicate WasDirty(before: Frames, table: PageTable, p: PageId)
  {
    p in table && table[p] < |before| && before[table[p]].dirty
  }

  ghost predicate AtPage(table: PageTable, ids: seq<PageId>, i: nat)
  {
    exists p :: p in ids && p in table && table[p] == i
  }

  /** The listed pages are clean and stored, and the others' frames are as they were. */
  ghost predicate AllFlushed(before: Frames, frames: Frames, table: PageTable, store: Store, latest: Store,
          ids: seq<PageId>)
  {
    && |frames| == |before|
    && (forall i: nat :: i < |frames| ==>
      frames[i] == if AtPage(table, ids, i) then before[i].(dirty := false) else before[i])
    && (forall p :: p in ids ==> p in store && p in latest && store[p] == latest[p])
  }

  lemma NoneFlushed(frames: Frames, table: PageTable, store: Store, latest: Store, ids: seq<PageId>)
    ensures AllFlushed(frames, frames, table, store, latest, ids[..0]) && Returned([], frames, table, latest, ids[..0])
  {
  }

  /** The writebacks of the listed pages that were dirty. */
  ghost predicate Returned(out: seq<Writeback>, before: Frames, table: PageTable, latest: Store, ids: seq<PageId>)
  {
    && (forall w :: w in out <==>
      w.page in ids && WasDirty(before, table, w.page) && w.page in latest && w.data == latest[w.page])
    && (forall j, k :: 0 <= j < k < |out| ==> out[j].page < out[k].page)
  }

  lemma ReturnedMore(out: seq<Writeback>, before: Frames, table: PageTable, latest: Store, ids: seq<PageId>, n: nat,
          flushed: Option<Writeback>)
    requires n < |ids| && Returned(out, before, table, latest, ids[..n]) && forall j, k :: 0 <= j < k < |ids| ==>
             ids[j] < ids[k]
    requires flushed.Some? <==> WasDirty(before, table, ids[n])
    requires flushed.Some? ==> ids[n] in latest && flushed.value == Writeback(ids[n], latest[ids[n]])
    ensures Returned(if flushed.Some? then out + [flushed.value] else out, before, table, latest, ids[..n + 1])
  {
    hide WasDirty;
    assert ids[..n + 1] == ids[..n] + [ids[n]];
    forall j | 0 <= j < |out| ensures out[j].page < ids[n] {
      assert out[j] in out;
    }
  }

  lemma ReturnedAll(out: seq<Writeback>, before: Frames, table: PageTable, latest: Store, ids: seq<PageId>)
    requires Returned(out, before, table, latest, ids) && forall p :: p in ids <==> p in table
    ensures forall w :: w in out <==> WasDirty(before, table, w.page) && w.page in latest && w.data == latest[w.page]
    ensures forall j, k :: 0 <= j < k < |out| ==> out[j].page < out[k].page
  {
  }

  /** A page not yet flushed is dirty as it was. */
  lemma StillDirty(before: Frames, frames: Frames, table: PageTable, freeList: seq<nat>, store: Store, latest: Store,
          ids: seq<PageId>, n: nat)
    requires n < |ids| && Wired(frames, table, freeList) && AllFlushed(before, frames, table, store, latest, ids[..n])
    requires ids[n] in table && forall j, k :: 0 <= j < k < |ids| ==> ids[j] < ids[k]
    ensures table[ids[n]] < |frames| && (frames[table[ids[n]]].dirty <==> WasDirty(before, table, ids[n]))
  {
    forall p | p in ids[..n] && p in table ensures table[p] != table[ids[n]] {
      TableFrames(frames, table, freeList);
    }
  }

  lemma TableFrames(frames: Frames, table: PageTable, freeList: seq<nat>)
    requires Wired(frames, table, freeList)
    ensures forall p :: p in table ==> table[p] < |frames|
    ensures forall p, q :: p in table && q in table && table[p] == table[q] ==> p == q
  {
  }

  lemma FlushedMore(before: Frames, frames: Frames, after: Frames, table: PageTable, store: Store, store': Store,
          latest: Store, ids: seq<PageId>, n: nat)
    requires n < |ids| && AllFlushed(before, frames, table, store, latest, ids[..n])
    requires ids[n] in table && table[ids[n]] < |frames|
             && after == frames[table[ids[n]] := frames[table[ids[n]]].(dirty := false)]
    requires ids[n] in store' && ids[n] in latest && store'[ids[n]] == latest[ids[n]]
    requires forall p :: p in store && p != ids[n] ==> p in store' && store'[p] == store[p]
    ensures AllFlushed(before, after, table, store', latest, ids[..n + 1])
  {
    assert ids[..n + 1] == ids[..n] + [ids[n]];
    forall i: nat | i < |after|
      ensures AtPage(table, ids[..n + 1], i) <==> AtPage(table, ids[..n], i) || i == table[ids[n]]
    {
      if AtPage(table, ids[..n], i) {
        var p :| p in ids[..n] && p in table && table[p] == i;
        assert p in ids[..n + 1];
      }
      if i == table[ids[n]] {
        assert ids[n] in ids[..n + 1];
      }
    }
  }

  lemma EveryFrame(before: Frames, frames: Frames, table: PageTable, freeList: seq<nat>, store: Store, latest: Store,
          ids: seq<PageId>)
    requires Wired(frames, table, freeList) && AllFlushed(before, frames, table, store, latest, ids) && forall p ::
             p in ids <==> p in table
    ensures |frames| == |before|
    ensures forall i :: 0 <= i < |frames| && frames[i].page.Some? ==> frames[i] == before[i].(dirty := false)
    ensures forall i :: 0 <= i < |frames| && frames[i].page.None? ==> frames[i] == before[i]
    ensures forall p :: p in table ==> p in store && p in latest && store[p] == latest[p]
  {
    forall i | 0 <= i < |frames| ensures AtPage(table, ids, i) <==> frames[i].page.Some? {
      if frames[i].page.Some? {
        assert frames[i].page.value in ids;
      }
    }
  }

  /** New bytes in a resident page's frame. */
  lemma EmptyHolds(frames: Frames, table: PageTable, freeList: seq<nat>, i: nat)
    requires Wired(frames, table, freeList) && i < |frames| && frames[i].page.None?
    ensures forall p :: p in table ==> table[p] != i
  {
  }

  lemma PoolFacts(frames: Frames, table: PageTable, freeList: seq<nat>, page: PageId)
    requires Wired(frames, table, freeList)
    ensures page in table ==> table[page] < |frames| && frames[table[page]].page == Some(page)
    ensures page in table ==> forall p :: p in table && p != page ==> table[p] != table[page]
  {
  }

  lemma Rewritten(frames: Frames, table: PageTable, freeList: seq<nat>, store: Store, latest: Store, i: nat,
          frame: Frame, page: PageId, data: Buffer)
    requires Wired(frames, table, freeList) && NothingLost(frames, table, store, latest)
    requires page in table && table[page] == i && frame.page == Some(page) && frame.data == data && frame.dirty
    ensures i < |frames| && Wired(frames[i := frame], table, freeList)
    ensures NothingLost(frames[i := frame], table, store, latest[page := data])
  {
    var after, newest := frames[i := frame], latest[page := data];
    forall p: PageId ensures Held(after, table, store, newest, p) {
      assert Held(frames, table, store, latest, p);
    }
  }

  /** A page put into an empty frame taken off the free list. */
  lemma Filled(frames: Frames, table: PageTable, freeList: seq<nat>, store: Store, latest: Store, i: nat, frame: Frame,
          page: PageId)
    requires i < |frames| && frames[i].page.None? && i !in freeList && page !in table
    requires Wired(frames, table, freeList + [i]) && NothingLost(frames, table, store, latest)
    requires frame.page == Some(page) && frame.dirty
    ensures Wired(frames[i := frame], table[page := i], freeList)
    ensures NothingLost(frames[i := frame], table[page := i], store, latest[page := frame.data])
  {
    var all := freeList + [i];
    assert forall j :: j in freeList ==> j in all;
    assert forall j, k :: 0 <= j < k < |freeList| ==> freeList[j] == all[j] && freeList[k] == all[k];
    var after, table', newest := frames[i := frame], table[page := i], latest[page := frame.data];
    forall p: PageId ensures Held(after, table', store, newest, p) {
      assert Held(frames, table, store, latest, p);
    }
  }

  /** A page written back: its frame is clean and the store has its bytes. */
  lemma Cleaned(frames: Frames, table: PageTable, freeList: seq<nat>, store: Store, latest: Store, i: nat, page: PageId)
    requires Wired(frames, table, freeList) && NothingLost(frames, table, store, latest) && page in table
             && table[page] == i
    ensures i < |frames| && Wired(frames[i := frames[i].(dirty := false)], table, freeList)
    ensures NothingLost(frames[i := frames[i].(dirty := false)], table, store[page := frames[i].data], latest)
  {
    var after, stored := frames[i := frames[i].(dirty := false)], store[page := frames[i].data];
    forall p: PageId ensures Held(after, table, stored, latest, p) {
      assert Held(frames, table, store, latest, p);
    }
  }

  /** An unpinned page evicted, written back if dirty. */
  lemma Evicted(frames: Frames, table: PageTable, freeList: seq<nat>, store: Store, latest: Store, i: nat, empty: Frame)
    requires Wired(frames, table, freeList) && NothingLost(frames, table, store, latest) && i < |frames|
             && frames[i].page.Some?
    requires empty.page.None? && empty.pins == 0
    ensures var p := frames[i].page.value;
            p in latest && frames[i].data == latest[p] && Wired(frames[i := empty], table - {p}, freeList + [i])
            && NothingLost(frames[i := empty], table - {p},
              if frames[i].dirty then store[p := frames[i].data] else store, latest)
  {
    var p := frames[i].page.value;
    assert Held(frames, table, store, latest, p);
    var after, table', stored := frames[i := empty], table - {p},
      if frames[i].dirty then store[p := frames[i].data] else store;
    forall q: PageId ensures Held(after, table', stored, latest, q) {
      assert Held(frames, table, store, latest, q);
    }
  }
}
