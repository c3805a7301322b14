/** Copy-on-write page snapshots (src/snapshot.rs). A ghost history keeps every version ever
    written; reads through live snapshots are proved against it, so they never change. */
module Snapshots {
  import opened Options
  import opened Integers

  type Version = nat
  type PageId = nat
  type Buffer = seq<Byte>

  datatype PageVersion = PageVersion(version: Version, data: Buffer)

  type Chain = seq<PageVersion>
  type History = map<PageId, Chain>

  datatype Snapshot = Snapshot(version: Version)

  ghost predicate Ascending(chain: Chain)
  {
    forall i, j :: 0 <= i < j < |chain| ==> chain[i].version < chain[j].version
  }

  /** How many leading versions are at or before `v`. */
  function Seen(chain: Chain, v: Version): (n: nat)
    ensures n <= |chain|
  {
    if chain == [] || chain[0].version > v then 0 else 1 + Seen(chain[1..], v)
  }

  lemma {:induction false} SeenSplits(chain: Chain, v: Version)
    requires Ascending(chain)
    ensures forall i :: 0 <= i < Seen(chain, v) ==> chain[i].version <= v
    ensures forall i :: Seen(chain, v) <= i < |chain| ==> v < chain[i].version
  {
    if chain != [] && chain[0].version <= v {
      SeenSplits(chain[1..], v);
    }
  }

  lemma SeenIs(chain: Chain, v: Version, n: nat)
    requires Ascending(chain) && n <= |chain|
    requires forall i :: 0 <= i < n ==> chain[i].version <= v
    requires forall i :: n <= i < |chain| ==> v < chain[i].version
    ensures Seen(chain, v) == n
  {
    SeenSplits(chain, v);
    var s := Seen(chain, v);
    var x := if s < |chain| then chain[s].version else 0;
    var y := if n < |chain| then chain[n].version else 0;
  }

  function ChainOf(pages: History, page: PageId): Chain
  {
    if page in pages then pages[page] else []
  }

  /** What a page held as of a version. */
  function AsOf(history: History, page: PageId, v: Version): Option<Buffer>
  {
    var chain := ChainOf(history, page);
    if Seen(chain, v) == 0 then None else Some(chain[Seen(chain, v) - 1].data)
  }

  /** The stored chain is the end of the page's history, from a version on that every live
      snapshot and the current version have reached. */
  ghost predicate Trimmed(stored: Chain, full: Chain, snapshots: map<Version, nat>, current: Version)
  {
    && |stored| <= |full| && stored == full[|full| - |stored|..]
    && (|stored| < |full| ==> stored != [] && stored[0].version <= current && forall v :: v in snapshots ==>
      stored[0].version <= v)
  }

  /** A page's stored chain and history are in order. */
  ghost predicate ChainOk(stored: Chain, full: Chain, snapshots: map<Version, nat>, current: Version)
  {
    Trimmed(stored, full, snapshots, current) && Ascending(full) && full != [] && InTime(full, current)
  }

  ghost predicate ChainsOk(pages: History, history: History, snapshots: map<Version, nat>, current: Version)
  {
    pages.Keys == history.Keys && forall p :: p in pages ==> ChainOk(pages[p], history[p], snapshots, current)
  }

  class SnapshotStore {
    var pages: History
    var current: Version
    /** Reference counts of the live snapshots. */
    var snapshots: map<Version, nat>

    ghost var history: History

    ghost predicate Valid()
      reads this
    {
      ChainsOk(pages, history, snapshots, current) && forall v :: v in snapshots ==> snapshots[v] > 0 && v <= current
    }

    constructor ()
      ensures Valid() && history == map[] && snapshots == map[] && current == 0
    {
      pages, history, snapshots := map[], map[], map[];
      current := 0;
    }

    /** Lines 64-72: a new version at the end; nothing at or before the old current version
        changes. */
    method Write(page: PageId, data: Buffer) returns (v: Version)
      requires Valid()
      modifies this`pages, this`current, this`history
      ensures Valid() && v == current == old(current) + 1
      ensures history == old(history)[page := ChainOf(old(history), page) + [PageVersion(v, data)]]
      ensures AsOf(history, page, v) == Some(data)
      ensures forall p: PageId, u: Version :: u <= old(current) ==> AsOf(history, p, u) == AsOf(old(history), p, u)
    {
      hide ChainsOk, AsOf;
      Written(pages, history, snapshots, current, page, PageVersion(current + 1, data));
      current := current + 1;
      v := current;
      pages := pages[page := ChainOf(pages, page) + [PageVersion(v, data)]];
      history := history[page := ChainOf(history, page) + [PageVersion(v, data)]];
    }

    /** Lines 75-80. */
    method Take() returns (snap: Snapshot)
      requires Valid()
      modifies this`snapshots
      ensures Valid() && snap.version == current && snap.version in snapshots
      ensures snapshots == old(snapshots)[current :=
                (if current in old(snapshots) then old(snapshots)[current] else 0) + 1]
    {
      hide ChainsOk;
      Retagged(pages, history, snapshots, current,
        snapshots[current := (if current in snapshots then snapshots[current] else 0) + 1]);
      snapshots := snapshots[current := (if current in snapshots then snapshots[current] else 0) + 1];
      snap := Snapshot(current);
    }

    /** Lines 83-90: the last reference ends the snapshot. */
    method Release(snap: Snapshot)
      requires Valid()
      modifies this`snapshots
      ensures Valid()
      ensures snap.version !in old(snapshots) ==> snapshots == old(snapshots)
      ensures snap.version in old(snapshots) ==>
        snapshots == if old(snapshots)[snap.version] == 1 then old(snapshots) - {snap.version}
                     else old(snapshots)[snap.version := old(snapshots)[snap.version] - 1]
    {
      var v := snap.version;
      if v in snapshots {
        var next := if snapshots[v] == 1 then snapshots - {v} else snapshots[v := snapshots[v] - 1];
        Retagged(pages, history, snapshots, current, next);
        snapshots := next;
      }
    }

    /** Lines 94-112: through a live snapshot, or at the current version, a read returns
        what the history has, whatever has been written or collected since. */
    method Read(snap: Snapshot, page: PageId) returns (r: Option<Buffer>)
      requires Valid()
      ensures r == AsOf(pages, page, snap.version)
      ensures snap.version in snapshots || snap.version >= current ==> r == AsOf(history, page, snap.version)
    {
      hide ChainsOk, Ascending;
      StoredView(pages, history, snapshots, current, page, snap.version);
      if page !in pages {
        return None;
      }
      var chain := pages[page];
      StoredAscends(pages, history, snapshots, current, page);
      SeenSplits(chain, snap.version);
      var lo, hi := 0, |chain|;
      while lo < hi
        invariant 0 <= lo <= Seen(chain, snap.version) <= hi <= |chain|
      {
        var mid := (lo + hi) / 2;
        if chain[mid].version <= snap.version {
          lo := mid + 1;
        } else {
          hi := mid;
        }
      }
      return if lo == 0 then None else Some(chain[lo - 1].data);
    }

    /** Lines 120-122. */
    method OldestSnapshot() returns (v: Version)
      requires Valid()
      ensures v <= current && forall u :: u in snapshots ==> v <= u
      ensures v == current || v in snapshots
    {
      v := current;
      for u := 0 to current
        invariant v <= current && (v == current || v in snapshots)
        invariant forall w: nat :: w < u && w in snapshots ==> v <= w
      {
        if u in snapshots && u < v {
          v := u;
        }
      }
    }

    /** Lines 130-141, for one page. */
    method Trim(p: PageId, watermark: Version) returns (keep: nat)
      requires Valid() && p in pages && watermark <= current && forall v :: v in snapshots ==> watermark <= v
      modifies this`pages
      ensures Valid() && keep <= |old(pages)[p]| && pages == old(pages)[p := old(pages)[p][keep..]]
      ensures Oldest(pages[p], watermark)
    {
      hide ChainsOk, AsOf, Oldest, Ascending;
      var chain := pages[p];
      StoredAscends(pages, history, snapshots, current, p);
      keep := KeepFrom(chain, watermark);
      Collected(pages, history, snapshots, current, p, watermark, keep);
      pages := pages[p := chain[keep..]];
    }

    /** Lines 127-143: collecting drops versions, never a read of a live snapshot or of the
        current version. */
    method Gc() returns (reclaimed: nat)
      requires Valid()
      modifies this`pages
      ensures Valid() && pages.Keys == old(pages).Keys
      ensures reclaimed + VersionsOf(pages, pages.Keys) == VersionsOf(old(pages), old(pages).Keys)
      ensures forall p, v :: p in pages && (v in snapshots || v >= current) ==>
              AsOf(pages, p, v) == AsOf(old(pages), p, v)
      ensures exists oldest: Version ::
              NothingOlder(pages, oldest) && oldest <= current && (oldest == current || oldest in snapshots)
    {
      hide ChainsOk, AsOf, Oldest, Ascending, VersionsOf;
      NoVersions(pages);
      var watermark := OldestSnapshot();
      ghost var before := pages;
      var todo := pages.Keys;
      reclaimed := 0;
      ghost var done: set<PageId> := {};
      while todo != {}
        invariant todo <= pages.Keys == before.Keys && Valid()
        invariant forall p :: p in pages && p !in todo ==> Oldest(pages[p], watermark)
        invariant done + todo == pages.Keys && done !! todo
        invariant reclaimed + VersionsOf(pages, done) == VersionsOf(before, done)
        invariant forall p :: p in todo ==> pages[p] == before[p]
        decreases |todo|
      {
        var p :| p in todo;
        ghost var was := pages;
        var keep := Trim(p, watermark);
        VersionsCut(before, was, done, p, keep);
        reclaimed := reclaimed + keep;
        todo := todo - {p};
        done := done + {p};
      }
      assert NothingOlder(pages, watermark);
      SameViews(before, pages, history, snapshots, current);
    }
  }

  /** How many versions the chains of some pages hold. */
  ghost function VersionsOf(pages: History, some: set<PageId>): nat
    requires some <= pages.Keys
  {
    if some == {} then 0
    else
      var p :| p in some;
      |pages[p]| + VersionsOf(pages, some - {p})
  }

  lemma {:induction false} WithoutOne(pages: History, some: set<PageId>, p: PageId)
    requires some <= pages.Keys && p in some
    ensures VersionsOf(pages, some) == |pages[p]| + VersionsOf(pages, some - {p})
  {
    var q :| q in some && VersionsOf(pages, some) == |pages[q]| + VersionsOf(pages, some - {q});
    if q != p {
      WithoutOne(pages, some - {q}, p);
      WithoutOne(pages, some - {p}, q);
      assert some - {q} - {p} == some - {p} - {q};
    }
  }

  lemma OneMorePage(pages: History, some: set<PageId>, p: PageId)
    requires some <= pages.Keys && p in pages && p !in some
    ensures VersionsOf(pages, some + {p}) == VersionsOf(pages, some) + |pages[p]|
  {
    WithoutOne(pages, some + {p}, p);
    assert some + {p} - {p} == some;
  }

  lemma {:induction false} SameVersions(pages: History, other: History, some: set<PageId>)
    requires some <= pages.Keys && some <= other.Keys && forall p :: p in some ==> pages[p] == other[p]
    ensures VersionsOf(pages, some) == VersionsOf(other, some)
  {
    if some != {} {
      var p :| p in some;
      WithoutOne(pages, some, p);
      WithoutOne(other, some, p);
      SameVersions(pages, other, some - {p});
    }
  }

  lemma VersionsCut(before: History, pages: History, done: set<PageId>, p: PageId, keep: nat)
    requires done <= pages.Keys == before.Keys && p in pages && p !in done && pages[p] == before[p]
             && keep <= |pages[p]|
    ensures VersionsOf(pages[p := pages[p][keep..]], done + {p}) + keep == VersionsOf(pages, done) + |pages[p]|
    ensures VersionsOf(before, done + {p}) == VersionsOf(before, done) + |before[p]|
  {
    var next := pages[p := pages[p][keep..]];
    SameVersions(pages, next, done);
    OneMorePage(next, done, p);
    OneMorePage(before, done, p);
    hide VersionsOf;
  }

  /** Chains that both show the history to the live versions show them the same. */
  lemma SameViews(before: History, pages: History, history: History, snapshots: map<Version, nat>, current: Version)
    requires ChainsOk(before, history, snapshots, current) && ChainsOk(pages, history, snapshots, current)
    ensures forall p, v :: p in pages && (v in snapshots || v >= current) ==> AsOf(pages, p, v) == AsOf(before, p, v)
  {
    hide ChainsOk, AsOf;
    forall p, v | p in pages && (v in snapshots || v >= current) ensures AsOf(pages, p, v) == AsOf(before, p, v) {
      StoredView(pages, history, snapshots, current, p, v);
      StoredView(before, history, snapshots, current, p, v);
    }
  }

  lemma NoVersions(pages: History)
    ensures VersionsOf(pages, {}) == 0
  {
  }

  ghost predicate InTime(chain: Chain, current: Version)
  {
    forall i :: 0 <= i < |chain| ==> chain[i].version <= current
  }

  /** At most one version, the first, is at or before the watermark. */
  ghost predicate Oldest(chain: Chain, watermark: Version)
  {
    forall i :: 0 < i < |chain| ==> watermark < chain[i].version
  }

  ghost predicate NothingOlder(pages: History, watermark: Version)
  {
    forall p :: p in pages ==> Oldest(pages[p], watermark)
  }

  /** The last version at or before the watermark, or 0 (lines 133-136). */
  method KeepFrom(chain: Chain, watermark: Version) returns (keep: nat)
    requires Ascending(chain)
    ensures keep <= |chain| && (chain != [] ==> keep < |chain|)
    ensures keep > 0 ==> chain[keep].version <= watermark
    ensures forall i :: keep < i < |chain| ==> watermark < chain[i].version
  {
    var i := |chain|;
    while i > 0
      invariant 0 <= i <= |chain| && forall j :: i <= j < |chain| ==> watermark < chain[j].version
    {
      i := i - 1;
      if chain[i].version <= watermark {
        return i;
      }
    }
    return 0;
  }

  lemma SuffixAscends(chain: Chain, n: nat)
    requires Ascending(chain) && n <= |chain|
    ensures Ascending(chain[n..])
  {
  }

  /** A page's chain with a newer version at its end. */
  lemma Appended(stored: Chain, full: Chain, snapshots: map<Version, nat>, current: Version, next: PageVersion)
    requires ChainOk(stored, full, snapshots, current) || stored == full == []
    requires next.version == current + 1
    ensures ChainOk(stored + [next], full + [next], snapshots, current + 1)
  {
    var all := full + [next];
    assert (stored + [next]) == all[|all| - |stored + [next]|..];
  }

  lemma Written(pages: History, history: History, snapshots: map<Version, nat>, current: Version, page: PageId,
          next: PageVersion)
    requires ChainsOk(pages, history, snapshots, current) && next.version == current + 1
    ensures var h := history[page := ChainOf(history, page) + [next]];
            ChainsOk(pages[page := ChainOf(pages, page) + [next]], h, snapshots, current + 1)
            && AsOf(h, page, current + 1) == Some(next.data)
            && forall p: PageId, u: Version :: u <= current ==> AsOf(h, p, u) == AsOf(history, p, u)
  {
    hide Seen, ChainOk;
    var h, stored := history[page := ChainOf(history, page) + [next]], pages[page := ChainOf(pages, page) + [next]];
    PageOk(pages, history, snapshots, current, page);
    Appended(ChainOf(pages, page), ChainOf(history, page), snapshots, current, next);
    forall p | p in stored ensures ChainOk(stored[p], h[p], snapshots, current + 1) {
      if p != page {
        PageOk(pages, history, snapshots, current, p);
        LaterOk(pages[p], history[p], snapshots, current);
      }
    }
    LastSeen(stored[page], h[page], snapshots, current + 1, next);
    forall p: PageId, u: Version | u <= current ensures AsOf(h, p, u) == AsOf(history, p, u) {
      if p == page {
        OlderSeen(ChainOf(history, page), stored[page], snapshots, current + 1, next, u);
      }
    }
  }

  lemma PageOk(pages: History, history: History, snapshots: map<Version, nat>, current: Version, p: PageId)
    requires ChainsOk(pages, history, snapshots, current)
    ensures p in pages ==> p in history && ChainOk(pages[p], history[p], snapshots, current)
    ensures p !in pages ==> ChainOf(pages, p) == ChainOf(history, p) == []
  {
  }

  lemma LaterOk(stored: Chain, full: Chain, snapshots: map<Version, nat>, current: Version)
    requires ChainOk(stored, full, snapshots, current)
    ensures ChainOk(stored, full, snapshots, current + 1)
  {
  }

  lemma LastSeen(stored: Chain, full: Chain, snapshots: map<Version, nat>, v: Version, next: PageVersion)
    requires ChainOk(stored, full, snapshots, v) && next.version == v && full[|full| - 1] == next
    ensures Seen(full, v) == |full|
  {
    SeenIs(full, v, |full|);
  }

  lemma OlderSeen(full: Chain, stored: Chain, snapshots: map<Version, nat>, v: Version, next: PageVersion, u: Version)
    requires ChainOk(stored, full + [next], snapshots, v) && u < next.version
    ensures Seen(full + [next], u) == Seen(full, u)
  {
    SeenAppended(full, next, u);
  }

  /** Snapshots may end, or start at the current version. */
  lemma Retagged(pages: History, history: History, snapshots: map<Version, nat>, current: Version,
          next: map<Version, nat>)
    requires ChainsOk(pages, history, snapshots, current) && forall v :: v in next ==> v in snapshots || v == current
    ensures ChainsOk(pages, history, next, current)
  {
    forall p | p in pages ensures ChainOk(pages[p], history[p], next, current) {
      assert ChainOk(pages[p], history[p], snapshots, current);
    }
  }

  lemma StoredAscends(pages: History, history: History, snapshots: map<Version, nat>, current: Version, page: PageId)
    requires ChainsOk(pages, history, snapshots, current) && page in pages
    ensures Ascending(pages[page]) && page in history
  {
    assert ChainOk(pages[page], history[page], snapshots, current);
    SuffixAscends(history[page], |history[page]| - |pages[page]|);
  }

  lemma SeenAppended(chain: Chain, next: PageVersion, u: Version)
    requires Ascending(chain + [next]) && u < next.version
    ensures Seen(chain + [next], u) == Seen(chain, u)
  {
    assert Ascending(chain) by {
      assert (chain + [next])[..|chain|] == chain;
      forall i, j | 0 <= i < j < |chain| ensures chain[i].version < chain[j].version {
        assert (chain + [next])[i].version < (chain + [next])[j].version;
      }
    }
    SeenSplits(chain, u);
    SeenIs(chain + [next], u, Seen(chain, u));
  }

  /** The stored chains answer for live snapshots as the whole history does. */
  lemma StoredView(pages: History, history: History, snapshots: map<Version, nat>, current: Version, page: PageId,
          v: Version)
    requires ChainsOk(pages, history, snapshots, current)
    ensures v in snapshots || v >= current ==> AsOf(pages, page, v) == AsOf(history, page, v)
  {
    if page in pages && (v in snapshots || v >= current) {
      var stored, full := pages[page], history[page];
      var cut := |full| - |stored|;
      assert ChainOk(stored, full, snapshots, current);
      SuffixAscends(full, cut);
      CutSeen(stored, full, cut, v);
      var n := Seen(stored, v);
      assert n > 0 ==> full[cut + n - 1] == stored[n - 1];
    }
    hide Seen;
  }

  lemma CutSeen(stored: Chain, full: Chain, cut: nat, v: Version)
    requires Ascending(full) && cut <= |full| && stored == full[cut..] && Ascending(stored)
    requires cut > 0 ==> stored != [] && stored[0].version <= v
    ensures Seen(full, v) == cut + Seen(stored, v) && (cut > 0 ==> Seen(stored, v) > 0)
  {
    SeenSplits(stored, v);
    var n := cut + Seen(stored, v);
    forall i | 0 <= i < n ensures full[i].version <= v {
      if i >= cut {
        assert full[i] == stored[i - cut];
      } else {
        assert full[i].version < full[cut].version && full[cut] == stored[0];
      }
    }
    forall i | n <= i < |full| ensures v < full[i].version {
      assert full[i] == stored[i - cut];
    }
    SeenIs(full, v, n);
  }

  /** Dropping what is older than the kept version. */
  lemma Collected(pages: History, history: History, snapshots: map<Version, nat>, current: Version, p: PageId,
          watermark: Version, keep: nat)
    requires ChainsOk(pages, history, snapshots, current) && p in pages && watermark <= current && forall v ::
             v in snapshots ==> watermark <= v
    requires keep <= |pages[p]| && (pages[p] != [] ==> keep < |pages[p]|)
             && (keep > 0 ==> pages[p][keep].version <= watermark)
    requires forall i :: keep < i < |pages[p]| ==> watermark < pages[p][i].version
    ensures ChainsOk(pages[p := pages[p][keep..]], history, snapshots, current) && Oldest(pages[p][keep..], watermark)
  {
    hide ChainOk, Oldest;
    var next := pages[p := pages[p][keep..]];
    PageOk(pages, history, snapshots, current, p);
    CollectedChain(pages[p], history[p], snapshots, current, watermark, keep);
    forall q | q in next ensures ChainOk(next[q], history[q], snapshots, current) {
      PageOk(pages, history, snapshots, current, q);
    }
  }

  lemma CollectedChain(chain: Chain, full: Chain, snapshots: map<Version, nat>, current: Version, watermark: Version,
          keep: nat)
    requires ChainOk(chain, full, snapshots, current) && watermark <= current && forall v :: v in snapshots ==>
             watermark <= v
    requires keep <= |chain| && (chain != [] ==> keep < |chain|) && (keep > 0 ==> chain[keep].version <= watermark)
    requires forall i :: keep < i < |chain| ==> watermark < chain[i].version
    ensures ChainOk(chain[keep..], full, snapshots, current) && Oldest(chain[keep..], watermark)
  {
    hide Ascending;
    var rest := chain[keep..];
    assert rest == full[|full| - |rest|..];
  }
}
