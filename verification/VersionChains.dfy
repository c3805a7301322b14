/** Row versions of the transaction manager (src/txn.rs, lines 210-440): a chain of versions,
    newest first, against the row's whole history of commits. */
module VersionChains {
  import opened Options
  import opened Values

  type Timestamp = nat
  type TxnId = nat
  type Row = nat

  datatype Isolation = ReadUncommitted | ReadCommitted | RepeatableRead | Serializable

  /** Without an end the version is current. */
  datatype Version = Version(value: Value, deleted: bool, begin: Timestamp, end: Option<Timestamp>, writer: TxnId,
    committed: bool)

  type Chain = seq<Version>

  datatype ReadView = ReadView(reader: TxnId, snapshot: Timestamp, active: set<TxnId>, isolation: Isolation)

  /** What a transaction made of a row when it committed: no value for a deletion. */
  datatype Commit = Commit(ts: Timestamp, writer: TxnId, value: Option<Value>)

  type Commits = seq<Commit>

  // ----- visibility (lines 350-430) ----------------------------------------------------------

  predicate IsVisible(rv: ReadView, v: Version)
  {
    if v.writer == rv.reader && !v.committed then true
    else if !v.committed then rv.isolation == ReadUncommitted
    else v.writer !in rv.active && v.begin <= rv.snapshot && (v.end.Some? ==> v.end.value > rv.snapshot)
  }

  function FirstVisible(chain: Chain, rv: ReadView): Option<Version>
  {
    if chain == [] then None
    else if IsVisible(rv, chain[0]) then Some(chain[0])
    else FirstVisible(chain[1..], rv)
  }

  method VisibleFor(chain: Chain, rv: ReadView) returns (r: Option<Version>)
    ensures r == FirstVisible(chain, rv)
  {
    for i := 0 to |chain|
      invariant FirstVisible(chain, rv) == FirstVisible(chain[i..], rv)
    {
      if IsVisible(rv, chain[i]) {
        return Some(chain[i]);
      }
    }
    return None;
  }

  lemma {:induction false} VisiblePlace(chain: Chain, rv: ReadView, i: nat)
    requires i <= |chain| && forall j :: 0 <= j < i ==> !IsVisible(rv, chain[j])
    ensures FirstVisible(chain, rv) == if i < |chain|
            && IsVisible(rv, chain[i]) then Some(chain[i]) else FirstVisible(chain[i..], rv)
  {
    if i > 0 {
      VisiblePlace(chain[1..], rv, i - 1);
      assert chain[1..][i - 1..] == chain[i..];
    } else {
      assert chain[0..] == chain;
    }
  }

  function Shown(v: Version): Option<Value>
  {
    if v.deleted then None else Some(v.value)
  }

  function ShownIn(v: Option<Version>): Option<Value>
  {
    if v.Some? then Shown(v.value) else None
  }

  // ----- the history of a row ----------------------------------------------------------------

  ghost predicate Ascending(h: Commits)
  {
    forall i, j :: 0 <= i < j < |h| ==> h[i].ts < h[j].ts
  }

  /** The last commit up to a moment. */
  function LastCommit(h: Commits, s: Timestamp): Option<Commit>
  {
    if h == [] then None
    else if h[|h| - 1].ts <= s then Some(h[|h| - 1])
    else LastCommit(h[..|h| - 1], s)
  }

  /** What it left of the row. */
  function LastAt(h: Commits, s: Timestamp): Option<Value>
  {
    var c := LastCommit(h, s);
    if c.Some? then c.value.value else None
  }

  lemma {:induction false} LastAtPlace(h: Commits, s: Timestamp, k: nat)
    requires Ascending(h) && k < |h| && h[k].ts <= s && (k + 1 < |h| ==> s < h[k + 1].ts)
    ensures LastCommit(h, s) == Some(h[k]) && LastAt(h, s) == h[k].value
  {
    if k + 1 < |h| {
      LastAtPlace(h[..|h| - 1], s, k);
    }
  }

  lemma {:induction false} LastAtSome(h: Commits, s: Timestamp) returns (k: int)
    requires Ascending(h)
    ensures -1 <= k < |h| && (forall i :: 0 <= i <= k ==> h[i].ts <= s) && (forall i :: k < i < |h| ==> s < h[i].ts)
    ensures LastCommit(h, s) == if k == -1 then None else Some(h[k])
  {
    if h == [] {
      k := -1;
    } else if h[|h| - 1].ts <= s {
      k := |h| - 1;
    } else {
      k := LastAtSome(h[..|h| - 1], s);
    }
  }

  /** What was committed within a stretch of time. */
  ghost predicate QuietBetween(h: Commits, a: Timestamp, b: Timestamp)
  {
    forall k :: 0 <= k < |h| ==> !(a < h[k].ts < b)
  }

  /** Without commits in between, a row is the same at both ends. */
  lemma {:induction false} QuietSame(h: Commits, a: Timestamp, b: Timestamp)
    requires Ascending(h) && a < b && QuietBetween(h, a, b)
    ensures LastAt(h, a) == LastAt(h, b - 1)
  {
    if h != [] && h[|h| - 1].ts > a {
      QuietSame(h[..|h| - 1], a, b);
    }
  }

  /** The version a commit leaves, closed by the next commit. */
  function VersionOf(h: Commits, k: nat): Version
    requires k < |h|
  {
    var c := h[k];
    Version(if c.value.Some? then c.value.value else Null, c.value.None?, c.ts,
            if k + 1 < |h| then Some(h[k + 1].ts) else None, c.writer, true)
  }

  // ----- a chain and its history -------------------------------------------------------------

  ghost predicate Recorded(h: Commits, v: Version)
  {
    exists k :: 0 <= k < |h| && v == VersionOf(h, k)
  }

  /** Every committed version is a commit of the history. */
  ghost predicate Matched(chain: Chain, h: Commits)
  {
    forall v :: v in chain && v.committed ==> Recorded(h, v)
  }

  /** Every commit not closed before the floor has its version. */
  ghost predicate Kept(chain: Chain, h: Commits, floor: Timestamp)
  {
    forall k :: 0 <= k < |h| && (k + 1 < |h| ==> h[k + 1].ts >= floor) ==> VersionOf(h, k) in chain
  }

  predicate InOrder(a: Version, b: Version)
  {
    a.committed ==> if b.committed then a.begin != b.begin else a.begin > b.begin
  }

  /** No commit has two versions, and what stands above a write intent was committed after the
      intent's transaction began. */
  ghost predicate Ordered(chain: Chain)
  {
    forall i, j :: 0 <= i < j < |chain| ==> InOrder(chain[i], chain[j])
  }

  /** A write intent carries the time its transaction began. */
  ghost predicate Tagged(chain: Chain, begins: map<TxnId, Timestamp>)
  {
    forall v :: v in chain && !v.committed ==>
      v.writer in begins && v.begin == begins[v.writer] && v.end == None && (v.deleted ==> v.value == Null)
  }

  /** Only transactions no longer active have committed, all before now. */
  ghost predicate Past(h: Commits, now: Timestamp, begins: map<TxnId, Timestamp>, active: set<TxnId>)
  {
    forall k :: 0 <= k < |h| ==> h[k].ts < now && h[k].writer in begins && h[k].writer !in active
  }

  ghost predicate RowOk(chain: Chain, h: Commits, floor: Timestamp, now: Timestamp, begins: map<TxnId, Timestamp>,
          active: set<TxnId>)
  {
    && Ascending(h) && Past(h, now, begins, active)
    && Matched(chain, h) && Kept(chain, h, floor) && Ordered(chain) && Tagged(chain, begins)
  }

  // ----- the write intents of one transaction ------------------------------------------------

  predicate Mine(v: Version, w: TxnId)
  {
    v.writer == w && !v.committed
  }

  /** What a transaction's intents on a row stand for, newest first. */
  function Own(chain: Chain, w: TxnId): seq<Option<Value>>
  {
    if chain == [] then []
    else if Mine(chain[0], w) then [Shown(chain[0])] + Own(chain[1..], w)
    else Own(chain[1..], w)
  }

  /** Where the newest intent of a transaction is. */
  function FirstOwn(chain: Chain, w: TxnId): (i: nat)
    ensures i <= |chain| && (i < |chain| ==> Mine(chain[i], w))
    ensures forall j :: 0 <= j < i ==> !Mine(chain[j], w)
  {
    if chain == [] || Mine(chain[0], w) then 0 else 1 + FirstOwn(chain[1..], w)
  }

  lemma {:induction false} OwnFirst(chain: Chain, w: TxnId)
    ensures (Own(chain, w) == []) == (FirstOwn(chain, w) == |chain|)
    ensures FirstOwn(chain, w) < |chain| ==> Own(chain, w)[0] == Shown(chain[FirstOwn(chain, w)])
  {
    if chain != [] && !Mine(chain[0], w) {
      OwnFirst(chain[1..], w);
    }
  }

  /** Chains whose intents of a transaction are the same, place by place. */
  lemma {:induction false} OwnSame(a: Chain, b: Chain, w: TxnId)
    requires |a| == |b|
    requires forall i :: 0 <= i < |a| ==>
             Mine(a[i], w) == Mine(b[i], w) && (Mine(a[i], w) ==> Shown(a[i]) == Shown(b[i]))
    ensures Own(a, w) == Own(b, w)
  {
    if a != [] {
      OwnSame(a[1..], b[1..], w);
    }
  }

  lemma {:induction false} OwnRemoved(chain: Chain, w: TxnId, i: nat)
    requires i < |chain|
    ensures !Mine(chain[i], w) ==> Own(chain[..i] + chain[i + 1..], w) == Own(chain, w)
    ensures i == FirstOwn(chain, w) ==> Own(chain, w) != [] && Own(chain[..i] + chain[i + 1..], w) == Own(chain, w)[1..]
  {
    OwnFirst(chain, w);
    var r := chain[..i] + chain[i + 1..];
    if i == 0 {
      assert r == chain[1..];
    } else {
      OwnRemoved(chain[1..], w, i - 1);
      assert r[0] == chain[0] && r[1..] == chain[1..][..i - 1] + chain[1..][i..];
    }
  }

  // ----- reading -----------------------------------------------------------------------------

  /** A view no version collected is missing from, which does not see transactions it found
      active. */
  ghost predicate Sound(rv: ReadView, h: Commits, floor: Timestamp)
  {
    floor <= rv.snapshot && forall k :: 0 <= k < |h| && h[k].writer in rv.active ==> h[k].ts > rv.snapshot
  }

  /** A committed version is visible exactly when its commit is the last one up to the snapshot. */
  lemma CommitVisible(h: Commits, k: nat, rv: ReadView, floor: Timestamp)
    requires Ascending(h) && k < |h| && Sound(rv, h, floor)
    ensures IsVisible(rv, VersionOf(h, k)) <==> h[k].ts <= rv.snapshot && (k + 1 < |h| ==> rv.snapshot < h[k + 1].ts)
    ensures IsVisible(rv, VersionOf(h, k)) ==> LastAt(h, rv.snapshot) == Shown(VersionOf(h, k))
  {
    if IsVisible(rv, VersionOf(h, k)) {
      LastAtPlace(h, rv.snapshot, k);
    }
  }

  /** Nothing visible stands above the reader's own newest intent. */
  ghost predicate OwnLeads(chain: Chain, rv: ReadView)
  {
    var j := FirstOwn(chain, rv.reader);
    j < |chain| ==> forall i :: 0 <= i < j && chain[i].committed ==> chain[i].begin > rv.snapshot
  }

  /** Reading through the chain gives the reader's own newest write or else what was committed
      as of the snapshot. */
  lemma ReadsSnapshot(chain: Chain, h: Commits, rv: ReadView, floor: Timestamp, now: Timestamp,
          begins: map<TxnId, Timestamp>, active: set<TxnId>)
    requires RowOk(chain, h, floor, now, begins, active) && Sound(rv, h, floor)
    requires rv.isolation == ReadUncommitted ==> forall v :: v in chain && !v.committed ==> v.writer == rv.reader
    requires OwnLeads(chain, rv)
    ensures ShownIn(FirstVisible(chain, rv))
            == var mine := Own(chain, rv.reader); if mine != [] then mine[0] else LastAt(h, rv.snapshot)
  {
    OwnFirst(chain, rv.reader);
    var j := FirstOwn(chain, rv.reader);
    if j < |chain| {
      VisiblePlace(chain, rv, j);
    } else {
      ReadsCommitted(chain, h, rv, floor);
    }
  }

  lemma ReadsCommitted(chain: Chain, h: Commits, rv: ReadView, floor: Timestamp)
    requires Ascending(h) && Matched(chain, h) && Kept(chain, h, floor) && Sound(rv, h, floor)
    requires forall v :: v in chain && !v.committed ==> !IsVisible(rv, v)
    ensures ShownIn(FirstVisible(chain, rv)) == LastAt(h, rv.snapshot)
  {
    var last := LastAtSome(h, rv.snapshot);
    if last >= 0 {
      CommitVisible(h, last, rv, floor);
      assert VersionOf(h, last) in chain;
    }
    var seen := FirstVisible(chain, rv);
    VisibleMember(chain, rv);
    if seen.Some? {
      var k :| 0 <= k < |h| && seen.value == VersionOf(h, k);
      CommitVisible(h, k, rv, floor);
    }
  }

  lemma {:induction false} VisibleMember(chain: Chain, rv: ReadView)
    ensures var v := FirstVisible(chain, rv); v.Some? ==> v.value in chain && IsVisible(rv, v.value)
    ensures FirstVisible(chain, rv).None? ==> forall v :: v in chain ==> !IsVisible(rv, v)
  {
    if chain != [] && !IsVisible(rv, chain[0]) {
      VisibleMember(chain[1..], rv);
    }
  }

  // ----- what stands above a write intent ----------------------------------------------------

  /** A committed version is visible if it is that of the last commit up to the snapshot. */
  ghost predicate SeenWhenLast(v: Version, h: Commits, rv: ReadView)
  {
    var c := LastCommit(h, rv.snapshot);
    (IsVisible(rv, v) <==> c.Some? && v.begin == c.value.ts)
      && (IsVisible(rv, v) ==> Shown(v) == LastAt(h, rv.snapshot))
  }

  lemma SeenCommitted(v: Version, h: Commits, rv: ReadView, floor: Timestamp)
    requires Ascending(h) && Recorded(h, v) && Sound(rv, h, floor)
    ensures SeenWhenLast(v, h, rv)
  {
    var k :| 0 <= k < |h| && v == VersionOf(h, k);
    CommitVisible(h, k, rv, floor);
    var last := LastAtSome(h, rv.snapshot);
  }

  /** The first place whose version is visible. */
  lemma {:induction false} VisibleAt(chain: Chain, rv: ReadView, j: nat) returns (p: nat)
    requires j < |chain| && IsVisible(rv, chain[j])
    ensures p <= j && IsVisible(rv, chain[p]) && FirstVisible(chain, rv) == Some(chain[p])
  {
    if IsVisible(rv, chain[0]) {
      p := 0;
    } else {
      p := VisibleAt(chain[1..], rv, j - 1);
      p := p + 1;
    }
  }

  /** The version of a commit stands above a place of the chain. */
  ghost predicate StandsAbove(chain: Chain, i: nat, c: Option<Commit>)
    requires i <= |chain|
  {
    c.Some? && exists j :: 0 <= j < i && chain[j].committed && chain[j].begin == c.value.ts
  }

  /** The version of the last commit up to a moment stands above a transaction's newest intent. */
  ghost predicate Covered(chain: Chain, w: TxnId, h: Commits, s: Timestamp)
  {
    StandsAbove(chain, FirstOwn(chain, w), LastCommit(h, s))
  }

  /** A reader that is not to see what others have not committed sees its own newest write if and
      only if nothing covers it, and what was committed as of the snapshot otherwise. */
  lemma ReadsOwn(chain: Chain, h: Commits, rv: ReadView, floor: Timestamp)
    requires Ascending(h) && Matched(chain, h) && Kept(chain, h, floor) && Sound(rv, h, floor)
    requires rv.isolation != ReadUncommitted
    ensures var i, seen := FirstOwn(chain, rv.reader), FirstVisible(chain, rv);
            && (i < |chain| ==> (seen == Some(chain[i]) <==> !Covered(chain, rv.reader, h, rv.snapshot)))
            && (i == |chain| || Covered(chain, rv.reader, h, rv.snapshot) ==> ShownIn(seen) == LastAt(h, rv.snapshot))
  {
    var i := FirstOwn(chain, rv.reader);
    forall j | 0 <= j < i && chain[j].committed ensures SeenWhenLast(chain[j], h, rv) {
      assert chain[j] in chain;
      SeenCommitted(chain[j], h, rv, floor);
    }
    if i == |chain| {
      ReadsCommitted(chain, h, rv, floor);
    } else if Covered(chain, rv.reader, h, rv.snapshot) {
      var j :| 0 <= j < i && chain[j].committed && chain[j].begin == LastCommit(h, rv.snapshot).value.ts;
      assert SeenWhenLast(chain[j], h, rv);
      var p := VisibleAt(chain, rv, j);
      assert chain[p].committed && SeenWhenLast(chain[p], h, rv);
    } else {
      VisiblePlace(chain, rv, i);
    }
  }

  // ----- dirty reads -------------------------------------------------------------------------

  /** Where the newest write intent of any transaction is. */
  function FirstIntent(chain: Chain): (i: nat)
    ensures i <= |chain| && (i < |chain| ==> !chain[i].committed)
    ensures forall j :: 0 <= j < i ==> chain[j].committed
  {
    if chain == [] || !chain[0].committed then 0 else 1 + FirstIntent(chain[1..])
  }

  /** What a dirty read shows: the newest write intent, unless the version of the last commit up to
      the snapshot stands above it. */
  ghost function DirtyShown(chain: Chain, h: Commits, s: Timestamp): Option<Value>
  {
    var i := FirstIntent(chain);
    if i < |chain| && !StandsAbove(chain, i, LastCommit(h, s)) then Shown(chain[i]) else LastAt(h, s)
  }

  lemma ReadsDirty(chain: Chain, h: Commits, rv: ReadView, floor: Timestamp)
    requires Ascending(h) && Matched(chain, h) && Kept(chain, h, floor) && Sound(rv, h, floor)
             && rv.isolation == ReadUncommitted
    ensures ShownIn(FirstVisible(chain, rv)) == DirtyShown(chain, h, rv.snapshot)
  {
    var i := FirstIntent(chain);
    forall j | 0 <= j < i ensures SeenWhenLast(chain[j], h, rv) {
      assert chain[j] in chain;
      SeenCommitted(chain[j], h, rv, floor);
    }
    if i == |chain| {
      ReadsCommitted(chain, h, rv, floor);
    } else if StandsAbove(chain, i, LastCommit(h, rv.snapshot)) {
      var j :| 0 <= j < i && chain[j].begin == LastCommit(h, rv.snapshot).value.ts;
      assert SeenWhenLast(chain[j], h, rv);
      var p := VisibleAt(chain, rv, j);
      assert SeenWhenLast(chain[p], h, rv);
    } else {
      VisiblePlace(chain, rv, i);
    }
  }

  // ----- writing -----------------------------------------------------------------------------

  lemma Pushed(chain: Chain, v: Version, h: Commits, floor: Timestamp, now: Timestamp, begins: map<TxnId, Timestamp>,
          active: set<TxnId>)
    requires RowOk(chain, h, floor, now, begins, active) && !v.committed && Tagged([v], begins)
    ensures RowOk([v] + chain, h, floor, now, begins, active)
    ensures Own([v] + chain, v.writer) == [Shown(v)] + Own(chain, v.writer)
    ensures forall w :: w != v.writer ==> Own([v] + chain, w) == Own(chain, w)
  {
    var more := [v] + chain;
    assert more[1..] == chain;
    assert v in [v];
    forall i, j | 0 <= i < j < |more| ensures InOrder(more[i], more[j]) {
      assert more[j] == chain[j - 1] && (i > 0 ==> more[i] == chain[i - 1]);
    }
  }

  lemma Removed(chain: Chain, i: nat, h: Commits, floor: Timestamp, now: Timestamp, begins: map<TxnId, Timestamp>,
          active: set<TxnId>)
    requires RowOk(chain, h, floor, now, begins, active) && i < |chain| && !chain[i].committed
    ensures RowOk(chain[..i] + chain[i + 1..], h, floor, now, begins, active)
  {
    var r := chain[..i] + chain[i + 1..];
    assert forall j :: 0 <= j < |r| ==> r[j] == chain[if j < i then j else j + 1];
    forall v | v in chain && v.committed ensures v in r {
      var p :| 0 <= p < |chain| && chain[p] == v;
      assert r[if p < i then p else p - 1] == v;
    }
  }

  // ----- filters -----------------------------------------------------------------------------

  function Retain(chain: Chain, keep: Version -> bool): Chain
  {
    if chain == [] then []
    else if keep(chain[0]) then [chain[0]] + Retain(chain[1..], keep)
    else Retain(chain[1..], keep)
  }

  lemma {:induction false} RetainMembers(chain: Chain, keep: Version -> bool)
    ensures forall v :: v in Retain(chain, keep) <==> v in chain && keep(v)
  {
    if chain != [] {
      RetainMembers(chain[1..], keep);
    }
  }

  lemma {:induction false} RetainOrdered(chain: Chain, keep: Version -> bool)
    requires Ordered(chain)
    ensures Ordered(Retain(chain, keep))
  {
    if chain != [] {
      var rest := Retain(chain[1..], keep);
      assert forall i, j :: 0 <= i < j < |chain[1..]| ==>
        chain[1..][i] == chain[i + 1] && chain[1..][j] == chain[j + 1];
      RetainOrdered(chain[1..], keep);
      RetainMembers(chain[1..], keep);
      forall v | v in rest ensures InOrder(chain[0], v) {
        var p :| 0 <= p < |chain[1..]| && chain[1..][p] == v;
        assert InOrder(chain[0], chain[p + 1]);
      }
    }
  }

  lemma {:induction false} RetainOwn(chain: Chain, keep: Version -> bool, w: TxnId)
    requires forall v :: v in chain && Mine(v, w) ==> keep(v)
    ensures Own(Retain(chain, keep), w) == Own(chain, w)
  {
    if chain != [] {
      RetainOwn(chain[1..], keep, w);
      if keep(chain[0]) {
        assert Retain(chain, keep)[1..] == Retain(chain[1..], keep);
      }
    }
  }

  lemma {:induction false} RetainSize(chain: Chain, keep: Version -> bool)
    ensures |Retain(chain, keep)| <= |chain|
  {
    if chain != [] {
      RetainSize(chain[1..], keep);
    }
  }

  lemma Retained(chain: Chain, keep: Version -> bool, h: Commits, floor: Timestamp, more: Timestamp, now: Timestamp,
          begins: map<TxnId, Timestamp>, active: set<TxnId>)
    requires RowOk(chain, h, floor, now, begins, active) && floor <= more
    requires forall v :: v in chain && v.committed && (v.end.Some? ==> v.end.value >= more) ==> keep(v)
    ensures RowOk(Retain(chain, keep), h, more, now, begins, active)
  {
    RetainMembers(chain, keep);
    RetainOrdered(chain, keep);
  }

  // ----- committing --------------------------------------------------------------------------

  predicate Current(v: Version)
  {
    v.committed && v.end.None?
  }

  /** Where the current version is. */
  function FirstCurrent(chain: Chain): (i: nat)
    ensures i <= |chain| && (i < |chain| ==> Current(chain[i]))
    ensures forall j :: 0 <= j < i ==> !Current(chain[j])
  {
    if chain == [] || Current(chain[0]) then 0 else 1 + FirstCurrent(chain[1..])
  }

  function Closed(chain: Chain, ts: Timestamp): (r: Chain)
    ensures |r| == |chain|
  {
    var i := FirstCurrent(chain);
    if i < |chain| then chain[i := chain[i].(end := Some(ts))] else chain
  }

  /** Lines 978-1005: the newest intent becomes the current version. */
  function Finalized(chain: Chain, w: TxnId, ts: Timestamp): (r: Chain)
    ensures |r| == |chain|
  {
    var i := FirstOwn(chain, w);
    if i == |chain| then chain
    else var closed := Closed(chain, ts); closed[i := closed[i].(committed := true, begin := ts, end := None)]
  }

  /** With two current versions the history would have two last commits. */
  lemma OneCurrent(chain: Chain, h: Commits, i: nat, j: nat)
    requires Matched(chain, h) && Ordered(chain) && i < |chain| && j < |chain| && Current(chain[i]) && Current(chain[j])
    ensures i == j && |h| > 0 && chain[i] == VersionOf(h, |h| - 1)
  {
    var a :| 0 <= a < |h| && chain[i] == VersionOf(h, a);
    var b :| 0 <= b < |h| && chain[j] == VersionOf(h, b);
    assert a == |h| - 1 && b == |h| - 1;
    assert !InOrder(chain[i], chain[j]) && !InOrder(chain[j], chain[i]);
  }

  lemma FinalizedPlaces(chain: Chain, w: TxnId, ts: Timestamp)
    requires FirstOwn(chain, w) < |chain|
    ensures var r, i, c := Finalized(chain, w, ts), FirstOwn(chain, w), FirstCurrent(chain);
            && i != c && r[i] == chain[i].(committed := true, begin := ts, end := None)
            && (c < |chain| ==> r[c] == chain[c].(end := Some(ts)))
            && forall p :: 0 <= p < |chain| && p != i && p != c ==> r[p] == chain[p]
  {
  }

  /** The history after the commit of a chain's newest intent. */
  lemma Finalizes(chain: Chain, w: TxnId, ts: Timestamp, h: Commits, floor: Timestamp, now: Timestamp,
          begins: map<TxnId, Timestamp>, active: set<TxnId>)
    requires RowOk(chain, h, floor, now, begins, active) && FirstOwn(chain, w) < |chain| && now <= ts && w in begins
    requires forall t :: t in begins ==> begins[t] < ts
    ensures RowOk(Finalized(chain, w, ts), h + [Commit(ts, w, Shown(chain[FirstOwn(chain, w)]))], floor, ts + 1,
            begins, active - {w})
  {
    hide Finalized, Matched, Kept, Ordered, Tagged, Ascending, Past;
    var more := h + [Commit(ts, w, Shown(chain[FirstOwn(chain, w)]))];
    PastMore(h, more[|h|], now, begins, active);
    IntentsEarlier(chain, begins, ts);
    FinalizedMatched(chain, w, ts, h, more, begins);
    FinalizedKept(chain, w, ts, h, more, floor, begins);
    FinalizedOrdered(chain, w, ts, h, now, begins, active);
    FinalizedTagged(chain, w, ts, begins);
  }

  lemma PastMore(h: Commits, c: Commit, now: Timestamp, begins: map<TxnId, Timestamp>, active: set<TxnId>)
    requires Ascending(h) && Past(h, now, begins, active) && now <= c.ts && c.writer in begins
    ensures Ascending(h + [c]) && Past(h + [c], c.ts + 1, begins, active - {c.writer})
  {
  }

  lemma IntentsEarlier(chain: Chain, begins: map<TxnId, Timestamp>, ts: Timestamp)
    requires Tagged(chain, begins) && forall t :: t in begins ==> begins[t] < ts
    ensures forall v :: v in chain && !v.committed ==> v.begin < ts
  {
  }

  lemma FinalizedOrdered(chain: Chain, w: TxnId, ts: Timestamp, h: Commits, now: Timestamp,
          begins: map<TxnId, Timestamp>, active: set<TxnId>)
    requires FirstOwn(chain, w) < |chain| && Matched(chain, h) && Ordered(chain) && now <= ts
    requires Past(h, now, begins, active)
    requires forall v :: v in chain && !v.committed ==> v.begin < ts
    ensures Ordered(Finalized(chain, w, ts))
  {
    var r := Finalized(chain, w, ts);
    FinalizedPlaces(chain, w, ts);
    hide Finalized, FirstOwn, FirstCurrent;
    forall a, b | 0 <= a < b < |r| ensures InOrder(r[a], r[b]) {
      assert InOrder(chain[a], chain[b]) && chain[a] in chain && chain[b] in chain;
      assert chain[a].committed ==> Recorded(h, chain[a]) && chain[a].begin < ts;
      assert chain[b].committed ==> Recorded(h, chain[b]) && chain[b].begin < ts;
    }
  }

  lemma FinalizedTagged(chain: Chain, w: TxnId, ts: Timestamp, begins: map<TxnId, Timestamp>)
    requires FirstOwn(chain, w) < |chain| && Tagged(chain, begins)
    ensures Tagged(Finalized(chain, w, ts), begins)
  {
    var r := Finalized(chain, w, ts);
    FinalizedPlaces(chain, w, ts);
    forall v | v in r && !v.committed ensures v in chain {
      var p :| 0 <= p < |r| && r[p] == v;
      assert r[p] == chain[p];
    }
  }

  lemma VersionsStay(h: Commits, c: Commit)
    ensures forall k :: 0 <= k < |h| - 1 ==> VersionOf(h + [c], k) == VersionOf(h, k)
    ensures |h| > 0 ==> VersionOf(h + [c], |h| - 1) == VersionOf(h, |h| - 1).(end := Some(c.ts))
  {
  }

  lemma FinalizedMatched(chain: Chain, w: TxnId, ts: Timestamp, h: Commits, more: Commits,
          begins: map<TxnId, Timestamp>)
    requires FirstOwn(chain, w) < |chain| && more == h + [Commit(ts, w, Shown(chain[FirstOwn(chain, w)]))]
    requires Matched(chain, h) && Ordered(chain) && Tagged(chain, begins)
    ensures Matched(Finalized(chain, w, ts), more)
  {
    var r, i, c := Finalized(chain, w, ts), FirstOwn(chain, w), FirstCurrent(chain);
    FinalizedPlaces(chain, w, ts);
    VersionsStay(h, more[|h|]);
    forall v | v in r && v.committed ensures Recorded(more, v) {
      var p :| 0 <= p < |r| && r[p] == v;
      if p == i {
        assert chain[i] in chain;
        assert v == VersionOf(more, |h|);
      } else if p == c {
        OneCurrent(chain, h, c, c);
        assert v == VersionOf(more, |h| - 1);
      } else {
        assert Recorded(h, chain[p]);
        var k :| 0 <= k < |h| && v == VersionOf(h, k);
        if k == |h| - 1 {
          OneCurrent(chain, h, p, c);
        } else {
          assert v == VersionOf(more, k);
        }
      }
    }
  }

  lemma FinalizedKept(chain: Chain, w: TxnId, ts: Timestamp, h: Commits, more: Commits, floor: Timestamp,
          begins: map<TxnId, Timestamp>)
    requires FirstOwn(chain, w) < |chain| && more == h + [Commit(ts, w, Shown(chain[FirstOwn(chain, w)]))]
    requires Matched(chain, h) && Kept(chain, h, floor) && Ordered(chain) && Tagged(chain, begins)
    ensures Kept(Finalized(chain, w, ts), more, floor)
  {
    var r, i, c := Finalized(chain, w, ts), FirstOwn(chain, w), FirstCurrent(chain);
    FinalizedPlaces(chain, w, ts);
    VersionsStay(h, more[|h|]);
    forall k | 0 <= k < |more| && (k + 1 < |more| ==> more[k + 1].ts >= floor) ensures VersionOf(more, k) in r {
      if k == |h| {
        assert chain[i] in chain;
        assert r[i] == VersionOf(more, k);
      } else {
        var v := VersionOf(h, k);
        assert k + 1 < |h| ==> more[k + 1] == h[k + 1];
        assert v in chain;
        var p :| 0 <= p < |chain| && chain[p] == v;
        if k == |h| - 1 {
          OneCurrent(chain, h, p, c);
          assert r[c] == VersionOf(more, k);
        } else {
          assert r[p] == VersionOf(more, k);
        }
      }
    }
  }

  lemma FinalizedOwn(chain: Chain, w: TxnId, ts: Timestamp, other: TxnId)
    requires other != w
    ensures Own(Finalized(chain, w, ts), other) == Own(chain, other)
  {
    if FirstOwn(chain, w) < |chain| {
      FinalizedPlaces(chain, w, ts);
      OwnSame(Finalized(chain, w, ts), chain, other);
    }
  }

  /** Of the writer's intents only the newest is committed. */
  lemma FinalizedMine(chain: Chain, w: TxnId, ts: Timestamp)
    ensures Own(Finalized(chain, w, ts), w) == if Own(chain, w) == [] then [] else Own(chain, w)[1..]
  {
    OwnFirst(chain, w);
    var i := FirstOwn(chain, w);
    if i < |chain| {
      FinalizedPlaces(chain, w, ts);
      OwnTaken(chain, Finalized(chain, w, ts), w);
    }
  }

  lemma {:induction false} OwnTaken(chain: Chain, next: Chain, w: TxnId)
    requires |next| == |chain| && FirstOwn(chain, w) < |chain| && !Mine(next[FirstOwn(chain, w)], w)
    requires forall i :: 0 <= i < |chain| && i != FirstOwn(chain, w) ==>
               Mine(next[i], w) == Mine(chain[i], w) && (Mine(next[i], w) ==> Shown(next[i]) == Shown(chain[i]))
    ensures Own(chain, w) != [] && Own(next, w) == Own(chain, w)[1..]
  {
    if FirstOwn(chain, w) == 0 {
      OwnSame(next[1..], chain[1..], w);
    } else {
      OwnTaken(chain[1..], next[1..], w);
    }
  }

  lemma {:induction false} OwnNone(chain: Chain, w: TxnId)
    ensures Own(chain, w) == [] <==> forall v :: v in chain ==> !Mine(v, w)
  {
    if chain != [] {
      OwnNone(chain[1..], w);
    }
  }

  /** A row is no worse for what it does not take part in. */
  lemma Later(chain: Chain, h: Commits, floor: Timestamp, now: Timestamp, begins: map<TxnId, Timestamp>,
          active: set<TxnId>, now': Timestamp, begins': map<TxnId, Timestamp>, active': set<TxnId>)
    requires RowOk(chain, h, floor, now, begins, active) && now <= now'
    requires forall t :: t in begins ==> t in begins' && begins'[t] == begins[t]
    requires forall t :: t in active' && t in begins ==> t in active
    ensures RowOk(chain, h, floor, now', begins', active')
  {
  }
}
