/** What committing, rolling back, giving up locks and garbage collection keep
    (src/txn.rs, lines 949-1043, 1132-1167, 1342-1370 and 1513-1561). */
module TxnEnds {
  import opened Options
  import opened Values
  import opened VersionChains
  import opened TxnStates

  // ----- committing --------------------------------------------------------------------------

  /** A row's history after the commit of a transaction that left these writes pending. */
  function AfterCommit(h: Commits, pending: seq<Option<Value>>, id: TxnId, ts: Timestamp): Commits
  {
    if pending == [] then h else h + [Commit(ts, id, pending[0])]
  }

  /** Every row the transaction wrote gets one commit: its last write there. */
  ghost predicate Recording(before: History, after: History, log: seq<Write>, id: TxnId, ts: Timestamp)
  {
    forall row: Row :: CommitsOf(after, row) == AfterCommit(CommitsOf(before, row), Pending(log, row), id, ts)
  }

  ghost predicate Finalizing(before: Chains, after: Chains, rows: set<Row>, id: TxnId, ts: Timestamp)
  {
    forall row: Row ::
      ChainOf(after, row) == if row in rows then Finalized(ChainOf(before, row), id, ts) else ChainOf(before, row)
  }

  lemma CommittedRows(chains: Chains, chains': Chains, history: History, history': History, floor: Timestamp,
          now: Timestamp, begins: Begins, active: set<TxnId>, logs: Logs, id: TxnId)
    requires RowsOk(chains, history, floor, now, begins, active) && OwnOk(chains, logs, active) && id in active
             && id in logs && id in begins
    requires forall t :: t in begins ==> begins[t] < now
    requires Finalizing(chains, chains', RowsOf(logs[id]), id, now) && Recording(history, history', logs[id], id, now)
    ensures RowsOk(chains', history', floor, now + 1, begins, active - {id})
  {
    hide RowOk, Finalized, OwnOk, RowsOf, Pending;
    forall row: Row
      ensures RowOk(ChainOf(chains', row), CommitsOf(history', row), floor, now + 1, begins, active - {id})
    {
      RowAt(chains, history, floor, now, begins, active, row);
      HasIntent(chains, logs, active, id, row);
      PendingRows(logs[id], row);
      if row in RowsOf(logs[id]) {
        Finalizes(ChainOf(chains, row), id, now, CommitsOf(history, row), floor, now, begins, active);
      } else {
        Later(ChainOf(chains, row), CommitsOf(history, row), floor, now, begins, active, now + 1, begins,
          active - {id});
      }
    }
  }

  lemma CommittedOwn(chains: Chains, chains': Chains, active: set<TxnId>, logs: Logs, rows: set<Row>, id: TxnId,
          ts: Timestamp)
    requires OwnOk(chains, logs, active) && Finalizing(chains, chains', rows, id, ts)
    ensures OwnOk(chains', logs, active - {id})
  {
    hide Own, Finalized;
    forall w, row: Row | w in active - {id} ensures Own(ChainOf(chains', row), w) == Pending(logs[w], row) {
      assert Own(ChainOf(chains, row), w) == Pending(logs[w], row);
      FinalizedOwn(ChainOf(chains, row), id, ts, w);
    }
  }

  lemma CommittedHolds(chain: Chain, lock: LockEntry, w: TxnId, id: TxnId, ts: Timestamp)
    requires Holds(chain, lock, w) && w != id
    ensures Holds(Finalized(chain, id, ts), lock, w)
  {
    if FirstOwn(chain, id) < |chain| {
      FinalizedPlaces(chain, id, ts);
    }
  }

  predicate Holder(e: LockEntry, w: TxnId)
  {
    w in e.shared || e.exclusive == Some(w)
  }

  /** A transaction has given up a lock, whichever way it held it, and everyone else holds what they
      held. */
  ghost predicate GaveUp(before: LockEntry, after: LockEntry, id: TxnId)
  {
    && !Holder(after, id)
    && forall w :: w != id ==>
         (w in after.shared <==> w in before.shared) && (after.exclusive == Some(w) <==> before.exclusive == Some(w))
  }

  /** ... the lock to write only. */
  ghost predicate GaveUpWriting(before: LockEntry, after: LockEntry, id: TxnId)
  {
    && after.shared == before.shared && after.exclusive != Some(id)
    && forall w :: w != id ==> (after.exclusive == Some(w) <==> before.exclusive == Some(w))
  }

  /** What is left of a lock given up by its holder ... */
  function Released(e: LockEntry, id: TxnId): (r: LockEntry)
    ensures GaveUp(e, r, id)
  {
    LockEntry(e.shared - {id}, if e.exclusive == Some(id) then None else e.exclusive)
  }

  /** The transaction holds nothing any more, and everyone else what they held. */
  ghost predicate Releasing(before: Locks, after: Locks, id: TxnId)
  {
    forall row: Row :: GaveUp(LockOf(before, row), LockOf(after, row), id)
  }

  // ----- who holds a lock --------------------------------------------------------------------

  /** Only active transactions hold locks, and one that may write a row holds it alone. */
  ghost predicate HoldersOk(locks: Locks, active: set<TxnId>)
  {
    forall row: Row :: HoldersLive(LockOf(locks, row), active)
  }

  ghost predicate HoldersLive(e: LockEntry, active: set<TxnId>)
  {
    (forall w :: Holder(e, w) ==> w in active) && (e.exclusive.Some? ==> e.shared == {})
  }

  lemma HoldersAt(locks: Locks, active: set<TxnId>, row: Row)
    requires HoldersOk(locks, active)
    ensures HoldersLive(LockOf(locks, row), active)
  {
  }

  lemma HoldersMore(locks: Locks, active: set<TxnId>, id: TxnId)
    requires HoldersOk(locks, active)
    ensures HoldersOk(locks, active + {id})
  {
    hide Holder;
  }

  /** One lock changes hands. */
  lemma HoldersChanged(locks: Locks, locks': Locks, active: set<TxnId>, row: Row)
    requires HoldersOk(locks, active) && HoldersLive(LockOf(locks', row), active)
    requires forall other: Row :: other != row ==> LockOf(locks', other) == LockOf(locks, other)
    ensures HoldersOk(locks', active)
  {
    hide HoldersLive;
  }

  lemma HolderLeaves(e: LockEntry, e': LockEntry, active: set<TxnId>, id: TxnId)
    requires HoldersLive(e, active)
    ensures GaveUp(e, e', id) ==> HoldersLive(e', active) && HoldersLive(e', active - {id})
    ensures GaveUpWriting(e, e', id) ==> HoldersLive(e', active)
  {
    assert GaveUp(e, e', id) && e'.exclusive.Some? ==> e.exclusive == e'.exclusive;
    assert GaveUpWriting(e, e', id) && e'.exclusive.Some? ==> e.exclusive == e'.exclusive;
  }

  lemma HoldersLeave(locks: Locks, locks': Locks, active: set<TxnId>, id: TxnId)
    requires HoldersOk(locks, active) && Releasing(locks, locks', id)
    ensures HoldersOk(locks', active - {id})
  {
    hide HoldersLive, GaveUp;
    forall row: Row ensures HoldersLive(LockOf(locks', row), active - {id}) {
      HolderLeaves(LockOf(locks, row), LockOf(locks', row), active, id);
    }
  }

  lemma CommittedLocks(chains: Chains, chains': Chains, locks: Locks, locks': Locks, logs: Logs, active: set<TxnId>,
          loose: set<(TxnId, Row)>, rows: set<Row>, id: TxnId, ts: Timestamp)
    requires LocksOk(chains, locks, logs, active, loose) && Finalizing(chains, chains', rows, id, ts)
             && Releasing(locks, locks', id)
    ensures LocksOk(chains', locks', logs, active - {id}, loose)
  {
    hide Finalized, Pending, Holds;
    forall w, row: Row | w in active - {id} && w in logs && Pending(logs[w], row) != [] && (w, row) !in loose
      ensures Holds(ChainOf(chains', row), LockOf(locks', row), w)
    {
      CommittedHolds(ChainOf(chains, row), LockOf(locks, row), w, id, ts);
      ReleasedHolds(ChainOf(chains', row), LockOf(locks, row), LockOf(locks', row), w, id);
    }
  }

  lemma ReleasedHolds(chain: Chain, lock: LockEntry, lock': LockEntry, w: TxnId, id: TxnId)
    requires Holds(chain, lock, w) && w != id && GaveUp(lock, lock', id)
    ensures Holds(chain, lock', w)
  {
  }

  lemma CommittedTxns(registry: Registry, registry': Registry, logs: Logs, active: set<TxnId>, history: History,
          history': History, floor: Timestamp, now: Timestamp, id: TxnId, log: seq<Write>)
    requires TxnsOk(registry, logs, active, history, floor, now) && Recording(history, history', log, id, now)
    requires forall w :: w in active && w in registry ==> registry[w].begin < now
    requires forall w :: w in active && w != id ==> w in registry' && w in registry && registry'[w] == registry[w]
    ensures TxnsOk(registry', logs, active - {id}, history', floor, now + 1)
  {
    hide Pending, Marked, Aligned, RowsOf, Blind;
    forall w | w in active - {id}
      ensures w in registry' && w in logs && TxnOk(w, registry'[w], logs[w], history', floor, now + 1)
    {
      assert TxnOk(w, registry[w], logs[w], history, floor, now);
      if registry[w].isolation != ReadCommitted {
        StillBlind(registry[w].view, history, history', log, id, now);
      }
    }
  }

  lemma StillBlind(view: ReadView, history: History, history': History, log: seq<Write>, id: TxnId, now: Timestamp)
    requires Blind(view, history) && Recording(history, history', log, id, now) && view.snapshot < now
    ensures Blind(view, history')
  {
    hide Pending;
    forall row: Row, k | 0 <= k < |CommitsOf(history', row)| && CommitsOf(history', row)[k].writer in view.active
      ensures CommitsOf(history', row)[k].ts > view.snapshot
    {
      var h := CommitsOf(history, row);
      assert k < |h| ==> CommitsOf(history', row)[k] == h[k];
    }
  }

  /** Whether a row's history has a commit after some moment. */
  ghost predicate CommittedSince(h: Commits, s: Timestamp)
  {
    exists k :: 0 <= k < |h| && h[k].ts > s
  }

  predicate Conflicts(v: Version, id: TxnId, s: Timestamp)
  {
    v.committed && v.writer != id && v.begin > s
  }

  /** Collected or not, the chain shows whether the row was committed since a transaction began. */
  lemma ConflictIff(chain: Chain, h: Commits, floor: Timestamp, now: Timestamp, begins: Begins, active: set<TxnId>,
          id: TxnId, s: Timestamp)
    requires RowOk(chain, h, floor, now, begins, active) && id in active
    ensures (exists v :: v in chain && Conflicts(v, id, s)) <==> CommittedSince(h, s)
  {
    if v :| v in chain && Conflicts(v, id, s) {
      assert Recorded(h, v);
    }
    if CommittedSince(h, s) {
      var k :| 0 <= k < |h| && h[k].ts > s;
      assert h[|h| - 1].ts > s;
      assert VersionOf(h, |h| - 1) in chain && Conflicts(VersionOf(h, |h| - 1), id, s);
    }
  }

  lemma CommittedSerial(registry: Registry, registry': Registry, history: History, history': History, now: Timestamp,
          id: TxnId, log: seq<Write>)
    requires SerialOk(registry, history, now) && Recording(history, history', log, id, now) && id in registry
    requires registry'.Keys == registry.Keys && forall w :: w in registry && w != id ==> registry'[w] == registry[w]
    requires registry[id].begin < now && registry'[id].begin == registry[id].begin
             && registry'[id].commitTs == Some(now)
    requires registry'[id].writeSet <= registry'[id].readSet
    requires registry'[id].isolation == Serializable ==>
               forall row :: row in registry'[id].readSet + registry'[id].predicates ==>
                 !CommittedSince(CommitsOf(history, row), registry[id].begin)
    ensures SerialOk(registry', history', now + 1)
    ensures forall w, row: Row :: w in registry && w != id && registry[w].commitTs.Some? ==>
              var t := registry[w];
              QuietBetween(CommitsOf(history', row), t.begin, t.commitTs.value) <==>
              QuietBetween(CommitsOf(history, row), t.begin, t.commitTs.value)
  {
    hide Pending;
    forall w, row: Row | w in registry && w != id && registry[w].commitTs.Some?
      ensures var t := registry[w];
              QuietBetween(CommitsOf(history', row), t.begin, t.commitTs.value) <==>
              QuietBetween(CommitsOf(history, row), t.begin, t.commitTs.value)
    {
      QuietLater(CommitsOf(history, row), Pending(log, row), id, now, registry[w].begin, registry[w].commitTs.value);
    }
    forall w | w in registry' && registry'[w].commitTs.Some? && registry'[w].isolation == Serializable
      ensures var t := registry'[w]; forall row :: row in t.readSet + t.predicates ==>
              QuietBetween(CommitsOf(history', row), t.begin, t.commitTs.value)
    {
      var t := registry'[w];
      forall row | row in t.readSet + t.predicates
        ensures QuietBetween(CommitsOf(history', row), t.begin, t.commitTs.value)
      {
        StaysQuiet(CommitsOf(history, row), Pending(log, row), id, now, t.begin, t.commitTs.value);
      }
    }
  }

  lemma QuietLater(h: Commits, pending: seq<Option<Value>>, id: TxnId, ts: Timestamp, a: Timestamp, b: Timestamp)
    requires b <= ts
    ensures QuietBetween(AfterCommit(h, pending, id, ts), a, b) <==> QuietBetween(h, a, b)
  {
    var more := AfterCommit(h, pending, id, ts);
    assert forall k :: 0 <= k < |h| ==> more[k] == h[k];
  }

  lemma StaysQuiet(h: Commits, pending: seq<Option<Value>>, id: TxnId, ts: Timestamp, a: Timestamp, b: Timestamp)
    requires b <= ts && (QuietBetween(h, a, b) || !CommittedSince(h, a))
    ensures QuietBetween(AfterCommit(h, pending, id, ts), a, b)
  {
  }

  lemma LastAtMore(h: Commits, pending: seq<Option<Value>>, id: TxnId, ts: Timestamp, s: Timestamp)
    requires s < ts
    ensures LastAt(AfterCommit(h, pending, id, ts), s) == LastAt(h, s)
  {
    if pending != [] {
      assert AfterCommit(h, pending, id, ts)[..|h|] == h;
    }
  }

  lemma CommittedSeen(registry: Registry, registry': Registry, seen: Seen, history: History, history': History,
          now: Timestamp, id: TxnId, log: seq<Write>)
    requires SeenOk(registry, seen, history) && Recording(history, history', log, id, now)
    requires registry'.Keys == registry.Keys
    requires forall w :: w in registry ==>
             registry[w].begin < now && registry'[w].begin == registry[w].begin
               && registry'[w].isolation == registry[w].isolation
    ensures SeenOk(registry', seen, history')
  {
    hide Pending, LastAt;
    forall w, row | w in seen && FixedView(registry'[w].isolation) && row in seen[w]
      ensures seen[w][row] == LastAt(CommitsOf(history', row), registry'[w].begin)
    {
      LastAtMore(CommitsOf(history, row), Pending(log, row), id, now, registry[w].begin);
    }
  }

  /** No row is written twice. */
  ghost predicate WrittenOnce(undo: seq<Undo>)
  {
    forall i, j :: 0 <= i < j < |undo| ==> undo[i].row != undo[j].row
  }

  ghost predicate AtMostOnce(log: seq<Write>)
  {
    forall row: Row :: |Pending(log, row)| <= 1
  }

  lemma {:induction false} OnceIff(undo: seq<Undo>, log: seq<Write>)
    requires Aligned(undo, log)
    ensures WrittenOnce(undo) <==> AtMostOnce(log)
  {
    if log != [] {
      var n := |log| - 1;
      var front, row := log[..n], log[n].row;
      OnceIff(undo[..n], front);
      PendingRows(front, row);
      PendingLess(log);
      assert Pending(log, row) == [log[n].value] + Pending(front, row);
      hide Pending;
      if row in RowsOf(front) {
        var i :| 0 <= i < n && front[i].row == row;
        assert undo[i].row == undo[n].row;
        assert |Pending(log, row)| > 1;
      } else {
        assert forall i :: 0 <= i < n ==> front[i] in front && front[i] == log[i];
        OnceMore(undo);
        SameOnce(log, front, row);
      }
    }
  }

  lemma SameOnce(log: seq<Write>, front: seq<Write>, row: Row)
    requires |Pending(log, row)| <= 1 && |Pending(front, row)| <= 1
    requires forall r: Row :: r != row ==> Pending(log, r) == Pending(front, r)
    ensures AtMostOnce(log) <==> AtMostOnce(front)
  {
    hide Pending;
    if AtMostOnce(front) {
      forall r: Row ensures |Pending(log, r)| <= 1 {
        assert |Pending(front, r)| <= 1;
      }
    }
    if AtMostOnce(log) {
      forall r: Row ensures |Pending(front, r)| <= 1 {
        assert |Pending(log, r)| <= 1;
      }
    }
  }

  lemma OnceMore(undo: seq<Undo>)
    requires undo != [] && forall i :: 0 <= i < |undo| - 1 ==> undo[i].row != undo[|undo| - 1].row
    ensures WrittenOnce(undo) <==> WrittenOnce(undo[..|undo| - 1])
  {
    var front := undo[..|undo| - 1];
    assert forall i :: 0 <= i < |front| ==> front[i] == undo[i];
  }

  /** Every version of the transaction is committed. */
  ghost predicate Stamped(chains: Chains, id: TxnId)
  {
    forall row: Row :: Own(ChainOf(chains, row), id) == []
  }

  /** A commit leaves no version of the transaction uncommitted if and only if it wrote no row
      twice. */
  lemma StampedIff(chains: Chains, chains': Chains, logs: Logs, active: set<TxnId>, id: TxnId, undo: seq<Undo>,
          ts: Timestamp)
    requires OwnOk(chains, logs, active) && id in active && id in logs && Aligned(undo, logs[id])
    requires Finalizing(chains, chains', RowsOf(logs[id]), id, ts)
    ensures Stamped(chains', id) <==> WrittenOnce(undo)
  {
    hide Own, Pending, Finalized, RowsOf, WrittenOnce;
    forall row: Row ensures LeftOver(chains', logs, id, row) {
      assert Own(ChainOf(chains, row), id) == Pending(logs[id], row);
      PendingRows(logs[id], row);
      FinalizedMine(ChainOf(chains, row), id, ts);
    }
    OnceIff(undo, logs[id]);
    if AtMostOnce(logs[id]) {
      forall row: Row ensures Own(ChainOf(chains', row), id) == [] {
        assert LeftOver(chains', logs, id, row) && |Pending(logs[id], row)| <= 1;
      }
    }
    if Stamped(chains', id) {
      forall row: Row ensures |Pending(logs[id], row)| <= 1 {
        assert LeftOver(chains', logs, id, row) && Own(ChainOf(chains', row), id) == [];
      }
    }
  }

  /** What stays uncommitted of a transaction's writes to a row: all but the newest. */
  ghost predicate LeftOver(chains: Chains, logs: Logs, id: TxnId, row: Row)
    requires id in logs
  {
    Own(ChainOf(chains, row), id) == var p := Pending(logs[id], row); if p == [] then [] else p[1..]
  }

  /** A commit is made over one that the transaction did not see if and only if a row it wrote was
      committed since it began. */
  lemma OverwroteIff(chains: Chains, history: History, history': History, floor: Timestamp, now: Timestamp,
          begins: Begins, active: set<TxnId>, log: seq<Write>, id: TxnId, t: Transaction)
    requires RowsOk(chains, history, floor, now, begins, active) && Recording(history, history', log, id, now)
    requires t.commitTs == Some(now)
    ensures Overwrote(t, history') <==>
            exists row :: row in t.writeSet && CommittedSince(CommitsOf(history, row), t.begin)
  {
    hide Pending, RowsOk, QuietBetween, CommittedSince;
    forall row | row in t.writeSet
      ensures QuietBetween(CommitsOf(history', row), t.begin, now) <==>
              !CommittedSince(CommitsOf(history, row), t.begin)
    {
      RowAt(chains, history, floor, now, begins, active, row);
      QuietIff(CommitsOf(history, row), Pending(log, row), id, now, t.begin);
    }
  }

  /** A commit finds everything the transaction ever read undisturbed if and only if none of the
      rows that the read set has lost was committed since the transaction began. */
  lemma UndisturbedIff(chains: Chains, history: History, history': History, floor: Timestamp, now: Timestamp,
          begins: Begins, active: set<TxnId>, log: seq<Write>, id: TxnId, t: Transaction,
          found: map<Row, Option<Value>>)
    requires RowsOk(chains, history, floor, now, begins, active) && Recording(history, history', log, id, now)
    requires t.commitTs == Some(now) && forall row :: row in t.readSet + t.predicates ==>
               !CommittedSince(CommitsOf(history, row), t.begin)
    ensures Undisturbed(t, found, history') <==>
            forall row :: row in Dropped(t, found) ==> !CommittedSince(CommitsOf(history, row), t.begin)
  {
    hide Pending, RowsOk, QuietBetween, CommittedSince;
    forall row | row in EverRead(t, found)
      ensures QuietBetween(CommitsOf(history', row), t.begin, now) <==>
              !CommittedSince(CommitsOf(history, row), t.begin)
    {
      RowAt(chains, history, floor, now, begins, active, row);
      QuietIff(CommitsOf(history, row), Pending(log, row), id, now, t.begin);
    }
    assert EverRead(t, found) <= Dropped(t, found) + (t.readSet + t.predicates);
  }

  lemma QuietIff(h: Commits, pending: seq<Option<Value>>, id: TxnId, ts: Timestamp, a: Timestamp)
    requires forall k :: 0 <= k < |h| ==> h[k].ts < ts
    ensures QuietBetween(AfterCommit(h, pending, id, ts), a, ts) <==> !CommittedSince(h, a)
  {
    if CommittedSince(h, a) {
      var k :| 0 <= k < |h| && h[k].ts > a;
      assert AfterCommit(h, pending, id, ts)[k] == h[k];
    }
  }

  // ----- rolling back ------------------------------------------------------------------------

  function NotMine(id: TxnId): Version -> bool
  {
    (v: Version) => !Mine(v, id)
  }

  /** Some chains lose what a transaction has not committed. */
  ghost predicate Stripping(before: Chains, after: Chains, rows: set<Row>, id: TxnId)
  {
    forall row: Row ::
      ChainOf(after, row) == if row in rows then Retain(ChainOf(before, row), NotMine(id)) else ChainOf(before, row)
  }

  lemma StrippedRows(chains: Chains, chains': Chains, history: History, floor: Timestamp, now: Timestamp,
          begins: Begins, active: set<TxnId>, rows: set<Row>, id: TxnId)
    requires RowsOk(chains, history, floor, now, begins, active) && Stripping(chains, chains', rows, id)
    ensures RowsOk(chains', history, floor, now, begins, active - {id})
  {
    hide RowOk;
    forall row: Row ensures RowOk(ChainOf(chains', row), CommitsOf(history, row), floor, now, begins, active - {id}) {
      RowAt(chains, history, floor, now, begins, active, row);
      Retained(ChainOf(chains, row), NotMine(id), CommitsOf(history, row), floor, floor, now, begins, active);
      Later(ChainOf(chains', row), CommitsOf(history, row), floor, now, begins, active, now, begins, active - {id});
    }
  }

  lemma StrippedOwn(chains: Chains, chains': Chains, active: set<TxnId>, logs: Logs, rows: set<Row>, id: TxnId)
    requires OwnOk(chains, logs, active) && Stripping(chains, chains', rows, id)
    ensures OwnOk(chains', logs, active - {id})
  {
    hide Own, Retain;
    forall w, row: Row | w in active - {id} ensures Own(ChainOf(chains', row), w) == Pending(logs[w], row) {
      assert Own(ChainOf(chains, row), w) == Pending(logs[w], row);
      RetainOwn(ChainOf(chains, row), NotMine(id), w);
    }
  }

  lemma StrippedLocks(chains: Chains, chains': Chains, locks: Locks, locks': Locks, logs: Logs, active: set<TxnId>,
          loose: set<(TxnId, Row)>, rows: set<Row>, id: TxnId)
    requires LocksOk(chains, locks, logs, active, loose) && Stripping(chains, chains', rows, id)
             && Releasing(locks, locks', id)
    ensures LocksOk(chains', locks', logs, active - {id}, loose)
  {
    hide Pending, Retain;
    forall w, row: Row | w in active - {id} && w in logs && Pending(logs[w], row) != [] && (w, row) !in loose
      ensures Holds(ChainOf(chains', row), LockOf(locks', row), w)
    {
      RetainedHolds(ChainOf(chains, row), LockOf(locks, row), w, NotMine(id));
      ReleasedHolds(ChainOf(chains', row), LockOf(locks, row), LockOf(locks', row), w, id);
    }
  }

  lemma RetainedHolds(chain: Chain, lock: LockEntry, w: TxnId, keep: Version -> bool)
    requires Holds(chain, lock, w) && keep(chain[0])
    ensures Holds(Retain(chain, keep), lock, w)
  {
  }

  // ----- giving up one lock ------------------------------------------------------------------

  /** Lines 1154-1167: while the transaction has intents on the row, the pair is loose. */
  lemma LetGo(chains: Chains, locks: Locks, locks': Locks, logs: Logs, active: set<TxnId>, loose: set<(TxnId, Row)>,
          row: Row, id: TxnId)
    requires LocksOk(chains, locks, logs, active, loose)
    requires GaveUp(LockOf(locks, row), LockOf(locks', row), id) && forall r: Row :: r != row ==>
             LockOf(locks', r) == LockOf(locks, r)
    ensures LocksOk(chains, locks', logs, active, loose + {(id, row)})
    ensures id in logs && Pending(logs[id], row) == [] ==> LocksOk(chains, locks', logs, active, loose)
  {
    hide Pending, Holds;
    forall w, r: Row |
      w in active && w in logs && Pending(logs[w], r) != [] && (w, r) !in loose && (w != id || r != row)
      ensures Holds(ChainOf(chains, r), LockOf(locks', r), w)
    {
      assert Holds(ChainOf(chains, r), LockOf(locks, r), w);
      if r == row {
        ReleasedHolds(ChainOf(chains, r), LockOf(locks, r), LockOf(locks', r), w, id);
      }
    }
  }

  /** Whether a transaction gave up a lock on a row that it still has intents on. */
  function LooseAfter(loose: set<(TxnId, Row)>, id: TxnId, row: Row, log: seq<Write>): set<(TxnId, Row)>
  {
    if Pending(log, row) == [] then loose - {(id, row)} else loose + {(id, row)}
  }

  /** Lines 1342-1370. */
  lemma UndoneLocks(chains: Chains, chains': Chains, locks: Locks, locks': Locks, logs: Logs, active: set<TxnId>,
          loose: set<(TxnId, Row)>, id: TxnId, i: nat)
    requires LocksOk(chains, locks, logs, active, loose) && id in logs && logs[id] != []
    requires var row := logs[id][|logs[id]| - 1].row; var chain := ChainOf(chains, row);
             && i == FirstOwn(chain, id) < |chain| && ChainOf(chains', row) == chain[..i] + chain[i + 1..]
             && (forall r: Row :: r != row ==>
               ChainOf(chains', r) == ChainOf(chains, r) && LockOf(locks', r) == LockOf(locks, r))
             && GaveUpWriting(LockOf(locks, row), LockOf(locks', row), id)
    ensures var less := logs[id][..|logs[id]| - 1];
            LocksOk(chains', locks', logs[id := less], active,
              LooseAfter(loose, id, logs[id][|logs[id]| - 1].row, less))
  {
    var log := logs[id];
    var row, less := log[|log| - 1].row, log[..|log| - 1];
    var logs', loose' := logs[id := less], LooseAfter(loose, id, row, less);
    hide Holds, Mine, Pending, LooseAfter, FirstOwn;
    PendingLess(log);
    forall w, r: Row | w in active && w in logs' && Pending(logs'[w], r) != [] && (w, r) !in loose'
      ensures Holds(ChainOf(chains', r), LockOf(locks', r), w)
    {
      NotLoose(loose, id, row, less, w, r);
      if w != id || r != row {
        assert Pending(logs[w], r) == Pending(logs'[w], r);
        StillHolds(ChainOf(chains, r), ChainOf(chains', r), LockOf(locks, r), LockOf(locks', r), w, id, i);
      }
    }
  }

  lemma PendingLess(log: seq<Write>)
    requires log != []
    ensures forall r: Row :: r != log[|log| - 1].row ==> Pending(log[..|log| - 1], r) == Pending(log, r)
  {
  }

  lemma NotLoose(loose: set<(TxnId, Row)>, id: TxnId, row: Row, log: seq<Write>, w: TxnId, r: Row)
    requires (w, r) !in LooseAfter(loose, id, row, log)
    ensures if w == id && r == row then Pending(log, row) == [] else (w, r) !in loose
  {
  }

  lemma StillHolds(chain: Chain, chain': Chain, lock: LockEntry, lock': LockEntry, w: TxnId, id: TxnId, i: nat)
    requires Holds(chain, lock, w)
    requires lock' == lock || (w != id && GaveUpWriting(lock, lock', id))
    requires chain' == chain || (w != id && i < |chain| && Mine(chain[i], id) && chain' == chain[..i] + chain[i + 1..])
    ensures Holds(chain', lock', w)
  {
  }

  lemma Acquired(chains: Chains, locks: Locks, locks': Locks, logs: Logs, active: set<TxnId>, loose: set<(TxnId, Row)>,
          row: Row)
    requires LocksOk(chains, locks, logs, active, loose)
    requires forall r: Row ::
             LockOf(locks', r).exclusive == LockOf(locks, r).exclusive
               || (r == row && LockOf(locks, r).exclusive == None)
    ensures LocksOk(chains, locks', logs, active, loose)
  {
    hide Pending;
    forall w, r: Row | w in active && w in logs && Pending(logs[w], r) != [] && (w, r) !in loose
      ensures Holds(ChainOf(chains, r), LockOf(locks', r), w)
    {
      assert Holds(ChainOf(chains, r), LockOf(locks, r), w);
    }
  }

  // ----- garbage collection ------------------------------------------------------------------

  /** What collecting keeps; without an oldest snapshot every superseded version goes. */
  function Survives(oldest: Option<Timestamp>): Version -> bool
  {
    (v: Version) => !v.committed || v.end.None? || (oldest.Some? && v.end.value >= oldest.value)
  }

  ghost predicate Sweeping(before: Chains, after: Chains, oldest: Option<Timestamp>)
  {
    forall row: Row :: ChainOf(after, row) == Retain(ChainOf(before, row), Survives(oldest))
  }

  function Raised(floor: Timestamp, now: Timestamp, oldest: Option<Timestamp>): Timestamp
  {
    if oldest.None? then now else if oldest.value < floor then floor else oldest.value
  }

  lemma SweptRows(chains: Chains, chains': Chains, history: History, floor: Timestamp, now: Timestamp, begins: Begins,
          active: set<TxnId>, oldest: Option<Timestamp>)
    requires RowsOk(chains, history, floor, now, begins, active) && Sweeping(chains, chains', oldest) && floor <= now
    ensures RowsOk(chains', history, Raised(floor, now, oldest), now, begins, active)
  {
    hide Retain;
    forall row: Row
      ensures RowOk(ChainOf(chains', row), CommitsOf(history, row), Raised(floor, now, oldest), now, begins, active)
    {
      var chain, h := ChainOf(chains, row), CommitsOf(history, row);
      RowAt(chains, history, floor, now, begins, active, row);
      forall v | v in chain && v.committed && (v.end.Some? ==> v.end.value >= Raised(floor, now, oldest))
        ensures Survives(oldest)(v)
      {
        assert Recorded(h, v);
      }
      Retained(chain, Survives(oldest), h, floor, Raised(floor, now, oldest), now, begins, active);
    }
  }

  lemma SweptOwn(chains: Chains, chains': Chains, active: set<TxnId>, logs: Logs, oldest: Option<Timestamp>)
    requires OwnOk(chains, logs, active) && Sweeping(chains, chains', oldest)
    ensures OwnOk(chains', logs, active)
  {
    hide Own, Retain;
    forall w, row: Row | w in active ensures Own(ChainOf(chains', row), w) == Pending(logs[w], row) {
      assert Own(ChainOf(chains, row), w) == Pending(logs[w], row);
      RetainOwn(ChainOf(chains, row), Survives(oldest), w);
    }
  }

  lemma SweptLocks(chains: Chains, chains': Chains, locks: Locks, logs: Logs, active: set<TxnId>,
          loose: set<(TxnId, Row)>, oldest: Option<Timestamp>)
    requires LocksOk(chains, locks, logs, active, loose) && Sweeping(chains, chains', oldest)
    ensures LocksOk(chains', locks, logs, active, loose)
  {
    hide Pending;
    forall w, row: Row | w in active && w in logs && Pending(logs[w], row) != [] && (w, row) !in loose
      ensures Holds(ChainOf(chains', row), LockOf(locks, row), w)
    {
      RetainedHolds(ChainOf(chains, row), LockOf(locks, row), w, Survives(oldest));
    }
  }
}
