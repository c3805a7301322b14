/** The steps of the transaction manager on its state, and that every one of them keeps the
    invariants (src/txn.rs, lines 752-1561). */
module TxnSteps {
  import opened Options
  import opened Values
  import opened VersionChains
  import opened TxnStates
  import opened TxnEnds

  /** Why an operation on a transaction is refused (lines 915-924). */
  function Refusal(registry: Registry, id: TxnId): Option<Error>
  {
    if id !in registry then Some(UnknownTxn)
    else if !registry[id].state.Live() then Some(NotLive)
    else None
  }

  function NewTxn(id: TxnId, now: Timestamp, active: set<TxnId>, isolation: Isolation): Transaction
  {
    Transaction(now, None, Active, isolation, ReadView(id, now, active, isolation), {}, {}, {}, [], [])
  }

  /** Whether the row's exclusive lock is to be had (lines 1084-1096). */
  predicate CanLock(e: LockEntry, id: TxnId)
  {
    e.exclusive == Some(id) || (e.exclusive.None? && e.shared <= {id})
  }

  /** The view a read goes by: at read committed a new one (lines 1048-1064). */
  function ViewOf(t: Transaction, now: Timestamp, active: set<TxnId>): ReadView
  {
    if t.isolation == ReadCommitted then t.view.(snapshot := now, active := active) else t.view
  }

  function Reading(t: Transaction, row: Row, now: Timestamp, active: set<TxnId>): Transaction
  {
    t.(view := ViewOf(t, now, active), readSet := t.readSet + {row})
  }

  /** What each isolation level promises of a read: of the transaction's own writes to the row
      and of the row's commits. */
  ghost predicate ReadRight(shown: Option<Value>, chain: Chain, pending: seq<Option<Value>>, h: Commits, t: Transaction,
          now: Timestamp, isLoose: bool)
  {
    match t.isolation
    case ReadUncommitted =>
      shown == DirtyShown(chain, h, t.begin)
    case ReadCommitted =>
      && shown == (if pending != [] && !Covered(chain, t.view.reader, h, now) then pending[0] else LastAt(h, now))
      && (pending != [] && Covered(chain, t.view.reader, h, now) ==> isLoose)
    case _ =>
      shown == if pending != [] then pending[0] else LastAt(h, t.begin)
  }

  function Noted(found: map<Row, Option<Value>>, row: Row, shown: Option<Value>): map<Row, Option<Value>>
  {
    found[row := shown]
  }

  /** How a write turns out (lines 1190-1258). */
  function Verdict(registry: Registry, locks: Locks, id: TxnId, row: Row, shown: Option<Value>,
          mustExist: bool): Option<Error>
  {
    if Refusal(registry, id).Some? then Refusal(registry, id)
    else if !CanLock(LockOf(locks, row), id) then Some(LockConflict(row))
    else if mustExist && shown.None? then Some(RowMissing(row))
    else if !mustExist && shown.Some? then Some(RowExists(row))
    else None
  }

  /** What the first half of a write makes of the registry: unless it is refused outright, the
      row has been read. */
  function Looked(registry: Registry, id: TxnId, row: Row, now: Timestamp, active: set<TxnId>,
          r: Option<Error>): Registry
  {
    if id in registry && Saw(r) then
      registry[id := Reading(registry[id], row, now, active)]
    else
      registry
  }

  /** Whether a write got as far as looking at the row. */
  predicate Saw(r: Option<Error>)
  {
    r.Some? ==> r.value.RowMissing? || r.value.RowExists?
  }

  function Logged(registry: Registry, id: TxnId, undo: Undo): Registry
  {
    if id in registry then
      var t := registry[id];
      registry[id := t.(undo := t.undo + [undo], writeSet := t.writeSet + {undo.row})]
    else
      registry
  }

  function Locked(locks: Locks, id: TxnId, row: Row): Locks
  {
    if LockOf(locks, row).exclusive.None? then locks[row := LockEntry({}, Some(id))] else locks
  }

  /** Whether the transaction must not commit: a row it read was committed since it began. */
  ghost predicate MustFail(t: Transaction, history: History)
  {
    t.isolation == Serializable && exists row ::
      row in t.readSet + t.predicates && CommittedSince(CommitsOf(history, row), t.begin)
  }

  function SavepointAt(savepoints: seq<Savepoint>, name: string): (i: nat)
    ensures i <= |savepoints| && (i < |savepoints| ==> savepoints[i].name == name)
    ensures forall j :: 0 <= j < i ==> savepoints[j].name != name
  {
    if savepoints == [] || savepoints[0].name == name then 0 else 1 + SavepointAt(savepoints[1..], name)
  }

  function NotAfter(savepoints: seq<Savepoint>, undoLen: nat): seq<Savepoint>
  {
    if savepoints == [] then []
    else if savepoints[0].undoLen <= undoLen then [savepoints[0]] + NotAfter(savepoints[1..], undoLen)
    else NotAfter(savepoints[1..], undoLen)
  }

  function NotNamed(savepoints: seq<Savepoint>, name: string): seq<Savepoint>
  {
    if savepoints == [] then []
    else if savepoints[0].name != name then [savepoints[0]] + NotNamed(savepoints[1..], name)
    else NotNamed(savepoints[1..], name)
  }

  // ----- the registry ------------------------------------------------------------------------

  lemma TxnAt(registry: Registry, logs: Logs, active: set<TxnId>, history: History, floor: Timestamp, now: Timestamp,
          id: TxnId)
    requires TxnsOk(registry, logs, active, history, floor, now) && id in active
    ensures id in registry && id in logs && TxnOk(id, registry[id], logs[id], history, floor, now)
  {
  }

  lemma TxnWrites(registry: Registry, logs: Logs, active: set<TxnId>, history: History, floor: Timestamp,
          now: Timestamp, id: TxnId)
    requires TxnsOk(registry, logs, active, history, floor, now) && id in active
    ensures id in registry && id in logs && TxnOk(id, registry[id], logs[id], history, floor, now)
    ensures registry[id].writeSet == RowsOf(logs[id])
  {
  }

  lemma KnownNew(registry: Registry, begins: Begins, logs: Logs, seen: Seen, active: set<TxnId>, now: Timestamp,
          id: TxnId)
    requires Known(registry, begins, logs, seen, active, now, id)
    ensures id !in registry && id !in begins && active <= registry.Keys
  {
  }

  lemma KnownBegun(registry: Registry, begins: Begins, logs: Logs, seen: Seen, active: set<TxnId>, now: Timestamp,
          id: TxnId, t: Transaction)
    requires Known(registry, begins, logs, seen, active, now, id) && t == NewTxn(id, now, active, t.isolation)
    ensures Known(registry[id := t], begins[id := now], logs[id := []], seen[id := map[]], active + {id}, now + 1,
            id + 1)
  {
  }

  lemma KnownLive(registry: Registry, begins: Begins, logs: Logs, seen: Seen, active: set<TxnId>, now: Timestamp,
          nextId: TxnId, id: TxnId)
    requires Known(registry, begins, logs, seen, active, now, nextId) && Refusal(registry, id).None?
    ensures id in active && id in logs && id in seen && id in begins && begins[id] == registry[id].begin
  {
  }

  lemma TagOf(registry: Registry, begins: Begins, logs: Logs, seen: Seen, active: set<TxnId>, now: Timestamp,
          nextId: TxnId, v: Version)
    requires Known(registry, begins, logs, seen, active, now, nextId) && v.writer in registry
    requires v.begin == registry[v.writer].begin && v.end == None && (v.deleted ==> v.value == Null)
    ensures Tagged([v], begins)
  {
  }

  lemma BegunTxn(chains: Chains, registry: Registry, begins: Begins, logs: Logs, seen: Seen, active: set<TxnId>,
          history: History, floor: Timestamp, now: Timestamp, id: TxnId, t: Transaction)
    requires TxnsOk(registry, logs, active, history, floor, now) && SerialOk(registry, history, now)
             && SeenOk(registry, seen, history)
    requires id !in registry && active <= registry.Keys && floor <= now
    requires RowsOk(chains, history, floor, now, begins, active) && t == NewTxn(id, now, active, t.isolation)
    ensures TxnsOk(registry[id := t], logs[id := []], active + {id}, history, floor, now + 1)
    ensures SerialOk(registry[id := t], history, now + 1) && SeenOk(registry[id := t], seen[id := map[]], history)
  {
    hide Blind, Marked, Aligned, RowsOk;
    var registry', logs' := registry[id := t], logs[id := []];
    BlindToActive(chains, history, floor, now, begins, active, t.view);
    FirstOk(id, t, active, history, floor, now);
    forall w | w in active + {id}
      ensures w in registry' && w in logs' && TxnOk(w, registry'[w], logs'[w], history, floor, now + 1)
    {
      if w != id {
        assert TxnOk(w, registry[w], logs[w], history, floor, now);
      }
    }
  }

  lemma NewIs(id: TxnId, now: Timestamp, active: set<TxnId>, isolation: Isolation)
    ensures NewTxn(id, now, active, isolation).isolation == isolation
  {
  }

  lemma NewRecalls(id: TxnId, now: Timestamp, active: set<TxnId>, isolation: Isolation)
    ensures var t := NewTxn(id, now, active, isolation);
            Recalls(t, map[]) && Dropped(t, map[]) == {}
  {
  }

  lemma FirstOk(id: TxnId, t: Transaction, active: set<TxnId>, history: History, floor: Timestamp, now: Timestamp)
    requires t == NewTxn(id, now, active, t.isolation)
    requires Blind(t.view, history) && floor <= now
    ensures TxnOk(id, t, [], history, floor, now + 1)
  {
    hide Blind;
  }

  lemma BegunLocks(chains: Chains, locks: Locks, logs: Logs, active: set<TxnId>, loose: set<(TxnId, Row)>, id: TxnId)
    requires LocksOk(chains, locks, logs, active, loose)
    ensures LocksOk(chains, locks, logs[id := []], active + {id}, loose)
  {
    hide Holds;
    var logs' := logs[id := []];
    forall w, row: Row | w in active + {id} && w in logs' && Pending(logs'[w], row) != [] && (w, row) !in loose
      ensures Holds(ChainOf(chains, row), LockOf(locks, row), w)
    {
      assert w != id;
      assert Pending(logs[w], row) == Pending(logs'[w], row);
    }
  }

  /** An active transaction that has neither begun again nor ended. */
  lemma Changed(registry: Registry, begins: Begins, logs: Logs, seen: Seen, active: set<TxnId>, history: History,
          floor: Timestamp, now: Timestamp, nextId: TxnId, id: TxnId, t: Transaction)
    requires Known(registry, begins, logs, seen, active, now, nextId)
    requires TxnsOk(registry, logs, active, history, floor, now) && SerialOk(registry, history, now)
             && SeenOk(registry, seen, history)
    requires id in active && id in registry && id in logs && TxnOk(id, t, logs[id], history, floor, now)
    requires t.begin == registry[id].begin && t.isolation == registry[id].isolation && t.state.Live()
    ensures Known(registry[id := t], begins, logs, seen, active, now, nextId)
    ensures TxnsOk(registry[id := t], logs, active, history, floor, now)
    ensures SerialOk(registry[id := t], history, now) && SeenOk(registry[id := t], seen, history)
  {
    hide Blind, Marked, Aligned, RowsOf;
    assert TxnOk(id, registry[id], logs[id], history, floor, now);
  }

  /** ... and has written one row more. */
  lemma LoggedTxn(registry: Registry, begins: Begins, logs: Logs, seen: Seen, active: set<TxnId>, history: History,
          floor: Timestamp, now: Timestamp, nextId: TxnId, id: TxnId, undo: Undo, w: Write)
    requires Known(registry, begins, logs, seen, active, now, nextId)
    requires TxnsOk(registry, logs, active, history, floor, now) && SerialOk(registry, history, now)
             && SeenOk(registry, seen, history)
    requires id in active && id in registry && id in logs && undo.row == w.row && undo.row in registry[id].readSet
    ensures var t := registry[id]; var registry' := registry[id := t.(undo := t.undo + [undo],
            writeSet := t.writeSet + {undo.row})];
            && Known(registry', begins, logs[id := logs[id] + [w]], seen, active, now, nextId)
            && TxnsOk(registry', logs[id := logs[id] + [w]], active, history, floor, now)
            && SerialOk(registry', history, now) && SeenOk(registry', seen, history)
  {
    var t, log, logs' := registry[id], logs[id] + [w], logs[id := logs[id] + [w]];
    var t' := t.(undo := t.undo + [undo], writeSet := t.writeSet + {undo.row});
    assert TxnOk(id, t, logs[id], history, floor, now);
    MoreOk(id, t, logs[id], history, floor, now, undo, w);
    hide TxnOk;
    forall x | x in active
      ensures x in registry && x in logs' && TxnOk(x, registry[id := t'][x], logs'[x], history, floor, now)
    {
      assert TxnOk(x, registry[x], logs[x], history, floor, now);
    }
  }

  lemma MoreOk(id: TxnId, t: Transaction, log: seq<Write>, history: History, floor: Timestamp, now: Timestamp,
          undo: Undo, w: Write)
    requires TxnOk(id, t, log, history, floor, now) && undo.row == w.row && undo.row in t.readSet
    ensures TxnOk(id, t.(undo := t.undo + [undo], writeSet := t.writeSet + {undo.row}), log + [w], history, floor, now)
  {
    PendingMore(log, w);
    MarkedMore(t.savepoints, log, w);
    hide Blind, Marked, RowsOf;
  }

  lemma MarkedMore(savepoints: seq<Savepoint>, log: seq<Write>, w: Write)
    requires Marked(savepoints, log)
    ensures Marked(savepoints, log + [w])
  {
    forall sp | sp in savepoints
      ensures sp.undoLen <= |log + [w]| && sp.writeSet == RowsOf((log + [w])[..sp.undoLen]) && sp.writeSet <= sp.readSet
    {
      assert (log + [w])[..sp.undoLen] == log[..sp.undoLen];
    }
  }

  // ----- reading -----------------------------------------------------------------------------

  /** What is read keeps the promises of the isolation level. */
  lemma SeesRight(chains: Chains, locks: Locks, history: History, floor: Timestamp, now: Timestamp, begins: Begins,
          active: set<TxnId>, logs: Logs, loose: set<(TxnId, Row)>, id: TxnId, t: Transaction, row: Row)
    requires RowsOk(chains, history, floor, now, begins, active) && OwnOk(chains, logs, active)
             && LocksOk(chains, locks, logs, active, loose)
    requires id in active && id in logs && id in begins && begins[id] == t.begin && floor <= now
             && TxnOk(id, t, logs[id], history, floor, now)
    ensures ReadRight(ShownIn(FirstVisible(ChainOf(chains, row), ViewOf(t, now, active))), ChainOf(chains, row),
            Pending(logs[id], row),
                      CommitsOf(history, row), t, now, (id, row) in loose)
  {
    hide RowsOk, Marked, Aligned, RowsOf, FirstVisible, LastAt, Own, DirtyShown;
    var view := ViewOf(t, now, active);
    assert Own(ChainOf(chains, row), id) == Pending(logs[id], row);
    OwnFirst(ChainOf(chains, row), id);
    if t.isolation == ReadUncommitted {
      WhatIsSeenDirty(chains, history, floor, now, begins, active, view, row);
    } else if t.isolation == ReadCommitted {
      BlindToActive(chains, history, floor, now, begins, active, view);
      RowAt(chains, history, floor, now, begins, active, row);
      ReadsOwn(ChainOf(chains, row), CommitsOf(history, row), view, floor);
      if Pending(logs[id], row) != [] && (id, row) !in loose {
        assert Holds(ChainOf(chains, row), LockOf(locks, row), id);
      }
    } else {
      WhatIsSeen(chains, history, floor, now, begins, active, logs, view, row);
    }
  }

  lemma SeenMore(registry: Registry, begins: Begins, logs: Logs, seen: Seen, active: set<TxnId>, now: Timestamp,
          nextId: TxnId, history: History, id: TxnId, row: Row, shown: Option<Value>)
    requires Known(registry, begins, logs, seen, active, now, nextId)
    requires SeenOk(registry, seen, history) && id in registry && id in seen
    requires FixedView(registry[id].isolation) ==> shown == LastAt(CommitsOf(history, row), registry[id].begin)
    ensures Known(registry, begins, logs, seen[id := Noted(seen[id], row, shown)], active, now, nextId)
    ensures SeenOk(registry, seen[id := Noted(seen[id], row, shown)], history)
  {
    hide LastAt;
  }

  /** A row that is read is noted, unless the transaction has written it and so read it before. */
  lemma ReadRecalls(t: Transaction, log: seq<Write>, found: map<Row, Option<Value>>, noted: map<Row, Option<Value>>,
          row: Row, now: Timestamp, active: set<TxnId>)
    requires Recalls(t, found) && t.writeSet == RowsOf(log) && t.writeSet <= t.readSet
    requires if Pending(log, row) == [] then noted.Keys == found.Keys + {row} else noted == found
    ensures Recalls(Reading(t, row, now, active), noted)
    ensures Dropped(Reading(t, row, now, active), noted) == Dropped(t, found) - {row}
  {
    PendingRows(log, row);
  }

  /** Rolling back to a savepoint drops what was read since, but for what a predicate locks. */
  lemma CutRecalls(t: Transaction, found: map<Row, Option<Value>>, sp: Savepoint)
    requires Recalls(t, found) && sp in t.savepoints && InTurn(t.savepoints)
    ensures var left := t.(undo := if sp.undoLen <= |t.undo| then t.undo[..sp.undoLen] else t.undo,
                writeSet := sp.writeSet, readSet := sp.readSet, savepoints := NotAfter(t.savepoints, sp.undoLen));
            && Recalls(left, found)
            && Dropped(left, found) == Dropped(t, found) + (t.readSet - t.predicates) - sp.readSet
  {
    var n := NotAfterIs(t.savepoints, sp.undoLen);
  }

  lemma RecallAborted(registry: Registry, seen: Seen, id: TxnId)
    requires RecallOk(registry, seen) && id in registry
    ensures RecallOk(registry[id := registry[id].(state := Aborted, undo := [])], seen)
  {
  }

  /** Reading keeps what there is to keep. */
  lemma ReadKeeps(chains: Chains, locks: Locks, registry: Registry, begins: Begins, logs: Logs, seen: Seen,
          active: set<TxnId>, history: History, floor: Timestamp, now: Timestamp, nextId: TxnId,
          loose: set<(TxnId, Row)>, id: TxnId, row: Row, shown: Option<Value>, noted: map<Row, Option<Value>>)
    requires RowsOk(chains, history, floor, now, begins, active) && OwnOk(chains, logs, active)
    requires Known(registry, begins, logs, seen, active, now, nextId)
             && TxnsOk(registry, logs, active, history, floor, now)
    requires SerialOk(registry, history, now) && SeenOk(registry, seen, history) && RecallOk(registry, seen)
    requires LocksOk(chains, locks, logs, active, loose) && floor <= now && Refusal(registry, id).None?
    requires id in logs && id in seen
    requires shown == ShownIn(FirstVisible(ChainOf(chains, row), ViewOf(registry[id], now, active)))
    requires noted == if Pending(logs[id], row) == [] then Noted(seen[id], row, shown) else seen[id]
    ensures var t := Reading(registry[id], row, now, active);
            && Known(registry[id := t], begins, logs, seen[id := noted], active, now, nextId)
            && TxnsOk(registry[id := t], logs, active, history, floor, now)
            && SerialOk(registry[id := t], history, now) && SeenOk(registry[id := t], seen[id := noted], history)
            && RecallOk(registry[id := t], seen[id := noted])
            && ReadRight(shown, ChainOf(chains, row), Pending(logs[id], row), CommitsOf(history, row), t, now,
                 (id, row) in loose)
            && Dropped(t, noted) == Dropped(registry[id], seen[id]) - {row}
  {
    hide RowsOk, OwnOk, Known, TxnsOk, SerialOk, SeenOk, LocksOk, RecallOk, FirstVisible, Pending, Dropped;
    var t := Reading(registry[id], row, now, active);
    KnownLive(registry, begins, logs, seen, active, now, nextId, id);
    TxnAt(registry, logs, active, history, floor, now, id);
    SeesRight(chains, locks, history, floor, now, begins, active, logs, loose, id, registry[id], row);
    Changed(registry, begins, logs, seen, active, history, floor, now, nextId, id, t);
    RecallAt(registry, seen, id);
    ReadRecalls(registry[id], logs[id], seen[id], noted, row, now, active);
    RecalledMore(registry, seen, id, t, noted);
    if Pending(logs[id], row) == [] {
      SeenMore(registry[id := t], begins, logs, seen, active, now, nextId, history, id, row, shown);
    } else {
      assert seen[id := noted] == seen;
    }
  }

  // ----- ending ------------------------------------------------------------------------------

  ghost function HistoryAfter(history: History, log: seq<Write>, id: TxnId, ts: Timestamp): History
  {
    map row | row in history.Keys + RowsOf(log) :: AfterCommit(CommitsOf(history, row), Pending(log, row), id, ts)
  }

  lemma HistoryRecords(history: History, log: seq<Write>, id: TxnId, ts: Timestamp)
    ensures Recording(history, HistoryAfter(history, log, id, ts), log, id, ts)
  {
    hide RowsOf, Pending;
    forall row: Row
      ensures CommitsOf(HistoryAfter(history, log, id, ts), row)
              == AfterCommit(CommitsOf(history, row), Pending(log, row), id, ts)
    {
      PendingRows(log, row);
    }
  }

  lemma FinalizingNone(chains: Chains, id: TxnId, ts: Timestamp)
    ensures forall rows: set<Row> :: rows == {} ==> Finalizing(chains, chains, rows, id, ts)
  {
  }

  lemma FinalizingMore(before: Chains, was: Chains, chains: Chains, rows: set<Row>, row: Row, id: TxnId, ts: Timestamp)
    requires Finalizing(before, was, rows, id, ts) && row !in rows
    requires ChainOf(chains, row) == Finalized(ChainOf(was, row), id, ts)
    requires forall other: Row :: other != row ==> ChainOf(chains, other) == ChainOf(was, other)
    ensures Finalizing(before, chains, rows + {row}, id, ts)
  {
    hide Finalized;
  }

  lemma StrippingNone(chains: Chains, id: TxnId)
    ensures forall rows: set<Row> :: rows == {} ==> Stripping(chains, chains, rows, id)
  {
  }

  lemma StrippingMore(before: Chains, was: Chains, chains: Chains, rows: set<Row>, row: Row, id: TxnId)
    requires Stripping(before, was, rows, id) && row !in rows
    requires ChainOf(chains, row) == Retain(ChainOf(was, row), NotMine(id))
    requires forall other: Row :: other != row ==> ChainOf(chains, other) == ChainOf(was, other)
    ensures Stripping(before, chains, rows + {row}, id)
  {
    hide Retain;
  }

  lemma KnownBegins(registry: Registry, begins: Begins, logs: Logs, seen: Seen, active: set<TxnId>, now: Timestamp,
          nextId: TxnId)
    requires Known(registry, begins, logs, seen, active, now, nextId)
    ensures registry.Keys == begins.Keys && forall t :: t in begins ==>
            begins[t] < now && registry[t].begin == begins[t]
  {
  }

  lemma KnownEnded(registry: Registry, begins: Begins, logs: Logs, seen: Seen, active: set<TxnId>, now: Timestamp,
          later: Timestamp, nextId: TxnId, id: TxnId, t: Transaction)
    requires Known(registry, begins, logs, seen, active, now, nextId) && id in registry && now <= later
    requires t.begin == registry[id].begin && !t.state.Live()
    ensures Known(registry[id := t], begins, logs, seen, active - {id}, later, nextId)
  {
  }

  /** Committing keeps everything there is to keep. */
  lemma CommittedState(chains: Chains, chains': Chains, history: History, history': History, floor: Timestamp,
          now: Timestamp, nextId: TxnId, begins: Begins, active: set<TxnId>, logs: Logs, seen: Seen,
          loose: set<(TxnId, Row)>, registry: Registry, locks: Locks, locks': Locks, id: TxnId, t: Transaction)
    requires RowsOk(chains, history, floor, now, begins, active) && OwnOk(chains, logs, active)
    requires Known(registry, begins, logs, seen, active, now, nextId)
             && TxnsOk(registry, logs, active, history, floor, now)
    requires SerialOk(registry, history, now) && SeenOk(registry, seen, history)
             && LocksOk(chains, locks, logs, active, loose)
    requires id in active && id in registry && id in logs && !MustFail(registry[id], history)
    requires t == registry[id].(state := Committed, commitTs := Some(now))
    requires Finalizing(chains, chains', RowsOf(logs[id]), id, now) && Recording(history, history', logs[id], id, now)
    requires Releasing(locks, locks', id)
    ensures RowsOk(chains', history', floor, now + 1, begins, active - {id}) && OwnOk(chains', logs, active - {id})
    ensures Known(registry[id := t], begins, logs, seen, active - {id}, now + 1, nextId)
    ensures TxnsOk(registry[id := t], logs, active - {id}, history', floor, now + 1)
    ensures SerialOk(registry[id := t], history', now + 1) && SeenOk(registry[id := t], seen, history')
    ensures LocksOk(chains', locks', logs, active - {id}, loose)
  {
    hide RowsOk, OwnOk, Known, TxnsOk, SerialOk, SeenOk, LocksOk, Releasing, Recording, CommittedSince, Finalizing,
         RowsOf;
    KnownBegins(registry, begins, logs, seen, active, now, nextId);
    CommittedRows(chains, chains', history, history', floor, now, begins, active, logs, id);
    CommittedOwn(chains, chains', active, logs, RowsOf(logs[id]), id, now);
    CommittedLocks(chains, chains', locks, locks', logs, active, loose, RowsOf(logs[id]), id, now);
    KnownEnded(registry, begins, logs, seen, active, now, now + 1, nextId, id, t);
    ActiveKnown(registry, logs, active, history, floor, now);
    CommittedTxns(registry, registry[id := t], logs, active, history, history', floor, now, id, logs[id]);
    assert TxnOk(id, registry[id], logs[id], history, floor, now) by {
      TxnAt(registry, logs, active, history, floor, now, id);
    }
    CommittedSerial(registry, registry[id := t], history, history', now, id, logs[id]);
    CommittedSeen(registry, registry[id := t], seen, history, history', now, id, logs[id]);
  }

  /** ... and when it leaves a version uncommitted, overwrites a commit it did not see, or was
      disturbed. */
  lemma CommittedExactly(chains: Chains, chains': Chains, history: History, history': History, floor: Timestamp,
          now: Timestamp, begins: Begins, active: set<TxnId>, logs: Logs, seen: Seen, registry: Registry, id: TxnId,
          t: Transaction)
    requires RowsOk(chains, history, floor, now, begins, active) && OwnOk(chains, logs, active)
    requires id in active && id in registry && id in logs && id in seen && RecallOk(registry, seen)
    requires !MustFail(registry[id], history) && TxnOk(id, registry[id], logs[id], history, floor, now)
    requires t == registry[id].(state := Committed, commitTs := Some(now))
    requires Finalizing(chains, chains', RowsOf(logs[id]), id, now) && Recording(history, history', logs[id], id, now)
    ensures RecallOk(registry[id := t], seen)
    ensures Stamped(chains', id) <==> WrittenOnce(registry[id].undo)
    ensures Overwrote(t, history') <==>
            exists row :: row in t.writeSet && CommittedSince(CommitsOf(history, row), t.begin)
    ensures t.isolation == Serializable ==>
              (Undisturbed(t, seen[id], history') <==> forall row :: row in Dropped(registry[id], seen[id]) ==>
                 !CommittedSince(CommitsOf(history, row), t.begin))
  {
    hide RowsOk, OwnOk, Recording, CommittedSince, Finalizing, RowsOf, Stamped, WrittenOnce, Overwrote, Undisturbed;
    StampedIff(chains, chains', logs, active, id, t.undo, now);
    OverwroteIff(chains, history, history', floor, now, begins, active, logs[id], id, t);
    RecallAt(registry, seen, id);
    Recalled(registry, seen, id, t);
    if t.isolation == Serializable {
      UndisturbedIff(chains, history, history', floor, now, begins, active, logs[id], id, t, seen[id]);
    }
  }

  lemma ActiveKnown(registry: Registry, logs: Logs, active: set<TxnId>, history: History, floor: Timestamp,
          now: Timestamp)
    requires TxnsOk(registry, logs, active, history, floor, now)
    ensures active <= registry.Keys
  {
  }

  /** Rolling back keeps it too. */
  lemma RolledBackState(chains: Chains, chains': Chains, history: History, floor: Timestamp, now: Timestamp,
          nextId: TxnId, begins: Begins, active: set<TxnId>, logs: Logs, seen: Seen, loose: set<(TxnId, Row)>,
          registry: Registry, locks: Locks, locks': Locks, id: TxnId, t: Transaction)
    requires RowsOk(chains, history, floor, now, begins, active) && OwnOk(chains, logs, active)
    requires Known(registry, begins, logs, seen, active, now, nextId)
             && TxnsOk(registry, logs, active, history, floor, now)
    requires SerialOk(registry, history, now) && SeenOk(registry, seen, history)
             && LocksOk(chains, locks, logs, active, loose)
    requires id in registry && t == registry[id].(state := Aborted, undo := [])
    requires Stripping(chains, chains', t.writeSet, id) && Releasing(locks, locks', id)
    ensures RowsOk(chains', history, floor, now, begins, active - {id}) && OwnOk(chains', logs, active - {id})
    ensures Known(registry[id := t], begins, logs, seen, active - {id}, now, nextId)
    ensures TxnsOk(registry[id := t], logs, active - {id}, history, floor, now)
    ensures SerialOk(registry[id := t], history, now) && SeenOk(registry[id := t], seen, history)
    ensures LocksOk(chains', locks', logs, active - {id}, loose)
  {
    StrippedRows(chains, chains', history, floor, now, begins, active, t.writeSet, id);
    StrippedOwn(chains, chains', active, logs, t.writeSet, id);
    StrippedLocks(chains, chains', locks, locks', logs, active, loose, t.writeSet, id);
    KnownEnded(registry, begins, logs, seen, active, now, now, nextId, id, t);
    AbortedTxns(registry, logs, active, seen, history, floor, now, id, t);
    hide RowsOk, OwnOk, Known, TxnsOk, SerialOk, SeenOk, LocksOk, Releasing, Stripping;
  }

  lemma AbortedTxns(registry: Registry, logs: Logs, active: set<TxnId>, seen: Seen, history: History, floor: Timestamp,
          now: Timestamp, id: TxnId, t: Transaction)
    requires TxnsOk(registry, logs, active, history, floor, now) && SerialOk(registry, history, now)
             && SeenOk(registry, seen, history)
    requires id in registry && t == registry[id].(state := Aborted, undo := [])
    ensures TxnsOk(registry[id := t], logs, active - {id}, history, floor, now)
    ensures SerialOk(registry[id := t], history, now) && SeenOk(registry[id := t], seen, history)
  {
    hide TxnOk, QuietBetween, LastAt;
  }

  // ----- savepoints --------------------------------------------------------------------------

  function WithoutOwn(chain: Chain, id: TxnId): Chain
  {
    var i := FirstOwn(chain, id);
    if i < |chain| then chain[..i] + chain[i + 1..] else chain
  }

  /** Which locks undoing some rows leaves loose: those of rows the transaction still has intents
      on. */
  ghost predicate LooseRight(before: set<(TxnId, Row)>, after: set<(TxnId, Row)>, id: TxnId, undone: set<Row>,
          log: seq<Write>)
  {
    forall w: TxnId, row: Row :: (w, row) in after <==>
      if w == id && row in undone then Pending(log, row) != [] else (w, row) in before
  }

  /** Undoing writes gives up the locks of their rows. */
  ghost predicate Unlocking(before: Locks, after: Locks, id: TxnId, undone: set<Row>)
  {
    forall row: Row ::
      if row in undone then GaveUpWriting(LockOf(before, row), LockOf(after, row), id)
      else LockOf(after, row) == LockOf(before, row)
  }

  lemma UnlockingStep(before: Locks, locks: Locks, locks': Locks, id: TxnId, log: seq<Write>, n: nat)
    requires n < |log| && Unlocking(before, locks, id, RowsOf(log[n + 1..]))
    requires GaveUpWriting(LockOf(locks, log[n].row), LockOf(locks', log[n].row), id)
    requires forall other: Row :: other != log[n].row ==> LockOf(locks', other) == LockOf(locks, other)
    ensures Unlocking(before, locks', id, RowsOf(log[n..]))
  {
    assert forall w :: w in log[n..] <==> w in log[n + 1..] || w == log[n];
    assert RowsOf(log[n..]) == RowsOf(log[n + 1..]) + {log[n].row};
    hide RowsOf;
  }

  lemma HoldersUnlocked(locks: Locks, locks': Locks, active: set<TxnId>, id: TxnId, undone: set<Row>)
    requires HoldersOk(locks, active) && Unlocking(locks, locks', id, undone)
    ensures HoldersOk(locks', active)
  {
    hide HoldersLive, GaveUpWriting;
    forall row: Row ensures HoldersLive(LockOf(locks', row), active) {
      HolderLeaves(LockOf(locks, row), LockOf(locks', row), active, id);
    }
  }

  /** No active transaction but this one holds the row. */
  ghost predicate Unheld(e: LockEntry, id: TxnId, active: set<TxnId>)
  {
    forall w :: w in active && Holder(e, w) ==> w == id
  }

  /** The row can be locked for writing if and only if no one else holds it. */
  lemma CanLockIff(e: LockEntry, id: TxnId, active: set<TxnId>)
    requires HoldersLive(e, active)
    ensures CanLock(e, id) <==> Unheld(e, id, active)
  {
    assert e.exclusive.Some? ==> Holder(e, e.exclusive.value);
    assert forall w :: w in e.shared ==> Holder(e, w);
  }

  /** A write goes through if and only if its transaction is active, no other active one holds the row,
      and the row is there to be changed, or not there to be inserted. */
  lemma GoesThroughIff(registry: Registry, begins: Begins, logs: Logs, seen: Seen, active: set<TxnId>, now: Timestamp,
          nextId: TxnId, locks: Locks, id: TxnId, row: Row, shown: Option<Value>, mustExist: bool)
    requires Known(registry, begins, logs, seen, active, now, nextId) && HoldersOk(locks, active)
    ensures Verdict(registry, locks, id, row, shown, mustExist).None?
            <==> id in active && shown.Some? == mustExist && Unheld(LockOf(locks, row), id, active)
  {
    HoldersAt(locks, active, row);
    CanLockIff(LockOf(locks, row), id, active);
    hide CanLock, Unheld, HoldersOk;
  }

  lemma NothingUndone(loose: set<(TxnId, Row)>, locks: Locks, id: TxnId, log: seq<Write>)
    ensures Unlocking(locks, locks, id, RowsOf(log[|log|..]))
    ensures LooseRight(loose, loose, id, RowsOf(log[|log|..]), log[..|log|])
  {
  }

  lemma LooseStep(before: set<(TxnId, Row)>, loose: set<(TxnId, Row)>, id: TxnId, log: seq<Write>, n: nat)
    requires n < |log| && LooseRight(before, loose, id, RowsOf(log[n + 1..]), log[..n + 1])
    ensures LooseRight(before, LooseAfter(loose, id, log[n].row, log[..n]), id, RowsOf(log[n..]), log[..n])
  {
    assert log[..n + 1][..n] == log[..n];
    PendingLess(log[..n + 1]);
    assert forall w :: w in log[n..] <==> w in log[n + 1..] || w == log[n];
    assert RowsOf(log[n..]) == RowsOf(log[n + 1..]) + {log[n].row};
    hide RowsOf, Pending;
  }

  lemma LastIntent(chains: Chains, logs: Logs, active: set<TxnId>, id: TxnId)
    requires OwnOk(chains, logs, active) && id in active && id in logs && logs[id] != []
    ensures var row := logs[id][|logs[id]| - 1].row;
            row in chains && FirstOwn(ChainOf(chains, row), id) < |ChainOf(chains, row)|
  {
    var w := logs[id][|logs[id]| - 1];
    assert w in logs[id];
    HasIntent(chains, logs, active, id, w.row);
  }

  lemma OneMoreMark(savepoints: seq<Savepoint>, sp: Savepoint, log: seq<Write>)
    requires Marked(savepoints, log) && sp.undoLen == |log| && sp.writeSet == RowsOf(log) <= sp.readSet
    ensures Marked(savepoints + [sp], log)
  {
    assert log[..|log|] == log;
  }

  lemma {:induction false} NotNamedIs(savepoints: seq<Savepoint>, name: string)
    requires InTurn(savepoints)
    ensures InTurn(NotNamed(savepoints, name)) && forall sp :: sp in NotNamed(savepoints, name) ==> sp in savepoints
    ensures |NotNamed(savepoints, name)| <= |savepoints|
    ensures |NotNamed(savepoints, name)| == |savepoints| <==> SavepointAt(savepoints, name) == |savepoints|
  {
    hide InTurn;
    if savepoints == [] {
      FirstInTurn([]);
    } else {
      FirstInTurn(savepoints);
      NotNamedIs(savepoints[1..], name);
      FirstInTurn([savepoints[0]] + NotNamed(savepoints[1..], name));
      assert ([savepoints[0]] + NotNamed(savepoints[1..], name))[1..] == NotNamed(savepoints[1..], name);
    }
  }

  lemma FirstInTurn(savepoints: seq<Savepoint>)
    ensures savepoints == [] ==> InTurn(savepoints)
    ensures savepoints != [] ==>
              (InTurn(savepoints) <==>
                 InTurn(savepoints[1..]) && forall sp :: sp in savepoints[1..] ==> savepoints[0].undoLen <= sp.undoLen)
  {
    if savepoints != [] {
      var rest := savepoints[1..];
      assert forall i :: 0 < i < |savepoints| ==> savepoints[i] == rest[i - 1] && rest[i - 1] in rest;
      assert forall i :: 0 <= i < |rest| ==> rest[i] == savepoints[i + 1];
    }
  }

  /** Rolling back to a savepoint keeps it and the earlier ones, and of the later ones exactly those
      with no write in between. */
  lemma SavepointsKept(savepoints: seq<Savepoint>, i: nat) returns (n: nat)
    requires InTurn(savepoints) && i < |savepoints|
    ensures i < n <= |savepoints| && NotAfter(savepoints, savepoints[i].undoLen) == savepoints[..n]
    ensures forall j :: i < j < |savepoints| ==> (j < n <==> savepoints[j].undoLen == savepoints[i].undoLen)
  {
    n := NotAfterIs(savepoints, savepoints[i].undoLen);
  }

  lemma {:induction false} NotAfterIs(savepoints: seq<Savepoint>, undoLen: nat) returns (n: nat)
    requires InTurn(savepoints)
    ensures n <= |savepoints| && NotAfter(savepoints, undoLen) == savepoints[..n]
    ensures forall j :: 0 <= j < |savepoints| ==> (j < n <==> savepoints[j].undoLen <= undoLen)
  {
    hide InTurn, NotAfter;
    if savepoints == [] {
      n := 0;
      NoneAfter(undoLen);
    } else {
      FirstInTurn(savepoints);
      var m := NotAfterIs(savepoints[1..], undoLen);
      NotAfterFirst(savepoints, undoLen, m);
      n := if savepoints[0].undoLen <= undoLen then m + 1 else 0;
    }
  }

  lemma NoneAfter(undoLen: nat)
    ensures NotAfter([], undoLen) == []
  {
  }

  lemma NotAfterFirst(savepoints: seq<Savepoint>, undoLen: nat, n: nat)
    requires savepoints != [] && n <= |savepoints| - 1 && NotAfter(savepoints[1..], undoLen) == savepoints[1..][..n]
    requires forall j :: 0 <= j < |savepoints| - 1 ==> (j < n <==> savepoints[1..][j].undoLen <= undoLen)
    requires forall sp :: sp in savepoints[1..] ==> savepoints[0].undoLen <= sp.undoLen
    ensures var m := if savepoints[0].undoLen <= undoLen then n + 1 else 0;
            && NotAfter(savepoints, undoLen) == savepoints[..m]
            && forall j :: 0 <= j < |savepoints| ==> (j < m <==> savepoints[j].undoLen <= undoLen)
  {
    var rest := savepoints[1..];
    assert forall j :: 0 < j < |savepoints| ==> savepoints[j] == rest[j - 1] && rest[j - 1] in rest;
  }

  lemma CutTxn(id: TxnId, t: Transaction, log: seq<Write>, history: History, floor: Timestamp, now: Timestamp,
          sp: Savepoint)
    requires TxnOk(id, t, log, history, floor, now) && sp in t.savepoints
    ensures sp.undoLen <= |log|
    ensures TxnOk(id, t.(undo := t.undo[..sp.undoLen], writeSet := sp.writeSet, readSet := sp.readSet,
            savepoints := NotAfter(t.savepoints, sp.undoLen)),
                  log[..sp.undoLen], history, floor, now)
  {
    hide Blind;
    var less := log[..sp.undoLen];
    var n := NotAfterIs(t.savepoints, sp.undoLen);
    forall x | x in NotAfter(t.savepoints, sp.undoLen)
      ensures x.undoLen <= |less| && x.writeSet == RowsOf(less[..x.undoLen]) && x.writeSet <= x.readSet
    {
      assert less[..x.undoLen] == log[..x.undoLen];
    }
  }

  lemma CutOk(registry: Registry, begins: Begins, logs: Logs, seen: Seen, active: set<TxnId>, history: History,
          floor: Timestamp, now: Timestamp, nextId: TxnId, id: TxnId, sp: Savepoint, t: Transaction)
    requires Known(registry, begins, logs, seen, active, now, nextId)
    requires TxnsOk(registry, logs, active, history, floor, now) && SerialOk(registry, history, now)
             && SeenOk(registry, seen, history)
    requires id in active && id in registry && id in logs && sp in registry[id].savepoints && registry[id].state.Live()
    requires t == registry[id].(undo := t.undo, writeSet := sp.writeSet, readSet := sp.readSet,
             savepoints := NotAfter(registry[id].savepoints, sp.undoLen))
    requires sp.undoLen <= |registry[id].undo| && t.undo == registry[id].undo[..sp.undoLen]
    ensures sp.undoLen <= |logs[id]|
    ensures Known(registry[id := t], begins, logs[id := logs[id][..sp.undoLen]], seen, active, now, nextId)
    ensures TxnsOk(registry[id := t], logs[id := logs[id][..sp.undoLen]], active, history, floor, now)
    ensures SerialOk(registry[id := t], history, now) && SeenOk(registry[id := t], seen, history)
  {
    assert TxnOk(id, registry[id], logs[id], history, floor, now);
    CutTxn(id, registry[id], logs[id], history, floor, now, sp);
    hide TxnOk, QuietBetween, LastAt;
  }

  // ----- garbage collection ------------------------------------------------------------------

  lemma ViewInTime(registry: Registry, logs: Logs, active: set<TxnId>, history: History, floor: Timestamp,
          now: Timestamp, id: TxnId)
    requires TxnsOk(registry, logs, active, history, floor, now) && id in active
    ensures id in registry && floor <= registry[id].view.snapshot <= now
  {
  }

  /** The oldest snapshot of any active transaction. */
  ghost predicate OldestView(registry: Registry, active: set<TxnId>, oldest: Option<Timestamp>)
  {
    && (oldest.None? <==> active == {})
    && (oldest.Some? ==> exists id :: id in active && id in registry && registry[id].view.snapshot == oldest.value)
    && forall id :: id in active && id in registry && oldest.Some? ==> oldest.value <= registry[id].view.snapshot
  }

  /** How many versions the chains of some rows hold. */
  ghost function Total(chains: Chains, rows: set<Row>): nat
  {
    if rows == {} then 0
    else
      var row :| row in rows;
      |ChainOf(chains, row)| + Total(chains, rows - {row})
  }

  lemma NoneTotal(chains: Chains)
    ensures forall rows: set<Row> :: rows == {} ==> Total(chains, rows) == 0
  {
  }

  lemma {:induction false} TotalLess(chains: Chains, rows: set<Row>, row: Row)
    requires row in rows
    ensures Total(chains, rows) == |ChainOf(chains, row)| + Total(chains, rows - {row})
  {
    var other :| other in rows && Total(chains, rows) == |ChainOf(chains, other)| + Total(chains, rows - {other});
    if other != row {
      TotalLess(chains, rows - {other}, row);
      TotalLess(chains, rows - {row}, other);
      assert rows - {other} - {row} == rows - {row} - {other};
    }
  }

  lemma {:induction false} TotalSame(a: Chains, b: Chains, rows: set<Row>)
    requires forall row :: row in rows ==> ChainOf(a, row) == ChainOf(b, row)
    ensures Total(a, rows) == Total(b, rows)
  {
    if rows != {} {
      var row :| row in rows;
      TotalLess(a, rows, row);
      TotalLess(b, rows, row);
      TotalSame(a, b, rows - {row});
    }
  }

  lemma TotalSwept(before: Chains, was: Chains, chains: Chains, done: set<Row>, row: Row)
    requires row !in done && row in before && row in was && row in chains && was[row] == before[row]
             && chains == was[row := chains[row]]
    requires |chains[row]| <= |was[row]|
    ensures Total(chains, done + {row}) == Total(was, done) + |chains[row]|
    ensures Total(before, done + {row}) == Total(before, done) + |before[row]|
  {
    TotalLess(chains, done + {row}, row);
    TotalLess(before, done + {row}, row);
    assert done + {row} - {row} == done;
    TotalSame(chains, was, done);
    hide Total;
  }

  /** Chains of which some are not swept yet, and those of the others that are empty now. */
  ghost predicate HalfSwept(before: Chains, chains: Chains, todo: set<Row>, emptied: set<Row>,
          oldest: Option<Timestamp>)
  {
    && chains.Keys == before.Keys && todo <= before.Keys
    && (forall row :: row in before ==>
      chains[row] == if row in todo then before[row] else Retain(before[row], Survives(oldest)))
    && forall row :: row in emptied <==> row in before && row !in todo && chains[row] == []
  }

  lemma SweptNone(chains: Chains, oldest: Option<Timestamp>)
    ensures HalfSwept(chains, chains, chains.Keys, {}, oldest)
  {
  }

  lemma HalfSweptAt(before: Chains, chains: Chains, todo: set<Row>, emptied: set<Row>, oldest: Option<Timestamp>,
          row: Row)
    requires HalfSwept(before, chains, todo, emptied, oldest) && row in todo
    ensures row in before && row in chains && chains[row] == before[row]
  {
    hide Retain;
  }

  lemma SweptOne(before: Chains, chains: Chains, todo: set<Row>, emptied: set<Row>, oldest: Option<Timestamp>, row: Row)
    requires HalfSwept(before, chains, todo, emptied, oldest) && row in todo && row in chains
    ensures var left := Retain(chains[row], Survives(oldest));
            HalfSwept(before, chains[row := left], todo - {row}, if left == [] then emptied + {row} else emptied,
              oldest)
  {
    hide Retain;
  }

  lemma SweptEnd(before: Chains, chains: Chains, emptied: set<Row>, oldest: Option<Timestamp>)
    requires HalfSwept(before, chains, {}, emptied, oldest)
    ensures Sweeping(before, chains - emptied, oldest)
    ensures forall row: Row :: ChainOf(chains - emptied, row) == ChainOf(chains, row)
  {
    assert Retain([], Survives(oldest)) == [];
    hide Retain;
  }

  lemma SweptTxns(registry: Registry, logs: Logs, active: set<TxnId>, history: History, floor: Timestamp,
          now: Timestamp, oldest: Option<Timestamp>)
    requires TxnsOk(registry, logs, active, history, floor, now)
    requires forall id :: id in active ==> id in registry && oldest.Some? && oldest.value <= registry[id].view.snapshot
    ensures TxnsOk(registry, logs, active, history, Raised(floor, now, oldest), now)
  {
    hide Blind, Marked, Aligned, RowsOf;
  }

  /** Collecting takes no version a view shows. */
  lemma {:induction false} VisibleRetained(chain: Chain, keep: Version -> bool, rv: ReadView)
    requires forall v :: v in chain && IsVisible(rv, v) ==> keep(v)
    ensures FirstVisible(Retain(chain, keep), rv) == FirstVisible(chain, rv)
  {
    if chain != [] {
      VisibleRetained(chain[1..], keep, rv);
      if keep(chain[0]) {
        assert Retain(chain, keep)[1..] == Retain(chain[1..], keep);
      }
    }
  }

  ghost predicate SameView(chains: Chains, chains': Chains, registry: Registry, active: set<TxnId>, now: Timestamp,
          id: TxnId, row: Row)
  {
    id in registry
    && var rv := ViewOf(registry[id], now, active);
       FirstVisible(ChainOf(chains', row), rv) == FirstVisible(ChainOf(chains, row), rv)
  }

  /** A version is needed if it is not committed, current, or was current at some active transaction's
      snapshot or later. */
  ghost predicate Needed(v: Version, registry: Registry, active: set<TxnId>)
  {
    !v.committed || v.end.None?
    || exists id :: id in active && id in registry && registry[id].view.snapshot <= v.end.value
  }

  lemma NeededIff(v: Version, registry: Registry, active: set<TxnId>, oldest: Option<Timestamp>)
    requires OldestView(registry, active, oldest)
    ensures Survives(oldest)(v) <==> Needed(v, registry, active)
  {
  }

  ghost predicate OnlyNeeded(before: Chain, after: Chain, registry: Registry, active: set<TxnId>)
  {
    forall v :: v in after <==> v in before && Needed(v, registry, active)
  }

  /** Collecting leaves exactly the versions that are needed. */
  lemma SweptExactly(chains: Chains, chains': Chains, registry: Registry, active: set<TxnId>, oldest: Option<Timestamp>)
    requires Sweeping(chains, chains', oldest) && OldestView(registry, active, oldest)
    ensures forall row: Row :: OnlyNeeded(ChainOf(chains, row), ChainOf(chains', row), registry, active)
  {
    hide Retain, Needed, OldestView, Survives;
    forall row: Row ensures OnlyNeeded(ChainOf(chains, row), ChainOf(chains', row), registry, active) {
      RetainMembers(ChainOf(chains, row), Survives(oldest));
      forall v {
        NeededIff(v, registry, active, oldest);
      }
    }
  }

  lemma SweptViews(chains: Chains, chains': Chains, registry: Registry, logs: Logs, active: set<TxnId>,
          history: History, floor: Timestamp, now: Timestamp, begins: Begins, oldest: Option<Timestamp>)
    requires RowsOk(chains, history, floor, now, begins, active) && TxnsOk(registry, logs, active, history, floor, now)
    requires Sweeping(chains, chains', oldest) && OldestView(registry, active, oldest)
    ensures forall id, row: Row :: id in active ==> SameView(chains, chains', registry, active, now, id, row)
  {
    hide RowsOk, Retain, FirstVisible;
    forall id, row: Row | id in active
      ensures SameView(chains, chains', registry, active, now, id, row)
    {
      TxnAt(registry, logs, active, history, floor, now, id);
      RowAt(chains, history, floor, now, begins, active, row);
      var chain, h, rv := ChainOf(chains, row), CommitsOf(history, row), ViewOf(registry[id], now, active);
      forall v | v in chain && IsVisible(rv, v) ensures Survives(oldest)(v) {
        assert v.committed ==> Recorded(h, v);
      }
      VisibleRetained(chain, Survives(oldest), rv);
    }
  }
}
