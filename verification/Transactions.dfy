/** The transaction manager (src/txn.rs, lines 752-1561): any number of transactions over
    versioned rows. A ghost history of commits never forgets; what transactions read and whether
    they may commit is stated over it. */
module Transactions {
  import opened Options
  import opened Values
  import opened VersionChains
  import opened TxnStates
  import opened TxnEnds
  import opened TxnSteps

  class TxnManager {
    var nextTxnId: TxnId
    var nextTs: Timestamp
    var registry: Registry
    var active: set<TxnId>
    var chains: Chains
    var locks: Locks

    /** Every commit there ever was. */
    ghost var history: History
    ghost var begins: Begins
    /** Every transaction's writes, but for those rolled back to a savepoint. */
    ghost var logs: Logs
    /** What every transaction read of rows it had not written. */
    ghost var seen: Seen
    /** Versions closed earlier may have been collected. */
    ghost var floor: Timestamp
    /** Rows whose lock a transaction gave up although it has intents there. */
    ghost var loose: set<(TxnId, Row)>

    ghost predicate Valid()
      reads this
    {
      && RowsOk(chains, history, floor, nextTs, begins, active) && OwnOk(chains, logs, active)
      && Known(registry, begins, logs, seen, active, nextTs, nextTxnId)
        && TxnsOk(registry, logs, active, history, floor, nextTs)
      && SerialOk(registry, history, nextTs) && SeenOk(registry, seen, history)
      && LocksOk(chains, locks, logs, active, loose) && RecallOk(registry, seen) && HoldersOk(locks, active)
      && floor <= nextTs
    }

    /** The rows a transaction read and that the conflict check does not know of any more. */
    ghost function DroppedBy(id: TxnId): set<Row>
      reads this
    {
      if id in registry && id in seen then Dropped(registry[id], seen[id]) else {}
    }

    ghost function PendingOn(id: TxnId, row: Row): seq<Option<Value>>
      reads this
    {
      if id in logs then Pending(logs[id], row) else []
    }

    /** What a transaction finds when it looks at a row now. */
    ghost function Sees(id: TxnId, row: Row): Option<Value>
      reads this
    {
      if id in registry then ShownIn(FirstVisible(ChainOf(chains, row), ViewOf(registry[id], nextTs, active))) else None
    }

    /** Whatever happened before, a look at a row keeps the promise of the isolation level. */
    lemma LooksRight(id: TxnId, row: Row)
      requires Valid() && id in active
      ensures id in registry && registry[id].view.reader == id
      ensures ReadRight(Sees(id, row), ChainOf(chains, row), PendingOn(id, row), CommitsOf(history, row),
              registry[id], nextTs, (id, row) in loose)
    {
      hide RowsOk, OwnOk, TxnsOk, SerialOk, SeenOk, LocksOk, RecallOk, HoldersOk;
      TxnAt(registry, logs, active, history, floor, nextTs, id);
      SeesRight(chains, locks, history, floor, nextTs, begins, active, logs, loose, id, registry[id], row);
    }

    /** Lines 790-803. */
    constructor ()
      ensures Valid() && registry == map[] && active == {} && chains == map[] && locks == map[] && history == map[]
      ensures logs == map[] && seen == map[] && loose == {} && nextTs == nextTxnId == 1
    {
      nextTxnId, nextTs := 1, 1;
      registry, active, chains, locks := map[], {}, map[], map[];
      history, begins, logs, seen, floor, loose := map[], map[], map[], map[], 0, {};
    }

    /** Lines 900-912. */
    method Begin(isolation: Isolation) returns (id: TxnId)
      requires Valid()
      modifies this`nextTxnId, this`nextTs, this`registry, this`active, this`begins, this`logs, this`seen
      ensures Valid() && id == old(nextTxnId) && id !in old(registry) && nextTxnId == id + 1
              && nextTs == old(nextTs) + 1
      ensures active == old(active) + {id}
      ensures registry == old(registry)[id := NewTxn(id, old(nextTs), old(active), isolation)]
      ensures logs == old(logs)[id := []] && seen == old(seen)[id := map[]] && DroppedBy(id) == {}
    {
      hide NewTxn, Dropped, Recalls;
      hide RowsOk, OwnOk, Known, TxnsOk, SerialOk, SeenOk, LocksOk, RecallOk, HoldersOk;
      id := nextTxnId;
      nextTxnId := nextTxnId + 1;
      var now := nextTs;
      nextTs := nextTs + 1;
      KnownNew(registry, begins, logs, seen, active, now, id);
      var t := NewTxn(id, now, active, isolation);
      assert t.isolation == isolation by { NewIs(id, now, active, isolation); }
      NewRecalls(id, now, active, isolation);
      HoldersMore(locks, active, id);
      RecalledMore(registry, seen, id, t, map[]);
      Begun(chains, history, floor, now, begins, active, logs, id);
      BegunTxn(chains, registry, begins, logs, seen, active, history, floor, now, id, t);
      BegunLocks(chains, locks, logs, active, loose, id);
      KnownBegun(registry, begins, logs, seen, active, now, id, t);
      registry := registry[id := t];
      active := active + {id};
      begins := begins[id := now];
      logs := logs[id := []];
      seen := seen[id := map[]];
    }

    /** Lines 929-938. */
    method Prepare(id: TxnId) returns (r: Option<Error>)
      requires Valid()
      modifies this`registry
      ensures Valid() && r == Refusal(old(registry), id)
      ensures registry == if r.Some? then old(registry) else old(registry)[id := old(registry)[id].(state := Prepared)]
    {
      hide RowsOk, OwnOk, Known, TxnsOk, SerialOk, SeenOk, LocksOk, RecallOk, HoldersOk;
      r := Refusal(registry, id);
      if r.Some? {
        return;
      }
      var t := registry[id];
      if t.state == Prepared {
        assert registry[id := t.(state := Prepared)] == registry;
        return;
      }
      KnownLive(registry, begins, logs, seen, active, nextTs, nextTxnId, id);
      TxnAt(registry, logs, active, history, floor, nextTs, id);
      Changed(registry, begins, logs, seen, active, history, floor, nextTs, nextTxnId, id, t.(state := Prepared));
      RecallAt(registry, seen, id);
      Recalled(registry, seen, id, t.(state := Prepared));
      registry := registry[id := t.(state := Prepared)];
    }

    /** Lines 1059-1076. */
    method Read(id: TxnId, row: Row) returns (r: Result<Option<Value>, Error>)
      requires Valid()
      modifies this`registry, this`seen
      ensures Valid()
      ensures match Refusal(old(registry), id)
              case Some(e) => r == Err(e) && registry == old(registry) && seen == old(seen)
              case None =>
                && r == Ok(old(Sees(id, row)))
                && registry == old(registry)[id := Reading(old(registry)[id], row, nextTs, active)]
                && ReadRight(r.value, ChainOf(chains, row), PendingOn(id, row), CommitsOf(history, row), registry[id],
                  nextTs, (id, row) in loose)
                && DroppedBy(id) == old(DroppedBy(id)) - {row}
                && seen == if PendingOn(id, row) == [] then old(seen)[id := Noted(old(seen)[id], row, r.value)]
                           else old(seen)
    {
      hide RowsOk, OwnOk, Known, TxnsOk, SerialOk, SeenOk, LocksOk, RecallOk, HoldersOk, ReadRight, Pending, Dropped;
      var refusal := Refusal(registry, id);
      if refusal.Some? {
        return Err(refusal.value);
      }
      var t := registry[id];
      KnownLive(registry, begins, logs, seen, active, nextTs, nextTxnId, id);
      ghost var noted := if PendingOn(id, row) == [] then Noted(seen[id], row, Sees(id, row)) else seen[id];
      ReadKeeps(chains, locks, registry, begins, logs, seen, active, history, floor, nextTs, nextTxnId, loose, id,
        row, Sees(id, row), noted);
      var view := t.view;
      if t.isolation == ReadCommitted {
        view := t.view.(snapshot := nextTs, active := active);
      }
      registry := registry[id := t.(view := view, readSet := t.readSet + {row})];
      var found := None;
      if row in chains {
        found := VisibleFor(chains[row], view);
      }
      r := Ok(ShownIn(found));
      assert ShownIn(found) == old(Sees(id, row));
      if PendingOn(id, row) == [] {
        seen := seen[id := Noted(seen[id], row, ShownIn(found))];
      }
      assert old(seen)[id := noted] == seen;
    }

    /** Lines 1083-1109. */
    method AcquireExclusive(id: TxnId, row: Row) returns (ok: bool)
      requires Valid() && id in active
      modifies this`locks
      ensures Valid() && ok == CanLock(LockOf(old(locks), row), id)
      ensures ok <==> Unheld(LockOf(old(locks), row), id, active)
      ensures ok ==> LockOf(locks, row).exclusive == Some(id) && LockOf(locks, row).shared == {}
      ensures locks == if ok then Locked(old(locks), id, row) else old(locks)
    {
      hide RowsOk, OwnOk, Known, TxnsOk, SerialOk, SeenOk, LocksOk, RecallOk, HoldersOk;
      var entry := LockOf(locks, row);
      HoldersAt(locks, active, row);
      CanLockIff(entry, id, active);
      if entry.exclusive == Some(id) {
        return true;
      }
      if entry.exclusive.None? && (entry.shared == {} || entry.shared == {id}) {
        assert entry.shared - {id} == {};
        Acquired(chains, locks, locks[row := LockEntry({}, Some(id))], logs, active, loose, row);
        HoldersChanged(locks, locks[row := LockEntry({}, Some(id))], active, row);
        locks := locks[row := LockEntry(entry.shared - {id}, Some(id))];
        return true;
      }
      assert entry.exclusive.None? ==> !(entry.shared <= {id});
      return false;
    }

    /** Lines 1112-1128. */
    method AcquireShared(id: TxnId, row: Row) returns (ok: bool)
      requires Valid() && id in active
      modifies this`locks
      ensures Valid() && ok == var e := LockOf(old(locks), row).exclusive; e.None? || e == Some(id)
      ensures var e := LockOf(old(locks), row);
              locks == if e.exclusive.None? then old(locks)[row := e.(shared := e.shared + {id})] else old(locks)
    {
      hide RowsOk, OwnOk, Known, TxnsOk, SerialOk, SeenOk, LocksOk, RecallOk, HoldersOk;
      var entry := LockOf(locks, row);
      if entry.exclusive.None? {
        var more := entry.(shared := entry.shared + {id});
        Acquired(chains, locks, locks[row := more], logs, active, loose, row);
        HoldersAt(locks, active, row);
        HoldersChanged(locks, locks[row := more], active, row);
        locks := locks[row := more];
      }
      return entry.exclusive.None? || entry.exclusive == Some(id);
    }

    /** Lines 1171-1178. */
    method AcquireLock(id: TxnId, row: Row, exclusive: bool) returns (r: Option<Error>)
      requires Valid()
      modifies this`locks
      ensures Valid()
      ensures r == if Refusal(registry, id).Some? then Refusal(registry, id)
                   else if exclusive && !CanLock(LockOf(old(locks), row), id) then Some(LockConflict(row))
                   else if !exclusive && LockOf(old(locks), row).exclusive.Some?
                     && LockOf(old(locks), row).exclusive != Some(id) then Some(LockConflict(row))
                   else None
      ensures Refusal(registry, id).None? && exclusive ==>
                (r.None? <==> Unheld(LockOf(old(locks), row), id, active))
      ensures r.Some? ==> locks == old(locks)
      ensures r.None? ==> LockOf(locks, row).exclusive == Some(id) || (!exclusive && id in LockOf(locks, row).shared)
      ensures forall other: Row :: other != row ==> LockOf(locks, other) == LockOf(old(locks), other)
    {
      hide RowsOk, OwnOk, Known, TxnsOk, SerialOk, SeenOk, LocksOk, RecallOk, HoldersOk;
      r := Refusal(registry, id);
      if r.Some? {
        return;
      }
      KnownLive(registry, begins, logs, seen, active, nextTs, nextTxnId, id);
      var ok: bool;
      if exclusive {
        ok := AcquireExclusive(id, row);
      } else {
        ok := AcquireShared(id, row);
      }
      return if ok then None else Some(LockConflict(row));
    }

    /** Lines 1154-1167: a write that found no row gives the lock up again, whatever else the
        transaction has written there. */
    method ReleaseOneLock(id: TxnId, row: Row)
      requires Valid() && id in logs
      modifies this`locks, this`loose
      ensures Valid() && GaveUp(LockOf(old(locks), row), LockOf(locks, row), id)
      ensures forall other: Row :: other != row ==> LockOf(locks, other) == LockOf(old(locks), other)
      ensures loose == if PendingOn(id, row) == [] then old(loose) else old(loose) + {(id, row)}
    {
      hide RowsOk, OwnOk, Known, TxnsOk, SerialOk, SeenOk, LocksOk, RecallOk, HoldersOk;
      ghost var before := locks;
      if row in locks {
        var entry := Released(locks[row], id);
        locks := locks - {row};
        if entry.shared != {} || entry.exclusive.Some? {
          locks := locks[row := entry];
        }
      }
      LetGo(chains, before, locks, logs, active, loose, row, id);
      HoldersAt(before, active, row);
      HolderLeaves(LockOf(before, row), LockOf(locks, row), active, id);
      HoldersChanged(before, locks, active, row);
      if PendingOn(id, row) != [] {
        loose := loose + {(id, row)};
      }
    }

    /** Lines 1197-1209, 1221-1233 and 1245-1257. */
    method Intend(id: TxnId, undo: Undo, v: Version)
      requires Valid() && id in active && id in registry && id in logs && LockOf(locks, undo.row).exclusive == Some(id)
      requires undo.row in registry[id].readSet && id in seen
      requires v.writer == id && !v.committed && v.begin == registry[id].begin && v.end == None
               && (v.deleted ==> v.value == Null)
      modifies this`registry, this`chains, this`logs
      ensures Valid() && chains == old(chains)[undo.row := [v] + ChainOf(old(chains), undo.row)]
      ensures logs == old(logs)[id := old(logs)[id] + [Write(undo.row, Shown(v))]]
      ensures registry == Logged(old(registry), id, undo) && DroppedBy(id) == old(DroppedBy(id))
    {
      hide RowsOk, OwnOk, Known, TxnsOk, SerialOk, SeenOk, LocksOk, RecallOk, HoldersOk;
      var row := undo.row;
      var t := registry[id];
      TxnAt(registry, logs, active, history, floor, nextTs, id);
      TagOf(registry, begins, logs, seen, active, nextTs, nextTxnId, v);
      Wrote(chains, history, floor, nextTs, begins, active, logs, row, v);
      WroteHeld(chains, locks, logs, active, loose, row, v);
      ghost var log := logs[id] + [Write(row, Shown(v))];
      LoggedTxn(registry, begins, logs, seen, active, history, floor, nextTs, nextTxnId, id, undo,
        Write(row, Shown(v)));
      RecallAt(registry, seen, id);
      Recalled(registry, seen, id, t.(undo := t.undo + [undo], writeSet := t.writeSet + {row}));
      chains := chains[row := [v] + ChainOf(chains, row)];
      registry := registry[id := t.(undo := t.undo + [undo], writeSet := t.writeSet + {row})];
      logs := logs[id := log];
    }

    /** What inserting, updating and deleting begin with: the row's lock, and a look whether it
        is there (lines 1191-1196, 1215-1220 and 1239-1244). */
    method Attempt(id: TxnId, row: Row, mustExist: bool) returns (r: Option<Error>)
      requires Valid()
      modifies this`registry, this`locks, this`seen, this`loose
      ensures Valid() && r == Verdict(old(registry), old(locks), id, row, old(Sees(id, row)), mustExist)
      ensures r.None?
              <==> id in active && old(Sees(id, row)).Some? == mustExist && Unheld(LockOf(old(locks), row), id, active)
      ensures registry == Looked(old(registry), id, row, nextTs, active, r)
      ensures r.None? || r == Some(RowExists(row)) ==>
              locks == Locked(old(locks), id, row) && LockOf(locks, row).exclusive == Some(id)
      ensures r == Some(RowMissing(row)) ==>
                && GaveUp(LockOf(old(locks), row), LockOf(locks, row), id)
                && forall other: Row :: other != row ==> LockOf(locks, other) == LockOf(old(locks), other)
      ensures Refusal(old(registry), id).Some? || r == Some(LockConflict(row)) ==> locks == old(locks)
      ensures loose == if r == Some(RowMissing(row))
              && PendingOn(id, row) != [] then old(loose) + {(id, row)} else old(loose)
      ensures r.None? ==> id in active && id in registry && id in logs && id in seen
      ensures DroppedBy(id) == if Saw(r) then old(DroppedBy(id)) - {row} else old(DroppedBy(id))
    {
      hide RowsOk, OwnOk, Known, TxnsOk, SerialOk, SeenOk, LocksOk, RecallOk, HoldersOk, ReadRight;
      GoesThroughIff(registry, begins, logs, seen, active, nextTs, nextTxnId, locks, id, row, Sees(id, row), mustExist);
      r := Refusal(registry, id);
      if r.Some? {
        return;
      }
      KnownLive(registry, begins, logs, seen, active, nextTs, nextTxnId, id);
      var ok := AcquireExclusive(id, row);
      if !ok {
        return Some(LockConflict(row));
      }
      var shown := Read(id, row);
      if mustExist && shown.value.None? {
        ReleaseOneLock(id, row);
        return Some(RowMissing(row));
      }
      if !mustExist && shown.value.Some? {
        return Some(RowExists(row));
      }
    }

    /** Lines 1190-1210. */
    method Insert(id: TxnId, row: Row, value: Value) returns (r: Option<Error>)
      requires Valid()
      modifies this`registry, this`chains, this`locks, this`logs, this`seen, this`loose
      ensures Valid() && r == Verdict(old(registry), old(locks), id, row, old(Sees(id, row)), false)
      ensures r.None? <==> id in active && old(Sees(id, row)).None? && Unheld(LockOf(old(locks), row), id, active)
      ensures var found := Looked(old(registry), id, row, nextTs, active, r);
              registry == if r.None? then Logged(found, id, InsertUndo(row)) else found
      ensures if r.Some? then logs == old(logs) && chains == old(chains) else
                && logs == old(logs)[id := old(logs)[id] + [Write(row, Some(value))]]
                && chains == old(chains)[row := [Version(value, false, registry[id].begin, None, id, false)]
                  + ChainOf(old(chains), row)]
      ensures r.None? || r == Some(RowExists(row)) ==>
              locks == Locked(old(locks), id, row) && LockOf(locks, row).exclusive == Some(id)
      ensures r.Some? && r != Some(RowExists(row)) ==> locks == old(locks)
      ensures loose == old(loose)
      ensures DroppedBy(id) == if Saw(r) then old(DroppedBy(id)) - {row} else old(DroppedBy(id))
    {
      hide RowsOk, OwnOk, Known, TxnsOk, SerialOk, SeenOk, LocksOk, RecallOk, HoldersOk;
      r := Attempt(id, row, false);
      if r.None? {
        Intend(id, InsertUndo(row), Version(value, false, registry[id].begin, None, id, false));
      }
    }

    /** Lines 1214-1234. */
    method Update(id: TxnId, row: Row, value: Value) returns (r: Option<Error>)
      requires Valid()
      modifies this`registry, this`chains, this`locks, this`logs, this`seen, this`loose
      ensures Valid() && r == Verdict(old(registry), old(locks), id, row, old(Sees(id, row)), true)
      ensures r.None? <==> id in active && old(Sees(id, row)).Some? && Unheld(LockOf(old(locks), row), id, active)
      ensures var found := Looked(old(registry), id, row, nextTs, active, r);
              registry == if r.None? then Logged(found, id, UpdateUndo(row)) else found
      ensures if r.Some? then logs == old(logs) && chains == old(chains) else
                && logs == old(logs)[id := old(logs)[id] + [Write(row, Some(value))]]
                && chains == old(chains)[row := [Version(value, false, registry[id].begin, None, id, false)]
                  + ChainOf(old(chains), row)]
      ensures r.None? ==> locks == Locked(old(locks), id, row) && LockOf(locks, row).exclusive == Some(id)
      ensures r == Some(RowMissing(row)) ==>
                && GaveUp(LockOf(old(locks), row), LockOf(locks, row), id)
                && forall other: Row :: other != row ==> LockOf(locks, other) == LockOf(old(locks), other)
      ensures r.Some? && r != Some(RowMissing(row)) ==> locks == old(locks)
      ensures loose == if r == Some(RowMissing(row))
              && old(PendingOn(id, row)) != [] then old(loose) + {(id, row)} else old(loose)
      ensures DroppedBy(id) == if Saw(r) then old(DroppedBy(id)) - {row} else old(DroppedBy(id))
    {
      hide RowsOk, OwnOk, Known, TxnsOk, SerialOk, SeenOk, LocksOk, RecallOk, HoldersOk;
      r := Attempt(id, row, true);
      if r.None? {
        Intend(id, UpdateUndo(row), Version(value, false, registry[id].begin, None, id, false));
      }
    }

    /** Lines 1238-1258. */
    method Delete(id: TxnId, row: Row) returns (r: Option<Error>)
      requires Valid()
      modifies this`registry, this`chains, this`locks, this`logs, this`seen, this`loose
      ensures Valid() && r == Verdict(old(registry), old(locks), id, row, old(Sees(id, row)), true)
      ensures r.None? <==> id in active && old(Sees(id, row)).Some? && Unheld(LockOf(old(locks), row), id, active)
      ensures var found := Looked(old(registry), id, row, nextTs, active, r);
              registry == if r.None? then Logged(found, id, DeleteUndo(row)) else found
      ensures if r.Some? then logs == old(logs) && chains == old(chains) else
                && logs == old(logs)[id := old(logs)[id] + [Write(row, None)]]
                && chains == old(chains)[row := [Version(Null, true, registry[id].begin, None, id, false)]
                  + ChainOf(old(chains), row)]
      ensures r.None? ==> locks == Locked(old(locks), id, row) && LockOf(locks, row).exclusive == Some(id)
      ensures r == Some(RowMissing(row)) ==>
                && GaveUp(LockOf(old(locks), row), LockOf(locks, row), id)
                && forall other: Row :: other != row ==> LockOf(locks, other) == LockOf(old(locks), other)
      ensures r.Some? && r != Some(RowMissing(row)) ==> locks == old(locks)
      ensures loose == if r == Some(RowMissing(row))
              && old(PendingOn(id, row)) != [] then old(loose) + {(id, row)} else old(loose)
      ensures DroppedBy(id) == if Saw(r) then old(DroppedBy(id)) - {row} else old(DroppedBy(id))
    {
      hide RowsOk, OwnOk, Known, TxnsOk, SerialOk, SeenOk, LocksOk, RecallOk, HoldersOk;
      r := Attempt(id, row, true);
      if r.None? {
        Intend(id, DeleteUndo(row), Version(Null, true, registry[id].begin, None, id, false));
      }
    }

    // ----- ending ----------------------------------------------------------------------------

    /** Lines 1132-1150. */
    method ReleaseLocks(id: TxnId)
      modifies this`locks
      ensures Releasing(old(locks), locks, id)
    {
      var entries := locks;
      locks := map[];
      var todo := entries.Keys;
      while todo != {}
        invariant todo <= entries.Keys && locks.Keys <= entries.Keys - todo
        invariant forall row: Row :: row !in todo ==> GaveUp(LockOf(entries, row), LockOf(locks, row), id)
        decreases |todo|
      {
        var row :| row in todo;
        var entry := Released(entries[row], id);
        if entry.shared != {} || entry.exclusive.Some? {
          locks := locks[row := entry];
        }
        todo := todo - {row};
      }
    }

    /** Lines 978-1005. */
    method FinalizeWrite(row: Row, writer: TxnId, ts: Timestamp)
      modifies this`chains
      ensures chains.Keys == old(chains).Keys
              && ChainOf(chains, row) == Finalized(ChainOf(old(chains), row), writer, ts)
      ensures forall other: Row :: other != row ==> ChainOf(chains, other) == ChainOf(old(chains), other)
    {
      if row !in chains {
        return;
      }
      var chain := chains[row];
      var idx := FirstOwn(chain, writer);
      if idx == |chain| {
        return;
      }
      var i := 0;
      while i < |chain|
        invariant i <= |chain| && chain == chains[row] && forall j :: 0 <= j < i ==> !Current(chain[j])
        decreases |chain| - i
      {
        if Current(chain[i]) {
          chain := chain[i := chain[i].(end := Some(ts))];
          break;
        }
        i := i + 1;
      }
      assert FirstCurrent(chains[row]) == i;
      assert chain == Closed(chains[row], ts);
      chains := chains[row := chain[idx := chain[idx].(committed := true, begin := ts, end := None)]];
    }

    /** Lines 1409-1435: a row the transaction read and that was committed since it began. */
    method SerializableConflict(id: TxnId) returns (r: Option<Row>)
      requires Valid() && id in active && id in registry
      ensures r.Some? <==> MustFail(registry[id], history)
      ensures r.Some? ==> r.value in registry[id].readSet + registry[id].predicates
                          && CommittedSince(CommitsOf(history, r.value), registry[id].begin)
    {
      hide RowsOk, OwnOk, Known, TxnsOk, SerialOk, SeenOk, LocksOk, RecallOk, HoldersOk, CommittedSince;
      var t := registry[id];
      if t.isolation != Serializable {
        return None;
      }
      var todo := t.readSet + t.predicates;
      while todo != {}
        invariant todo <= t.readSet + t.predicates
        invariant forall row :: row in t.readSet + t.predicates && row !in todo ==>
                  !CommittedSince(CommitsOf(history, row), t.begin)
        decreases |todo|
      {
        var row :| row in todo;
        todo := todo - {row};
        RowAt(chains, history, floor, nextTs, begins, active, row);
        ConflictIff(ChainOf(chains, row), CommitsOf(history, row), floor, nextTs, begins, active, id, t.begin);
        if row in chains {
          var chain := chains[row];
          for i := 0 to |chain|
            invariant forall j :: 0 <= j < i ==> !Conflicts(chain[j], id, t.begin)
          {
            if Conflicts(chain[i], id, t.begin) {
              assert chain[i] in chain;
              return Some(row);
            }
          }
        }
      }
      return None;
    }

    /** Lines 949-974: the transaction commits unless a row it read was committed since it began. */
    method Commit(id: TxnId) returns (r: Result<Timestamp, Error>)
      requires Valid()
      modifies this
      ensures Valid() && floor == old(floor) && loose == old(loose)
      ensures Refusal(old(registry), id).Some? ==>
                r == Err(Refusal(old(registry), id).value) && registry == old(registry) && chains == old(chains)
                  && history == old(history)
                && active == old(active) && nextTs == old(nextTs)
      ensures Refusal(old(registry), id).None? ==>
                if MustFail(old(registry)[id], old(history)) then
                  && r.Err? && r.error.SerializationConflict?
                    && r.error.row in old(registry)[id].readSet + old(registry)[id].predicates
                  && CommittedSince(CommitsOf(old(history), r.error.row), old(registry)[id].begin)
                  && history == old(history) && nextTs == old(nextTs) && active == old(active) - {id}
                  && registry == old(registry)[id := old(registry)[id].(state := Aborted, undo := [])]
                  && Stripping(old(chains), chains, old(registry)[id].writeSet, id) && Releasing(old(locks), locks, id)
                else
                  && r == Ok(old(nextTs)) && nextTs == old(nextTs) + 1 && active == old(active) - {id}
                  && Recording(old(history), history, old(logs)[id], id, old(nextTs))
                  && Finalizing(old(chains), chains, old(registry)[id].writeSet, id, old(nextTs))
                  && registry
                     == old(registry)[id := old(registry)[id].(state := Committed, commitTs := Some(old(nextTs)))]
                  && Releasing(old(locks), locks, id)
                  && (Stamped(chains, id) <==> WrittenOnce(old(registry)[id].undo))
                  && (Overwrote(registry[id], history) <==>
                        exists row :: row in registry[id].writeSet
                          && CommittedSince(CommitsOf(old(history), row), registry[id].begin))
                  && (registry[id].isolation == Serializable && id in seen ==>
                        (Undisturbed(registry[id], seen[id], history) <==>
                          forall row :: row in old(DroppedBy(id)) ==>
                            !CommittedSince(CommitsOf(old(history), row), registry[id].begin)))
      ensures seen == old(seen) && logs == old(logs)
    {
      hide RowsOk, OwnOk, Known, TxnsOk, SerialOk, SeenOk, LocksOk, RecallOk, HoldersOk, Releasing, Recording, Finalizing,
           Stripping, CommittedSince, MustFail;
      hide Stamped, WrittenOnce, Overwrote, Undisturbed;
      var refusal := Refusal(registry, id);
      if refusal.Some? {
        return Err(refusal.value);
      }
      KnownLive(registry, begins, logs, seen, active, nextTs, nextTxnId, id);
      var conflict := SerializableConflict(id);
      if conflict.Some? {
        var undone := Rollback(id);
        return Err(SerializationConflict(conflict.value));
      }
      Publish(id);
      return Ok(nextTs - 1);
    }

    /** Lines 959-961. */
    method FinalizeAll(id: TxnId, rows: set<Row>, ts: Timestamp)
      modifies this`chains
      ensures Finalizing(old(chains), chains, rows, id, ts)
    {
      hide Finalizing, Finalized;
      var todo := rows;
      FinalizingNone(chains, id, ts);
      while todo != {}
        invariant todo <= rows && Finalizing(old(chains), chains, rows - todo, id, ts)
        decreases |todo|
      {
        var row :| row in todo;
        ghost var was := chains;
        FinalizeWrite(row, id, ts);
        FinalizingMore(old(chains), was, chains, rows - todo, row, id, ts);
        assert rows - (todo - {row}) == rows - todo + {row};
        todo := todo - {row};
      }
      assert rows - todo == rows;
    }

    /** Lines 958-973. */
    method Publish(id: TxnId)
      requires Valid() && id in active && id in registry && id in logs && id in seen
      requires !MustFail(registry[id], history)
      modifies this`nextTs, this`registry, this`active, this`chains, this`locks, this`history
      ensures Valid() && nextTs == old(nextTs) + 1 && active == old(active) - {id}
      ensures Recording(old(history), history, logs[id], id, old(nextTs)) && Releasing(old(locks), locks, id)
      ensures Finalizing(old(chains), chains, old(registry)[id].writeSet, id, old(nextTs))
      ensures registry == old(registry)[id := old(registry)[id].(state := Committed, commitTs := Some(old(nextTs)))]
      ensures Stamped(chains, id) <==> WrittenOnce(old(registry)[id].undo)
      ensures Overwrote(registry[id], history) <==>
                exists row ::
                  row in registry[id].writeSet && CommittedSince(CommitsOf(old(history), row), registry[id].begin)
      ensures registry[id].isolation == Serializable ==>
                (Undisturbed(registry[id], seen[id], history) <==>
                  forall row :: row in old(DroppedBy(id)) ==>
                    !CommittedSince(CommitsOf(old(history), row), registry[id].begin))
    {
      hide Stamped, WrittenOnce, Overwrote, Undisturbed, Pending, AfterCommit, TxnOk, Dropped, MustFail;
      hide RowsOk, OwnOk, Known, TxnsOk, SerialOk, SeenOk, LocksOk, RecallOk, HoldersOk, Releasing, Recording, CommittedSince,
           Finalizing, RowsOf, Finalized;
      var ts := nextTs;
      nextTs := nextTs + 1;
      TxnWrites(registry, logs, active, history, floor, ts, id);
      ghost var before := chains;
      FinalizeAll(id, registry[id].writeSet, ts);
      ghost var later := HistoryAfter(history, logs[id], id, ts);
      HistoryRecords(history, logs[id], id, ts);
      ghost var held := locks;
      ReleaseLocks(id);
      var t := registry[id].(state := Committed, commitTs := Some(ts));
      CommittedExactly(before, chains, history, later, floor, ts, begins, active, logs, seen, registry, id, t);
      CommittedState(before, chains, history, later, floor, ts, nextTxnId, begins, active, logs, seen, loose,
        registry, held, locks, id, t);
      HoldersLeave(held, locks, active, id);
      registry := registry[id := t];
      active := active - {id};
      history := later;
    }

    /** Lines 1033-1043. */
    method StripWriterVersions(row: Row, writer: TxnId)
      modifies this`chains
      ensures ChainOf(chains, row) == Retain(ChainOf(old(chains), row), NotMine(writer))
      ensures forall other: Row :: other != row ==> ChainOf(chains, other) == ChainOf(old(chains), other)
    {
      if row !in chains {
        return;
      }
      var left := Retain(chains[row], NotMine(writer));
      chains := if left == [] then chains - {row} else chains[row := left];
    }

    /** Lines 1014-1017. */
    method StripAll(id: TxnId, rows: set<Row>)
      modifies this`chains
      ensures Stripping(old(chains), chains, rows, id)
    {
      hide Stripping;
      var todo := rows;
      StrippingNone(chains, id);
      while todo != {}
        invariant todo <= rows && Stripping(old(chains), chains, rows - todo, id)
        decreases |todo|
      {
        var row :| row in todo;
        ghost var was := chains;
        StripWriterVersions(row, id);
        StrippingMore(old(chains), was, chains, rows - todo, row, id);
        assert rows - (todo - {row}) == rows - todo + {row};
        todo := todo - {row};
      }
      assert rows - todo == rows;
    }

    /** Lines 1009-1029. A transaction that has committed may be rolled back: its commits stay. */
    method Rollback(id: TxnId) returns (r: Option<Error>)
      requires Valid()
      modifies this`registry, this`active, this`chains, this`locks
      ensures Valid() && r == if id in old(registry) then None else Some(UnknownTxn)
      ensures r.Some? ==>
              registry == old(registry) && active == old(active) && chains == old(chains) && locks == old(locks)
      ensures r.None? ==>
                && registry == old(registry)[id := old(registry)[id].(state := Aborted, undo := [])]
                  && active == old(active) - {id}
                && Stripping(old(chains), chains, registry[id].writeSet, id) && Releasing(old(locks), locks, id)
    {
      hide RowsOk, OwnOk, Known, TxnsOk, SerialOk, SeenOk, LocksOk, RecallOk, HoldersOk, Releasing, Stripping;
      if id !in registry {
        return Some(UnknownTxn);
      }
      ghost var before := chains;
      StripAll(id, registry[id].writeSet);
      ghost var held := locks;
      ReleaseLocks(id);
      var t := registry[id].(state := Aborted, undo := []);
      RecallAborted(registry, seen, id);
      RolledBackState(before, chains, history, floor, nextTs, nextTxnId, begins, active, logs, seen, loose, registry,
        held, locks, id, t);
      HoldersLeave(held, locks, active, id);
      registry := registry[id := t];
      active := active - {id};
      return None;
    }

    // ----- savepoints ------------------------------------------------------------------------

    /** Lines 1272-1288. */
    method SetSavepoint(id: TxnId, name: string) returns (r: Option<Error>)
      requires Valid()
      modifies this`registry
      ensures Valid()
      ensures r == if Refusal(old(registry), id).Some? then Refusal(old(registry), id)
                   else
                     var all := old(registry)[id].savepoints;
                     if SavepointAt(all, name) < |all| then Some(SavepointExists) else None
      ensures registry == if r.Some? then old(registry) else
                            var t := old(registry)[id];
                            old(registry)[id := t.(savepoints := t.savepoints
                              + [Savepoint(name, |logs[id]|, RowsOf(logs[id]), t.readSet)])]
      ensures r.None? ==> id in logs
    {
      hide RowsOk, OwnOk, Known, TxnsOk, SerialOk, SeenOk, LocksOk, RecallOk, HoldersOk;
      r := Refusal(registry, id);
      if r.Some? {
        return;
      }
      KnownLive(registry, begins, logs, seen, active, nextTs, nextTxnId, id);
      TxnAt(registry, logs, active, history, floor, nextTs, id);
      var t := registry[id];
      if SavepointAt(t.savepoints, name) < |t.savepoints| {
        return Some(SavepointExists);
      }
      var sp := Savepoint(name, |t.undo|, t.writeSet, t.readSet);
      OneMoreMark(t.savepoints, sp, logs[id]);
      Changed(registry, begins, logs, seen, active, history, floor, nextTs, nextTxnId, id,
        t.(savepoints := t.savepoints + [sp]));
      RecallAt(registry, seen, id);
      Recalled(registry, seen, id, t.(savepoints := t.savepoints + [sp]));
      registry := registry[id := t.(savepoints := t.savepoints + [sp])];
    }

    /** Lines 1322-1331. */
    method ReleaseSavepoint(id: TxnId, name: string) returns (r: Option<Error>)
      requires Valid()
      modifies this`registry
      ensures Valid()
      ensures r == if Refusal(old(registry), id).Some? then Refusal(old(registry), id)
                   else
                     var all := old(registry)[id].savepoints;
                     if SavepointAt(all, name) == |all| then Some(SavepointUnknown) else None
      ensures registry == if r.Some? then old(registry) else
                            old(registry)[id :=
                               old(registry)[id].(savepoints := NotNamed(old(registry)[id].savepoints, name))]
    {
      hide RowsOk, OwnOk, Known, TxnsOk, SerialOk, SeenOk, LocksOk, RecallOk, HoldersOk;
      r := Refusal(registry, id);
      if r.Some? {
        return;
      }
      KnownLive(registry, begins, logs, seen, active, nextTs, nextTxnId, id);
      TxnAt(registry, logs, active, history, floor, nextTs, id);
      var t := registry[id];
      var left := NotNamed(t.savepoints, name);
      NotNamedIs(t.savepoints, name);
      Changed(registry, begins, logs, seen, active, history, floor, nextTs, nextTxnId, id, t.(savepoints := left));
      if |left| == |t.savepoints| {
        return Some(SavepointUnknown);
      }
      RecallAt(registry, seen, id);
      Recalled(registry, seen, id, t.(savepoints := left));
      registry := registry[id := t.(savepoints := left)];
    }

    /** Lines 1342-1370: the transaction's newest intent on the row goes, and so does its lock
        on it, whatever else it has written there. */
    method UndoOne(id: TxnId, row: Row)
      modifies this`chains, this`locks
      ensures if row !in old(chains) then chains == old(chains) && locks == old(locks) else
                && ChainOf(chains, row) == WithoutOwn(ChainOf(old(chains), row), id)
                && GaveUpWriting(LockOf(old(locks), row), LockOf(locks, row), id)
      ensures forall other: Row :: other != row ==>
                ChainOf(chains, other) == ChainOf(old(chains), other)
                  && LockOf(locks, other) == LockOf(old(locks), other)
    {
      if row !in chains {
        return;
      }
      var chain := WithoutOwn(chains[row], id);
      chains := if chain == [] then chains - {row} else chains[row := chain];
      if row in locks {
        var entry := locks[row];
        if entry.exclusive == Some(id) {
          entry := entry.(exclusive := None);
        }
        locks := if entry.shared == {} && entry.exclusive.None? then locks - {row} else locks[row := entry];
      }
    }

    /** Lines 1311-1313, for one mutation. */
    method UndoLast(id: TxnId, row: Row)
      requires RowsOk(chains, history, floor, nextTs, begins, active) && OwnOk(chains, logs, active)
      requires LocksOk(chains, locks, logs, active, loose)
      requires id in active && id in logs && logs[id] != [] && row == logs[id][|logs[id]| - 1].row
      modifies this`chains, this`locks, this`logs, this`loose
      ensures RowsOk(chains, history, floor, nextTs, begins, active) && OwnOk(chains, logs, active)
      ensures LocksOk(chains, locks, logs, active, loose)
      ensures logs == old(logs)[id := old(logs)[id][..|old(logs)[id]| - 1]]
              && loose == LooseAfter(old(loose), id, row, logs[id])
      ensures GaveUpWriting(LockOf(old(locks), row), LockOf(locks, row), id)
      ensures forall other: Row :: other != row ==> LockOf(locks, other) == LockOf(old(locks), other)
    {
      hide RowsOk, OwnOk, LocksOk, LooseAfter, Pending, FirstOwn, GaveUpWriting, RowOk, Own, Holds;
      ghost var chains0, locks0, i := chains, locks, FirstOwn(ChainOf(chains, row), id);
      LastIntent(chains, logs, active, id);
      UndoOne(id, row);
      Undone(chains0, chains, history, floor, nextTs, begins, active, logs, id, i);
      UndoneLocks(chains0, chains, locks0, locks, logs, active, loose, id, i);
      ghost var less := logs[id][..|logs[id]| - 1];
      logs := logs[id := less];
      loose := LooseAfter(loose, id, row, less);
    }

    /** Lines 1302-1313. */
    method UndoTo(id: TxnId, undo: seq<Undo>, keep: nat)
      requires RowsOk(chains, history, floor, nextTs, begins, active) && OwnOk(chains, logs, active)
      requires LocksOk(chains, locks, logs, active, loose)
      requires id in active && id in logs && Aligned(undo, logs[id]) && keep <= |undo|
      modifies this`chains, this`locks, this`logs, this`loose
      ensures RowsOk(chains, history, floor, nextTs, begins, active) && OwnOk(chains, logs, active)
      ensures LocksOk(chains, locks, logs, active, loose)
      ensures logs == old(logs)[id := old(logs)[id][..keep]]
      ensures LooseRight(old(loose), loose, id, RowsOf(old(logs)[id][keep..]), old(logs)[id][..keep])
      ensures Unlocking(old(locks), locks, id, RowsOf(old(logs)[id][keep..]))
    {
      hide RowsOk, OwnOk, LocksOk, LooseRight, LooseAfter, Unlocking, GaveUpWriting, Pending, RowsOf;
      ghost var log := logs[id];
      var n := |undo|;
      NothingUndone(loose, locks, id, log);
      assert log[..n] == log && logs[id := log] == logs;
      while n > keep
        invariant keep <= n <= |undo| && id in logs && logs == old(logs)[id := log[..n]]
        invariant RowsOk(chains, history, floor, nextTs, begins, active) && OwnOk(chains, logs, active)
        invariant LocksOk(chains, locks, logs, active, loose)
        invariant LooseRight(old(loose), loose, id, RowsOf(log[n..]), log[..n])
                  && Unlocking(old(locks), locks, id, RowsOf(log[n..]))
      {
        ghost var locks0, loose0 := locks, loose;
        n := n - 1;
        assert logs[id][n] == log[n] && logs[id][..n] == log[..n];
        UndoLast(id, undo[n].row);
        LooseStep(old(loose), loose0, id, log, n);
        UnlockingStep(old(locks), locks0, locks, id, log, n);
      }
    }

    /** Lines 1293-1319. A later savepoint with nothing written in between is kept. */
    method RollbackToSavepoint(id: TxnId, name: string) returns (r: Option<Error>)
      requires Valid()
      modifies this`registry, this`chains, this`locks, this`logs, this`loose
      ensures Valid()
      ensures r == if Refusal(old(registry), id).Some? then Refusal(old(registry), id)
                   else
                     var all := old(registry)[id].savepoints;
                     if SavepointAt(all, name) == |all| then Some(SavepointUnknown) else None
      ensures r.Some? ==>
              registry == old(registry) && chains == old(chains) && locks == old(locks)
              && logs == old(logs) && loose == old(loose)
      ensures r.None? ==>
                var t := old(registry)[id]; var sp := t.savepoints[SavepointAt(t.savepoints, name)];
                && id in old(logs) && sp.undoLen <= |old(logs)[id]|
                  && logs == old(logs)[id := old(logs)[id][..sp.undoLen]]
                && registry == old(registry)[id := t.(undo := t.undo[..sp.undoLen], writeSet := sp.writeSet,
                  readSet := sp.readSet,
                                                      savepoints := NotAfter(t.savepoints, sp.undoLen))]
                && sp.undoLen <= |t.undo|
                && LooseRight(old(loose), loose, id, RowsOf(old(logs)[id][sp.undoLen..]), logs[id])
                && Unlocking(old(locks), locks, id, RowsOf(old(logs)[id][sp.undoLen..]))
                && DroppedBy(id) == old(DroppedBy(id)) + (t.readSet - t.predicates) - sp.readSet
    {
      hide RowsOk, OwnOk, Known, TxnsOk, SerialOk, SeenOk, LocksOk, RecallOk, HoldersOk, LooseRight, Unlocking, RowsOf;
      r := Refusal(registry, id);
      if r.Some? {
        return;
      }
      KnownLive(registry, begins, logs, seen, active, nextTs, nextTxnId, id);
      TxnAt(registry, logs, active, history, floor, nextTs, id);
      var t := registry[id];
      var i := SavepointAt(t.savepoints, name);
      if i == |t.savepoints| {
        return Some(SavepointUnknown);
      }
      var sp := t.savepoints[i];
      assert sp in t.savepoints;
      var left := t.(undo := t.undo[..sp.undoLen], writeSet := sp.writeSet, readSet := sp.readSet,
        savepoints := NotAfter(t.savepoints, sp.undoLen));
      CutOk(registry, begins, logs, seen, active, history, floor, nextTs, nextTxnId, id, sp, left);
      RecallAt(registry, seen, id);
      CutRecalls(t, seen[id], sp);
      Recalled(registry, seen, id, left);
      ghost var held := locks;
      UndoTo(id, t.undo, sp.undoLen);
      HoldersUnlocked(held, locks, active, id, RowsOf(old(logs)[id][sp.undoLen..]));
      registry := registry[id := left];
      return None;
    }

    /** Lines 1377-1399. */
    method AddPredicateLock(id: TxnId, rows: seq<Row>) returns (r: Option<Error>)
      requires Valid()
      modifies this`registry
      ensures Valid() && r == Refusal(old(registry), id)
      ensures registry == if r.Some? then old(registry) else
                            var t := old(registry)[id]; var more := set row | row in rows;
                            old(registry)[id := t.(readSet := t.readSet + more, predicates := t.predicates + more)]
      ensures DroppedBy(id) == if r.Some? then old(DroppedBy(id)) else
                                 old(DroppedBy(id)) - set row | row in rows
    {
      hide RowsOk, OwnOk, Known, TxnsOk, SerialOk, SeenOk, LocksOk, RecallOk, HoldersOk;
      r := Refusal(registry, id);
      if r.Some? {
        return;
      }
      KnownLive(registry, begins, logs, seen, active, nextTs, nextTxnId, id);
      TxnAt(registry, logs, active, history, floor, nextTs, id);
      var t := registry[id];
      var readSet, predicates := t.readSet, t.predicates;
      for i := 0 to |rows|
        invariant readSet == t.readSet + (set row | row in rows[..i])
                  && predicates == t.predicates + (set row | row in rows[..i])
      {
        assert forall row :: row in rows[..i + 1] <==> row in rows[..i] || row == rows[i];
        readSet, predicates := readSet + {rows[i]}, predicates + {rows[i]};
      }
      assert rows[..|rows|] == rows;
      var more := t.(readSet := readSet, predicates := predicates);
      Changed(registry, begins, logs, seen, active, history, floor, nextTs, nextTxnId, id, more);
      RecallAt(registry, seen, id);
      Recalled(registry, seen, id, more);
      registry := registry[id := more];
    }

    // ----- garbage collection ----------------------------------------------------------------

    /** Lines 1513-1523. */
    method OldestActiveSnapshot() returns (r: Option<Timestamp>)
      requires Valid()
      ensures OldestView(registry, active, r) && (r.Some? ==> floor <= r.value <= nextTs)
      ensures forall id :: id in active ==> id in registry && r.Some? && r.value <= registry[id].view.snapshot
    {
      hide RowsOk, OwnOk, Known, TxnsOk, SerialOk, SeenOk, LocksOk, RecallOk, HoldersOk;
      r := None;
      var todo := active;
      while todo != {}
        invariant todo <= active && (r.None? ==> todo == active) && (r.Some? ==> floor <= r.value <= nextTs)
        invariant forall id :: id in active && id !in todo ==>
                  id in registry && r.Some? && r.value <= registry[id].view.snapshot
        invariant r.Some? ==> exists id :: id in active && id in registry && registry[id].view.snapshot == r.value
        decreases |todo|
      {
        var id :| id in todo;
        ViewInTime(registry, logs, active, history, floor, nextTs, id);
        if r.None? || registry[id].view.snapshot < r.value {
          r := Some(registry[id].view.snapshot);
        }
        todo := todo - {id};
      }
    }

    /** Lines 1531-1554. */
    method Sweep(oldest: Option<Timestamp>) returns (removed: nat)
      modifies this`chains
      ensures Sweeping(old(chains), chains, oldest)
      ensures removed + Total(chains, old(chains).Keys) == Total(old(chains), old(chains).Keys)
    {
      hide Total, Retain, HalfSwept, Sweeping;
      removed := 0;
      ghost var before := chains;
      var todo, emptied := chains.Keys, {};
      NoneTotal(chains);
      SweptNone(chains, oldest);
      while todo != {}
        invariant HalfSwept(before, chains, todo, emptied, oldest)
        invariant removed + Total(chains, before.Keys - todo) == Total(before, before.Keys - todo)
        decreases |todo|
      {
        var row :| row in todo;
        ghost var was, was1 := chains, emptied;
        HalfSweptAt(before, chains, todo, emptied, oldest, row);
        var left := Retain(chains[row], Survives(oldest));
        RetainSize(chains[row], Survives(oldest));
        removed := removed + (|chains[row]| - |left|);
        chains := chains[row := left];
        if left == [] {
          emptied := emptied + {row};
        }
        TotalSwept(before, was, chains, before.Keys - todo, row);
        SweptOne(before, was, todo, was1, oldest, row);
        assert before.Keys - (todo - {row}) == before.Keys - todo + {row};
        todo := todo - {row};
      }
      assert before.Keys - todo == before.Keys;
      SweptEnd(before, chains, emptied, oldest);
      TotalSame(chains, chains - emptied, before.Keys);
      chains := chains - emptied;
    }

    /** Lines 1529-1561: versions are collected, and no active transaction notices. */
    method GarbageCollect() returns (removed: nat)
      requires Valid()
      modifies this`chains, this`floor
      ensures Valid() && removed + Total(chains, old(chains).Keys) == Total(old(chains), old(chains).Keys)
      ensures forall id, row: Row :: id in active ==> Sees(id, row) == old(Sees(id, row))
      ensures forall row: Row :: OnlyNeeded(ChainOf(old(chains), row), ChainOf(chains, row), registry, active)
      ensures exists oldest: Option<Timestamp> ::
              OldestView(registry, active, oldest) && Sweeping(old(chains), chains, oldest)
    {
      hide OnlyNeeded;
      hide RowsOk, OwnOk, Known, TxnsOk, SerialOk, SeenOk, LocksOk, RecallOk, HoldersOk, Sweeping, Total, OldestView;
      var oldest := OldestActiveSnapshot();
      ghost var before := chains;
      removed := Sweep(oldest);
      SweptRows(before, chains, history, floor, nextTs, begins, active, oldest);
      SweptOwn(before, chains, active, logs, oldest);
      SweptLocks(before, chains, locks, logs, active, loose, oldest);
      SweptTxns(registry, logs, active, history, floor, nextTs, oldest);
      SweptViews(before, chains, registry, logs, active, history, floor, nextTs, begins, oldest);
      SweptExactly(before, chains, registry, active, oldest);
      floor := Raised(floor, nextTs, oldest);
      forall id, row: Row | id in active ensures Sees(id, row) == old(Sees(id, row)) {
        assert SameView(before, chains, registry, active, nextTs, id, row);
      }
    }
  }

  // ----- what the documentation promises and the code does not keep --------------------------

  const FIVE: Value := Int(5)
  const SIX: Value := Int(6)

  lemma NothingVisible(rv: ReadView)
    ensures FirstVisible([], rv) == None
  {
  }

  /** A transaction that begins when there are no rows. */
  method FirstBegun(m: TxnManager, isolation: Isolation) returns (id: TxnId)
    requires m.Valid() && m.chains == map[]
    modifies m
    ensures m.Valid() && id !in old(m.registry) && id in m.registry && m.active == old(m.active) + {id}
    ensures m.registry == old(m.registry)[id := m.registry[id]] && m.logs == old(m.logs)[id := []]
    ensures m.registry[id] == NewTxn(id, old(m.nextTs), old(m.active), isolation) && m.Sees(id, 1) == None
    ensures m.history == old(m.history) && m.locks == old(m.locks) && m.chains == map[] && m.loose == old(m.loose)
    ensures m.nextTs == old(m.nextTs) + 1
  {
    hide RowsOk, OwnOk, Known, TxnsOk, SerialOk, SeenOk, LocksOk, RecallOk, HoldersOk, FirstVisible, Dropped;
    id := m.Begin(isolation);
    NothingVisible(ViewOf(m.registry[id], m.nextTs, m.active));
  }

  /** A first transaction that writes inserts row 1. */
  method InsertFive(m: TxnManager, isolation: Isolation) returns (id: TxnId)
    requires m.Valid() && m.history == map[] && m.locks == map[] && m.chains == map[]
    modifies m
    ensures m.Valid() && id !in old(m.registry) && id in m.registry && m.active == old(m.active) + {id} && id in m.logs
    ensures m.registry == old(m.registry)[id := m.registry[id]] && m.registry[id].state == Active
            && m.registry[id].isolation == isolation
    ensures m.registry[id].writeSet == {1} && m.registry[id].savepoints == [] && m.registry[id].begin == old(m.nextTs)
    ensures m.logs[id] == [Write(1, Some(FIVE))] && m.history == map[] && LockOf(m.locks, 1) == LockEntry({}, Some(id))
    ensures m.logs == old(m.logs)[id := m.logs[id]]
    ensures m.chains == map[1 := [Version(FIVE, false, old(m.nextTs), None, id, false)]]
            && m.nextTs == old(m.nextTs) + 1 && m.loose == old(m.loose)
  {
    hide RowsOk, OwnOk, Known, TxnsOk, SerialOk, SeenOk, LocksOk, RecallOk, HoldersOk, FirstVisible, Dropped;
    id := FirstBegun(m, isolation);
    assert LockOf(m.locks, 1) == LockEntry({}, None);
    ghost var v := Version(FIVE, false, m.registry[id].begin, None, id, false);
    assert [v] + [] == [v];
    var r := m.Insert(id, 1, FIVE);
  }

  /** Another one, which inserts the same row when there are no commits and no locks. */
  method InsertToo(m: TxnManager) returns (id: TxnId)
    requires m.Valid() && m.history == map[] && LockOf(m.locks, 1) == LockEntry({}, None)
    modifies m
    ensures m.Valid() && id !in old(m.registry) && m.active == old(m.active) + {id} && m.PendingOn(id, 1) == [Some(SIX)]
    ensures id in m.registry && m.registry[id].state == Active && m.registry[id].writeSet == {1}
    ensures m.registry[id].isolation == RepeatableRead && m.history == map[]
    ensures id in m.logs && m.logs[id] == [Write(1, Some(SIX))]
    ensures ChainOf(m.chains, 1) != [] && Mine(ChainOf(m.chains, 1)[0], id)
    ensures forall w :: w in old(m.registry) ==> w in m.registry && m.registry[w] == old(m.registry)[w]
    ensures forall w :: w in old(m.registry) ==> m.PendingOn(w, 1) == old(m.PendingOn(w, 1))
  {
    hide RowsOk, OwnOk, Known, TxnsOk, SerialOk, SeenOk, LocksOk, RecallOk, HoldersOk, FirstVisible, Dropped;
    id := m.Begin(RepeatableRead);
    m.LooksRight(id, 1);
    ghost var logs := m.logs;
    var r := m.Insert(id, 1, SIX);
    assert m.logs[id] == [Write(1, Some(SIX))];
  }

  /** Write locks are to keep two transactions from writing a row both. Undoing the second write
      of a row gives up the lock that the first one still needs. */
  method BothWrite() returns (m: TxnManager, a: TxnId, b: TxnId)
    ensures fresh(m) && m.Valid() && a != b && a in m.active && b in m.active
    ensures m.PendingOn(a, 1) == [Some(FIVE)] && m.PendingOn(b, 1) == [Some(SIX)]
  {
    hide RowsOk, OwnOk, Known, TxnsOk, SerialOk, SeenOk, LocksOk, RecallOk, HoldersOk, FirstVisible, Dropped;
    m := new TxnManager();
    a := InsertFive(m, RepeatableRead);
    SecondUndone(m, a);
    b := InsertToo(m);
  }

  method SecondUndone(m: TxnManager, id: TxnId)
    requires m.Valid() && id in m.active && id in m.registry && id in m.logs && m.logs[id] == [Write(1, Some(FIVE))]
    requires LockOf(m.locks, 1) == LockEntry({}, Some(id)) && m.registry[id].savepoints == []
    requires m.registry[id].isolation == RepeatableRead || (m.registry[id].isolation == ReadCommitted && m.loose == {})
    requires m.registry[id].state == Active
    modifies m
    ensures m.Valid() && m.history == old(m.history) && m.active == old(m.active)
            && m.registry.Keys == old(m.registry).Keys && m.registry[id].isolation == old(m.registry)[id].isolation
    ensures LockOf(m.locks, 1) == LockEntry({}, None) && m.PendingOn(id, 1) == [Some(FIVE)]
  {
    hide RowsOk, OwnOk, Known, TxnsOk, SerialOk, SeenOk, LocksOk, RecallOk, HoldersOk, FirstVisible, Dropped;
    ghost var log := m.logs[id];
    SavedThenWritten(m, id);
    ghost var more := m.logs[id];
    assert more[..1] == log && more[1..] == [Write(1, Some(SIX))];
    assert more[1] in more[1..];
    var r := m.RollbackToSavepoint(id, "s");
    assert m.logs[id] == log && 1 in RowsOf(more[1..]);
    OnePending(Write(1, Some(FIVE)));
  }

  method SavedThenWritten(m: TxnManager, id: TxnId)
    requires m.Valid() && id in m.active && id in m.registry && id in m.logs && m.logs[id] == [Write(1, Some(FIVE))]
    requires LockOf(m.locks, 1) == LockEntry({}, Some(id)) && m.registry[id].savepoints == []
    requires m.registry[id].isolation == RepeatableRead || (m.registry[id].isolation == ReadCommitted && m.loose == {})
    requires m.registry[id].state == Active
    modifies m
    ensures m.Valid() && m.history == old(m.history) && m.active == old(m.active)
            && m.registry.Keys == old(m.registry).Keys && m.registry[id].isolation == old(m.registry)[id].isolation
    ensures id in m.logs && m.logs[id] == old(m.logs)[id] + [Write(1, Some(SIX))] && m.registry[id].state == Active
    ensures LockOf(m.locks, 1) == LockEntry({}, Some(id)) && |m.registry[id].savepoints| == 1
    ensures m.registry[id].savepoints[0].name == "s" && m.registry[id].savepoints[0].undoLen == 1
  {
    hide RowsOk, OwnOk, Known, TxnsOk, SerialOk, SeenOk, LocksOk, RecallOk, HoldersOk, FirstVisible, Dropped;
    var r := m.SetSavepoint(id, "s");
    m.LooksRight(id, 1);
    r := m.Update(id, 1, SIX);
  }

  /** ... and so does an update that finds the row deleted by the transaction itself. */
  method BothWriteAfterDelete() returns (m: TxnManager, a: TxnId, b: TxnId)
    ensures fresh(m) && m.Valid() && a != b && a in m.active && b in m.active
    ensures m.PendingOn(a, 1) == [None, Some(FIVE)] && m.PendingOn(b, 1) == [Some(SIX)]
  {
    hide RowsOk, OwnOk, Known, TxnsOk, SerialOk, SeenOk, LocksOk, RecallOk, HoldersOk, FirstVisible, Dropped;
    m := new TxnManager();
    a := InsertFive(m, RepeatableRead);
    DeletedThenUpdated(m, a);
    b := InsertToo(m);
  }

  method DeletedThenUpdated(m: TxnManager, id: TxnId)
    requires m.Valid() && id in m.active && id in m.registry && id in m.logs && m.logs[id] == [Write(1, Some(FIVE))]
    requires LockOf(m.locks, 1) == LockEntry({}, Some(id)) && m.registry[id].isolation == RepeatableRead
             && m.registry[id].state == Active
    modifies m
    ensures m.Valid() && m.history == old(m.history) && m.active == old(m.active)
            && m.registry.Keys == old(m.registry).Keys
    ensures LockOf(m.locks, 1) == LockEntry({}, None) && m.PendingOn(id, 1) == [None, Some(FIVE)]
  {
    hide RowsOk, OwnOk, Known, TxnsOk, SerialOk, SeenOk, LocksOk, RecallOk, HoldersOk, FirstVisible, Dropped;
    OnePending(Write(1, Some(FIVE)));
    PendingMore([Write(1, Some(FIVE))], Write(1, None));
    m.LooksRight(id, 1);
    var r := m.Delete(id, 1);
    m.LooksRight(id, 1);
    r := m.Update(id, 1, SIX);
  }

  /** A dirty read is to see the newest version. One that began before it was committed does not
      see it any more. */
  method DirtyReadVanishes() returns (m: TxnManager, reader: TxnId)
    ensures fresh(m) && m.Valid() && reader in m.active && reader in m.registry
            && m.registry[reader].isolation == ReadUncommitted
    ensures |ChainOf(m.chains, 1)| == 1 && Shown(ChainOf(m.chains, 1)[0]) == Some(FIVE) && m.Sees(reader, 1) == None
  {
    hide RowsOk, OwnOk, Known, TxnsOk, SerialOk, SeenOk, LocksOk, RecallOk, HoldersOk;
    m := new TxnManager();
    reader := m.Begin(ReadUncommitted);
    var writer := InsertFive(m, RepeatableRead);
    ghost var chain := ChainOf(m.chains, 1);
    OneFinalized(chain[0], m.nextTs);
    var t := m.Commit(writer);
    NotYetVisible(m.registry[reader].view, ChainOf(m.chains, 1)[0]);
  }

  lemma BothKept(both: seq<Savepoint>)
    requires |both| == 2 && both[0].undoLen == both[1].undoLen == 0
    ensures NotAfter(both, 0) == both
  {
    assert NotAfter(both[1..], 0) == [both[1]] + NotAfter(both[2..], 0);
  }

  lemma OnePending(w: Write)
    ensures Pending([w], w.row) == [w.value]
  {
    assert [w][..0] == [];
  }

  lemma OneFinalized(v: Version, ts: Timestamp)
    requires !v.committed
    ensures Finalized([v], v.writer, ts) == [v.(committed := true, begin := ts, end := None)]
  {
    assert FirstOwn([v], v.writer) == 0;
    assert FirstCurrent([v]) == 1;
  }

  lemma NotYetVisible(rv: ReadView, v: Version)
    requires v.committed && v.begin > rv.snapshot
    ensures FirstVisible([v], rv) == None
  {
    assert FirstVisible([v][1..], rv) == None;
  }

  /** Rolling back is to remove every version of the transaction. What it has committed stays, and
      yet the transaction counts as aborted. */
  method AbortedYetCommitted() returns (m: TxnManager, id: TxnId)
    ensures fresh(m) && m.Valid() && id in m.registry && m.registry[id].state == Aborted
    ensures CommitsOf(m.history, 1) == [Commit(2, id, Some(FIVE))]
  {
    hide RowsOk, OwnOk, Known, TxnsOk, SerialOk, SeenOk, LocksOk, RecallOk, HoldersOk, Finalizing, Releasing, Stripping;
    m := new TxnManager();
    id := InsertFive(m, RepeatableRead);
    var t := m.Commit(id);
    var r := m.Rollback(id);
  }

  /** Rolling back to a savepoint is to discard later ones. One with nothing written in between
      stays. */
  method LaterSavepointStays() returns (m: TxnManager, id: TxnId)
    ensures fresh(m) && m.Valid() && id in m.registry && |m.registry[id].savepoints| == 2
            && m.registry[id].savepoints[1].name == "b"
  {
    hide RowsOk, OwnOk, Known, TxnsOk, SerialOk, SeenOk, LocksOk, RecallOk, HoldersOk, LooseRight, Unlocking;
    m := new TxnManager();
    id := m.Begin(RepeatableRead);
    var r := m.SetSavepoint(id, "a");
    r := m.SetSavepoint(id, "b");
    ghost var both := m.registry[id].savepoints;
    assert both == [both[0], both[1]] && NotAfter(both, 0) == both by { BothKept(both); }
    r := m.RollbackToSavepoint(id, "a");
  }

  lemma TwoFinalized(a: Version, b: Version, ts: Timestamp)
    requires !a.committed && !b.committed
    ensures Finalized([a, b], a.writer, ts) == [a.(committed := true, begin := ts, end := None), b]
  {
    assert FirstOwn([a, b], a.writer) == 0;
    assert FirstCurrent([a, b]) == 2 by {
      assert FirstCurrent([a, b][1..]) == 1;
    }
  }

  /** Committing is to stamp every version of the transaction, and what is not committed is for its
      writer only. Of a row written twice the older version stays as it is, is never collected, and
      is what a dirty read that began before shows: a value that was overwritten before it was
      committed, and that its writer never committed. */
  method LeftoverSeen() returns (m: TxnManager, reader: TxnId, writer: TxnId)
    ensures fresh(m) && m.Valid() && reader in m.active && writer in m.registry && m.registry[writer].state == Committed
    ensures CommitsOf(m.history, 1) == [Commit(3, writer, Some(SIX))] && m.Sees(reader, 1) == Some(FIVE)
  {
    hide RowsOk, OwnOk, Known, TxnsOk, SerialOk, SeenOk, LocksOk, RecallOk, HoldersOk, FirstVisible, Sweeping, OldestView,
         Total;
    m, reader, writer := TwiceWritten();
    m.LooksRight(reader, 1);
    SecondIntent(ChainOf(m.chains, 1), CommitsOf(m.history, 1));
    var removed := m.GarbageCollect();
  }

  /** A dirty reader begins, and then another transaction writes row 1 twice and commits. */
  method TwiceWritten() returns (m: TxnManager, reader: TxnId, writer: TxnId)
    ensures fresh(m) && m.Valid() && reader in m.active && writer in m.registry && m.registry[writer].state == Committed
    ensures reader in m.registry && m.registry[reader].isolation == ReadUncommitted && m.registry[reader].begin == 1
    ensures CommitsOf(m.history, 1) == [Commit(3, writer, Some(SIX))]
    ensures var chain := ChainOf(m.chains, 1);
            |chain| == 2 && chain[0].committed && !chain[1].committed && Shown(chain[1]) == Some(FIVE)
  {
    hide RowsOk, OwnOk, Known, TxnsOk, SerialOk, SeenOk, LocksOk, RecallOk, HoldersOk, FirstVisible;
    m := new TxnManager();
    reader := m.Begin(ReadUncommitted);
    writer := TwoWrites(m);
    TwoFinalized(ChainOf(m.chains, 1)[0], ChainOf(m.chains, 1)[1], m.nextTs);
    var t := m.Commit(writer);
  }

  /** A first transaction that writes row 1 twice. */
  method TwoWrites(m: TxnManager) returns (id: TxnId)
    requires m.Valid() && m.history == map[] && m.locks == map[] && m.chains == map[] && m.nextTs == 2
    modifies m
    ensures m.Valid() && id !in old(m.registry) && id in m.registry && m.active == old(m.active) + {id} && id in m.logs
    ensures m.registry == old(m.registry)[id := m.registry[id]] && m.registry[id].state == Active
    ensures m.registry[id].isolation == RepeatableRead && m.registry[id].writeSet == {1} && m.nextTs == 3
            && m.history == map[]
    ensures Pending(m.logs[id], 1) == [Some(SIX), Some(FIVE)]
    ensures ChainOf(m.chains, 1) == [Version(SIX, false, 2, None, id, false), Version(FIVE, false, 2, None, id, false)]
  {
    hide RowsOk, OwnOk, Known, TxnsOk, SerialOk, SeenOk, LocksOk, RecallOk, HoldersOk, FirstVisible, Dropped;
    id := InsertFive(m, RepeatableRead);
    OnePending(Write(1, Some(FIVE)));
    PendingMore([Write(1, Some(FIVE))], Write(1, Some(SIX)));
    m.LooksRight(id, 1);
    var r := m.Update(id, 1, SIX);
  }

  lemma SecondIntent(chain: Chain, h: Commits)
    requires |chain| == 2 && chain[0].committed && !chain[1].committed && |h| == 1 && h[0].ts == 3
    ensures DirtyShown(chain, h, 1) == Shown(chain[1])
  {
    assert FirstIntent(chain) == 1;
    assert LastCommit(h[..0], 1) == None;
  }

  /** Write conflicts are to be detected at repeatable read. Two transactions there insert the same
      row, the second over a commit that it does not see. */
  method LostWrite() returns (m: TxnManager, id: TxnId)
    ensures fresh(m) && m.Valid() && id in m.registry && m.registry[id].isolation == RepeatableRead
    ensures m.registry[id].commitTs.Some? && Overwrote(m.registry[id], m.history)
  {
    hide RowsOk, OwnOk, Known, TxnsOk, SerialOk, SeenOk, LocksOk, RecallOk, HoldersOk, FirstVisible, Unheld, Overwrote,
         Stamped, WrittenOnce, Undisturbed, Dropped, Finalizing, Releasing, Stripping;
    m := new TxnManager();
    id := m.Begin(RepeatableRead);
    OneCommit(m);
    m.LooksRight(id, 1);
    BeganBefore(CommitsOf(m.history, 1));
    var r := m.Insert(id, 1, SIX);
    var t := m.Commit(id);
  }

  lemma BeganBefore(h: Commits)
    requires |h| == 1 && h[0].ts == 3
    ensures LastAt(h, 1) == None && CommittedSince(h, 1)
  {
    assert LastCommit(h[..0], 1) == None;
    assert h[0].ts > 1;
  }

  /** A transaction that inserts row 1 and commits. */
  method OneCommit(m: TxnManager)
    requires m.Valid() && m.history == map[] && m.locks == map[] && m.chains == map[] && m.nextTs == 2
    modifies m
    ensures m.Valid() && m.active == old(m.active) && m.registry.Keys >= old(m.registry).Keys
            && LockOf(m.locks, 1) == LockEntry({}, None)
    ensures forall w :: w in old(m.registry) ==>
            m.registry[w] == old(m.registry)[w] && m.PendingOn(w, 1) == old(m.PendingOn(w, 1))
    ensures |CommitsOf(m.history, 1)| == 1 && CommitsOf(m.history, 1)[0].ts == 3
            && CommitsOf(m.history, 1)[0].value == Some(FIVE) && m.nextTs == 4
    ensures forall w :: w in old(m.registry) && w in old(m.logs) ==> w in m.logs && m.logs[w] == old(m.logs)[w]
  {
    hide RowsOk, OwnOk, Known, TxnsOk, SerialOk, SeenOk, LocksOk, RecallOk, HoldersOk, Finalizing, Overwrote, Stamped,
         WrittenOnce, Undisturbed, Dropped;
    KnownNew(m.registry, m.begins, m.logs, m.seen, m.active, m.nextTs, m.nextTxnId);
    var writer := InsertFive(m, RepeatableRead);
    OnePending(Write(1, Some(FIVE)));
    var t := m.Commit(writer);
  }

  /** A serializable commit is to fail if a row the transaction read was committed since it began.
      What it read after a savepoint that it rolled back to does not count any more, though the value
      was handed out. */
  method ForgottenRead() returns (m: TxnManager, id: TxnId)
    ensures fresh(m) && m.Valid() && id in m.registry && m.registry[id].isolation == Serializable
    ensures id in m.seen && 1 in m.seen[id] && m.seen[id][1] == None && m.registry[id].commitTs.Some?
    ensures LastAt(CommitsOf(m.history, 1), m.registry[id].commitTs.value - 1) == Some(FIVE)
  {
    hide RowsOk, OwnOk, Known, TxnsOk, SerialOk, SeenOk, LocksOk, RecallOk, HoldersOk, FirstVisible, Overwrote, Stamped,
         WrittenOnce, Undisturbed, Dropped, Finalizing, Releasing, Stripping;
    m := new TxnManager();
    id := m.Begin(Serializable);
    var r := m.SetSavepoint(id, "s");
    assert RowsOf([]) == {};
    OneCommit(m);
    RowForgotten(m, id);
    ghost var h := CommitsOf(m.history, 1);
    assert h[..|h|] == h;
    var t := m.Commit(id);
  }

  /** Row 1 is read, to be there no more than it was at the beginning, and forgotten. */
  method RowForgotten(m: TxnManager, id: TxnId)
    requires m.Valid() && id in m.active && id in m.registry && id in m.logs && m.logs[id] == []
    requires m.registry[id] == NewTxn(id, 1, {}, Serializable).(savepoints := [Savepoint("s", 0, {}, {})])
    requires |CommitsOf(m.history, 1)| == 1 && CommitsOf(m.history, 1)[0].ts == 3 && m.nextTs == 4
    modifies m
    ensures m.Valid() && id in m.active && id in m.registry && id in m.logs && m.logs[id] == []
    ensures m.registry[id] == old(m.registry)[id] && m.history == old(m.history) && m.nextTs == 4
    ensures id in m.seen && 1 in m.seen[id] && m.seen[id][1] == None
  {
    hide RowsOk, OwnOk, Known, TxnsOk, SerialOk, SeenOk, LocksOk, RecallOk, HoldersOk, FirstVisible, Dropped, LooseRight,
         Unlocking;
    BeganBefore(CommitsOf(m.history, 1));
    var found := m.Read(id, 1);
    var r := m.RollbackToSavepoint(id, "s");
  }

  /** A transaction's own writes are always to be visible to it. At read committed the first of two
      writes is not, once the second was undone and another transaction has written the row. */
  method OwnWriteCovered() returns (m: TxnManager, a: TxnId)
    ensures fresh(m) && m.Valid() && a in m.active && a in m.registry && m.registry[a].isolation == ReadCommitted
    ensures m.PendingOn(a, 1) == [Some(FIVE)] && m.Sees(a, 1) == Some(SIX)
  {
    hide RowsOk, OwnOk, Known, TxnsOk, SerialOk, SeenOk, LocksOk, RecallOk, HoldersOk, FirstVisible, Overwrote, Stamped,
         WrittenOnce, Undisturbed, Dropped, Releasing, Stripping, Covered, Finalized, RowsOf;
    m := new TxnManager();
    a := InsertFive(m, ReadCommitted);
    SecondUndone(m, a);
    var b := InsertToo(m);
    WrittenRow(Write(1, Some(SIX)));
    OnePending(Write(1, Some(SIX)));
    ghost var ts, chain := m.nextTs, ChainOf(m.chains, 1);
    CoveredBy(chain, b, a, ts, Some(SIX));
    var t := m.Commit(b);
    assert CommitsOf(m.history, 1) == [Commit(ts, b, Some(SIX))];
    assert ChainOf(m.chains, 1) == Finalized(chain, b, ts);
    m.LooksRight(a, 1);
    assert m.PendingOn(a, 1) == [Some(FIVE)];
  }

  lemma WrittenRow(w: Write)
    ensures RowsOf([w]) == {w.row}
  {
  }

  lemma CoveredBy(chain: Chain, b: TxnId, a: TxnId, ts: Timestamp, value: Option<Value>)
    requires chain != [] && Mine(chain[0], b) && a != b
    ensures Covered(Finalized(chain, b, ts), a, [Commit(ts, b, value)], ts + 1)
    ensures LastAt([Commit(ts, b, value)], ts + 1) == value
  {
    var after := Finalized(chain, b, ts);
    FinalizedPlaces(chain, b, ts);
    assert FirstOwn(chain, b) == 0;
    assert after[0].committed && after[0].begin == ts;
  }

  /** A prepared transaction has promised to commit, and is refused. */
  method PreparedRefused() returns (m: TxnManager, prepared: Option<Error>, outcome: Result<Timestamp, Error>)
    ensures fresh(m) && m.Valid() && prepared == None && outcome == Err(SerializationConflict(1))
  {
    hide RowsOk, OwnOk, Known, TxnsOk, SerialOk, SeenOk, LocksOk, RecallOk, HoldersOk, FirstVisible, Overwrote, Stamped,
         WrittenOnce, Undisturbed, Dropped, Finalizing, CommittedSince;
    m := new TxnManager();
    var id: TxnId;
    id, prepared := PreparedReader(m);
    OneCommit(m);
    BeganBefore(CommitsOf(m.history, 1));
    assert 1 in m.registry[id].readSet && MustFail(m.registry[id], m.history);
    outcome := m.Commit(id);
  }

  /** A first transaction that reads row 1 and is prepared. */
  method PreparedReader(m: TxnManager) returns (id: TxnId, prepared: Option<Error>)
    requires m.Valid() && m.nextTs == 1
    modifies m
    ensures m.Valid() && id in m.registry && id in m.active && m.nextTs == 2 && prepared == None
    ensures var t := m.registry[id];
            t.state == Prepared && t.isolation == Serializable && t.readSet == {1} && t.predicates == {} && t.begin == 1
    ensures m.history == old(m.history) && m.locks == old(m.locks) && m.chains == old(m.chains)
  {
    hide RowsOk, OwnOk, Known, TxnsOk, SerialOk, SeenOk, LocksOk, RecallOk, HoldersOk, FirstVisible, Dropped;
    id := m.Begin(Serializable);
    var found := m.Read(id, 1);
    prepared := m.Prepare(id);
  }
}
