/** Transactions, their locks and what keeps the version chains right over every run
    (src/txn.rs, lines 157-725). */
module TxnStates {
  import opened Options
  import opened Values
  import opened VersionChains

  datatype State = Active | Prepared | Committed | Aborted
  {
    predicate Live()
    {
      Active? || Prepared?
    }
  }

  datatype Undo = InsertUndo(row: Row) | UpdateUndo(row: Row) | DeleteUndo(row: Row)

  datatype Savepoint = Savepoint(name: string, undoLen: nat, writeSet: set<Row>, readSet: set<Row>)

  datatype Transaction = Transaction(begin: Timestamp, commitTs: Option<Timestamp>, state: State, isolation: Isolation,
    view: ReadView, readSet: set<Row>, writeSet: set<Row>, predicates: set<Row>, undo: seq<Undo>,
      savepoints: seq<Savepoint>)

  datatype LockEntry = LockEntry(shared: set<TxnId>, exclusive: Option<TxnId>)

  datatype Error = UnknownTxn | NotLive | LockConflict(row: Row) | RowExists(row: Row) | RowMissing(row: Row)
    | SavepointExists | SavepointUnknown | SerializationConflict(row: Row)

  /** What one statement makes of a row. */
  datatype Write = Write(row: Row, value: Option<Value>)

  type Chains = map<Row, Chain>
  type History = map<Row, Commits>
  type Locks = map<Row, LockEntry>
  type Registry = map<TxnId, Transaction>
  type Begins = map<TxnId, Timestamp>
  type Logs = map<TxnId, seq<Write>>
  type Seen = map<TxnId, map<Row, Option<Value>>>

  function ChainOf(chains: Chains, row: Row): Chain
  {
    if row in chains then chains[row] else []
  }

  function CommitsOf(history: History, row: Row): Commits
  {
    if row in history then history[row] else []
  }

  function LockOf(locks: Locks, row: Row): LockEntry
  {
    if row in locks then locks[row] else LockEntry({}, None)
  }

  /** What a list of writes makes of a row, newest first. */
  function Pending(log: seq<Write>, row: Row): seq<Option<Value>>
  {
    if log == [] then []
    else if log[|log| - 1].row == row then [log[|log| - 1].value] + Pending(log[..|log| - 1], row)
    else Pending(log[..|log| - 1], row)
  }

  function RowsOf(log: seq<Write>): set<Row>
  {
    set w | w in log :: w.row
  }

  lemma {:induction false} PendingRows(log: seq<Write>, row: Row)
    ensures Pending(log, row) != [] <==> row in RowsOf(log)
  {
    if log != [] {
      var front, last := log[..|log| - 1], log[|log| - 1];
      PendingRows(front, row);
      assert log == front + [last];
      assert last in log;
      assert forall w :: w in log <==> w in front || w == last;
    }
  }

  lemma PendingMore(log: seq<Write>, w: Write)
    ensures Pending(log + [w], w.row) == [w.value] + Pending(log, w.row)
    ensures forall row: Row :: row != w.row ==> Pending(log + [w], row) == Pending(log, row)
    ensures RowsOf(log + [w]) == RowsOf(log) + {w.row}
  {
    assert (log + [w])[..|log|] == log;
    assert forall x :: x in log + [w] <==> x in log || x == w;
  }

  // ----- invariants --------------------------------------------------------------------------

  /** Every chain agrees with the history of its row. */
  ghost predicate RowsOk(chains: Chains, history: History, floor: Timestamp, now: Timestamp, begins: Begins,
          active: set<TxnId>)
  {
    forall row: Row :: RowOk(ChainOf(chains, row), CommitsOf(history, row), floor, now, begins, active)
  }

  /** The intents of an active transaction are its writes. */
  ghost predicate OwnOk(chains: Chains, logs: Logs, active: set<TxnId>)
  {
    active <= logs.Keys && forall w, row: Row :: w in active && w in logs ==>
      Own(ChainOf(chains, row), w) == Pending(logs[w], row)
  }

  ghost predicate Known(registry: Registry, begins: Begins, logs: Logs, seen: Seen, active: set<TxnId>, now: Timestamp,
          nextId: TxnId)
  {
    && registry.Keys == begins.Keys == logs.Keys == seen.Keys && active <= registry.Keys
    && forall id :: id in registry ==>
         id < nextId && registry[id].begin == begins[id] < now && (id in active <==> registry[id].state.Live())
  }

  ghost predicate Aligned(undo: seq<Undo>, log: seq<Write>)
  {
    |undo| == |log| && forall i :: 0 <= i < |log| ==> undo[i].row == log[i].row
  }

  /** Nothing committed by a transaction the view found active is within its snapshot. */
  ghost predicate Blind(view: ReadView, history: History)
  {
    forall row: Row, k :: 0 <= k < |CommitsOf(history, row)| && CommitsOf(history, row)[k].writer in view.active ==>
      CommitsOf(history, row)[k].ts > view.snapshot
  }

  /** Later savepoints have no fewer writes before them. */
  ghost predicate InTurn(savepoints: seq<Savepoint>)
  {
    forall i, j :: 0 <= i < j < |savepoints| ==> savepoints[i].undoLen <= savepoints[j].undoLen
  }

  ghost predicate Marked(savepoints: seq<Savepoint>, log: seq<Write>)
  {
    && InTurn(savepoints)
    && forall sp :: sp in savepoints ==>
         sp.undoLen <= |log| && sp.writeSet == RowsOf(log[..sp.undoLen]) && sp.writeSet <= sp.readSet
  }

  ghost predicate TxnOk(id: TxnId, t: Transaction, log: seq<Write>, history: History, floor: Timestamp, now: Timestamp)
  {
    && t.view.reader == id && t.view.isolation == t.isolation && floor <= t.view.snapshot <= now && t.commitTs.None?
    && (t.isolation != ReadCommitted ==> t.view.snapshot == t.begin && Blind(t.view, history))
    && t.writeSet == RowsOf(log) && Aligned(t.undo, log) && Marked(t.savepoints, log) && t.writeSet <= t.readSet
  }

  ghost predicate TxnsOk(registry: Registry, logs: Logs, active: set<TxnId>, history: History, floor: Timestamp,
          now: Timestamp)
  {
    forall id :: id in active ==> id in registry && id in logs && TxnOk(id, registry[id], logs[id], history, floor, now)
  }

  /** Nothing a committed serializable transaction read was committed while it ran. */
  ghost predicate SerialOk(registry: Registry, history: History, now: Timestamp)
  {
    forall id :: id in registry && registry[id].commitTs.Some? ==> var t := registry[id];
      && t.begin < t.commitTs.value < now && t.writeSet <= t.readSet
      && (t.isolation == Serializable ==> forall row :: row in t.readSet + t.predicates ==>
            QuietBetween(CommitsOf(history, row), t.begin, t.commitTs.value))
  }

  predicate FixedView(isolation: Isolation)
  {
    isolation == RepeatableRead || isolation == Serializable
  }

  /** What transactions with a fixed view saw of others is what was committed when they began. */
  ghost predicate SeenOk(registry: Registry, seen: Seen, history: History)
  {
    forall id :: id in seen ==> id in registry && (FixedView(registry[id].isolation) ==>
      forall row :: row in seen[id] ==> seen[id][row] == LastAt(CommitsOf(history, row), registry[id].begin))
  }

  /** Whatever a transaction read, its values are noted or the row is locked by a predicate; so it is
      with what a savepoint would restore. */
  ghost predicate Recalls(t: Transaction, found: map<Row, Option<Value>>)
  {
    && t.readSet <= EverRead(t, found)
    && forall sp :: sp in t.savepoints ==> sp.readSet <= EverRead(t, found)
  }

  ghost predicate RecallOk(registry: Registry, seen: Seen)
  {
    forall id :: id in registry && id in seen ==> Recalls(registry[id], seen[id])
  }

  function EverRead(t: Transaction, found: map<Row, Option<Value>>): set<Row>
  {
    found.Keys + t.predicates
  }

  /** The rows that a transaction read and that its read set has lost since. */
  function Dropped(t: Transaction, found: map<Row, Option<Value>>): set<Row>
  {
    EverRead(t, found) - t.readSet - t.predicates
  }

  /** The transaction holds the row's exclusive lock, and its intent is the newest. */
  ghost predicate Holds(chain: Chain, lock: LockEntry, w: TxnId)
  {
    lock.exclusive == Some(w) && chain != [] && Mine(chain[0], w)
  }

  /** Who wrote a row holds it, unless that lock was let go since. */
  ghost predicate LocksOk(chains: Chains, locks: Locks, logs: Logs, active: set<TxnId>, loose: set<(TxnId, Row)>)
  {
    forall w, row: Row :: w in active && w in logs && Pending(logs[w], row) != [] && (w, row) !in loose ==>
      Holds(ChainOf(chains, row), LockOf(locks, row), w)
  }

  // ----- what follows from them --------------------------------------------------------------

  /** Two active transactions have written the same row only if one of them has let its lock
      go. */
  lemma OneWriter(chains: Chains, locks: Locks, logs: Logs, active: set<TxnId>, loose: set<(TxnId, Row)>, row: Row,
          a: TxnId, b: TxnId)
    requires LocksOk(chains, locks, logs, active, loose) && {a, b} <= active && {a, b} <= logs.Keys && a != b
    requires Pending(logs[a], row) != [] && Pending(logs[b], row) != []
    ensures (a, row) in loose || (b, row) in loose
  {
    assert a in {a, b} && b in {a, b};
  }

  /** No row the transaction ever read was committed by another while it ran. */
  ghost predicate Undisturbed(t: Transaction, found: map<Row, Option<Value>>, history: History)
    requires t.commitTs.Some?
  {
    forall row :: row in EverRead(t, found) ==> QuietBetween(CommitsOf(history, row), t.begin, t.commitTs.value)
  }

  /** A committed serializable transaction was undisturbed if and only if the rows were that its
      read set has lost; and what it saw of any other row, or of one of these that was left alone, is
      what was committed just before its own commit: it could have run at that moment. */
  lemma CouldRunAtCommit(registry: Registry, seen: Seen, history: History, now: Timestamp, id: TxnId, row: Row,
          chains: Chains, floor: Timestamp, begins: Begins, active: set<TxnId>)
    requires SerialOk(registry, history, now) && SeenOk(registry, seen, history)
             && RowsOk(chains, history, floor, now, begins, active)
    requires id in registry && id in seen && registry[id].commitTs.Some? && registry[id].isolation == Serializable
    ensures var t := registry[id];
            && (Undisturbed(t, seen[id], history) <==> forall r :: r in Dropped(t, seen[id]) ==>
                  QuietBetween(CommitsOf(history, r), t.begin, t.commitTs.value))
            && (row in seen[id] && (row in Dropped(t, seen[id]) ==>
                  QuietBetween(CommitsOf(history, row), t.begin, t.commitTs.value)) ==>
                  seen[id][row] == LastAt(CommitsOf(history, row), t.commitTs.value - 1))
  {
    hide QuietBetween;
    var t := registry[id];
    assert forall r :: r in t.readSet + t.predicates ==>
        QuietBetween(CommitsOf(history, r), t.begin, t.commitTs.value);
    assert EverRead(t, seen[id]) <= Dropped(t, seen[id]) + (t.readSet + t.predicates);
    if row in seen[id] && QuietBetween(CommitsOf(history, row), t.begin, t.commitTs.value) {
      RowAt(chains, history, floor, now, begins, active, row);
      QuietSame(CommitsOf(history, row), t.begin, t.commitTs.value);
    }
  }

  /** The transaction committed over a commit that it did not see. */
  ghost predicate Overwrote(t: Transaction, history: History)
    requires t.commitTs.Some?
  {
    exists row :: row in t.writeSet && !QuietBetween(CommitsOf(history, row), t.begin, t.commitTs.value)
  }

  /** A serializable transaction never does. */
  lemma SerializableOverwritesNone(registry: Registry, history: History, now: Timestamp, id: TxnId)
    requires SerialOk(registry, history, now)
    requires id in registry && registry[id].commitTs.Some? && registry[id].isolation == Serializable
    ensures !Overwrote(registry[id], history)
  {
    hide QuietBetween;
    var t := registry[id];
    assert forall row :: row in t.writeSet ==> row in t.readSet + t.predicates;
  }

  // ----- what operations do to them ----------------------------------------------------------

  lemma RecallAt(registry: Registry, seen: Seen, id: TxnId)
    requires RecallOk(registry, seen) && id in registry && id in seen
    ensures Recalls(registry[id], seen[id])
  {
  }

  lemma Recalled(registry: Registry, seen: Seen, id: TxnId, t: Transaction)
    requires RecallOk(registry, seen) && (id in seen ==> Recalls(t, seen[id]))
    ensures RecallOk(registry[id := t], seen)
  {
    hide Recalls;
  }

  lemma RecalledMore(registry: Registry, seen: Seen, id: TxnId, t: Transaction, found: map<Row, Option<Value>>)
    requires RecallOk(registry, seen) && Recalls(t, found)
    ensures RecallOk(registry[id := t], seen[id := found])
  {
    hide Recalls;
  }

  lemma RowAt(chains: Chains, history: History, floor: Timestamp, now: Timestamp, begins: Begins, active: set<TxnId>,
          row: Row)
    requires RowsOk(chains, history, floor, now, begins, active)
    ensures RowOk(ChainOf(chains, row), CommitsOf(history, row), floor, now, begins, active)
  {
  }

  lemma RowsLater(chains: Chains, history: History, floor: Timestamp, now: Timestamp, begins: Begins,
          active: set<TxnId>, now': Timestamp, begins': Begins, active': set<TxnId>)
    requires RowsOk(chains, history, floor, now, begins, active) && now <= now'
    requires forall t :: t in begins ==> t in begins' && begins'[t] == begins[t]
    requires forall t :: t in active' && t in begins ==> t in active
    ensures RowsOk(chains, history, floor, now', begins', active')
  {
    hide RowOk;
    forall row: Row ensures RowOk(ChainOf(chains, row), CommitsOf(history, row), floor, now', begins', active') {
      Later(ChainOf(chains, row), CommitsOf(history, row), floor, now, begins, active, now', begins', active');
    }
  }

  lemma TagsOf(chain: Chain, h: Commits, floor: Timestamp, now: Timestamp, begins: Begins, active: set<TxnId>)
    requires RowOk(chain, h, floor, now, begins, active)
    ensures Tagged(chain, begins)
  {
  }

  /** A transaction that has not begun has no intents. */
  lemma {:induction false} NoneOwn(chain: Chain, begins: Begins, w: TxnId)
    requires Tagged(chain, begins) && w !in begins
    ensures Own(chain, w) == []
  {
    if chain != [] {
      assert chain[0] in chain;
      assert forall v :: v in chain[1..] ==> v in chain;
      NoneOwn(chain[1..], begins, w);
    }
  }

  /** Beginning a transaction (lines 900-912). */
  lemma Begun(chains: Chains, history: History, floor: Timestamp, now: Timestamp, begins: Begins, active: set<TxnId>,
          logs: Logs, id: TxnId)
    requires RowsOk(chains, history, floor, now, begins, active) && OwnOk(chains, logs, active) && id !in begins
    ensures RowsOk(chains, history, floor, now + 1, begins[id := now], active + {id})
    ensures OwnOk(chains, logs[id := []], active + {id})
  {
    RowsLater(chains, history, floor, now, begins, active, now + 1, begins[id := now], active + {id});
    hide RowsOk, RowOk;
    forall row: Row ensures Own(ChainOf(chains, row), id) == [] {
      RowAt(chains, history, floor, now, begins, active, row);
      TagsOf(ChainOf(chains, row), CommitsOf(history, row), floor, now, begins, active);
      NoneOwn(ChainOf(chains, row), begins, id);
    }
    OwnMore(chains, logs, active, id);
  }

  lemma OwnMore(chains: Chains, logs: Logs, active: set<TxnId>, id: TxnId)
    requires OwnOk(chains, logs, active) && forall row: Row :: Own(ChainOf(chains, row), id) == []
    ensures OwnOk(chains, logs[id := []], active + {id})
  {
    var logs', active' := logs[id := []], active + {id};
    forall w, row: Row | w in active' ensures w in logs' && Own(ChainOf(chains, row), w) == Pending(logs'[w], row) {
      if w != id {
        assert Own(ChainOf(chains, row), w) == Pending(logs[w], row);
      } else {
        assert Own(ChainOf(chains, row), id) == [];
        assert Pending([], row) == [];
      }
    }
  }

  lemma BlindToActive(chains: Chains, history: History, floor: Timestamp, now: Timestamp, begins: Begins,
          active: set<TxnId>, view: ReadView)
    requires RowsOk(chains, history, floor, now, begins, active) && view.active <= active
    ensures Blind(view, history)
  {
    forall row: Row ensures Past(CommitsOf(history, row), now, begins, active) {
      RowAt(chains, history, floor, now, begins, active, row);
    }
  }

  /** What a reader with a fixed view, or with its lock kept, sees. */
  lemma WhatIsSeen(chains: Chains, history: History, floor: Timestamp, now: Timestamp, begins: Begins,
          active: set<TxnId>, logs: Logs, view: ReadView, row: Row)
    requires RowsOk(chains, history, floor, now, begins, active) && OwnOk(chains, logs, active)
    requires view.reader in active && view.reader in logs && Blind(view, history) && floor <= view.snapshot
             && view.isolation != ReadUncommitted
    requires (view.reader in begins && begins[view.reader] == view.snapshot)
             || Own(ChainOf(chains, row), view.reader) == []
             || Mine(ChainOf(chains, row)[0], view.reader)
    ensures var mine := Pending(logs[view.reader], row);
            ShownIn(FirstVisible(ChainOf(chains, row), view))
              == if mine != [] then mine[0] else LastAt(CommitsOf(history, row), view.snapshot)
  {
    var chain, h := ChainOf(chains, row), CommitsOf(history, row);
    RowAt(chains, history, floor, now, begins, active, row);
    OwnFirst(chain, view.reader);
    var j := FirstOwn(chain, view.reader);
    if j < |chain| {
      assert chain[j] in chain;
      assert forall i :: 0 <= i < j ==> InOrder(chain[i], chain[j]);
    }
    ReadsSnapshot(chain, h, view, floor, now, begins, active);
  }

  /** What a dirty read sees: the newest write intent, but nothing committed after it began. */
  lemma WhatIsSeenDirty(chains: Chains, history: History, floor: Timestamp, now: Timestamp, begins: Begins,
          active: set<TxnId>, view: ReadView, row: Row)
    requires RowsOk(chains, history, floor, now, begins, active)
    requires Blind(view, history) && floor <= view.snapshot && view.isolation == ReadUncommitted
    ensures ShownIn(FirstVisible(ChainOf(chains, row), view))
         == DirtyShown(ChainOf(chains, row), CommitsOf(history, row), view.snapshot)
  {
    RowAt(chains, history, floor, now, begins, active, row);
    ReadsDirty(ChainOf(chains, row), CommitsOf(history, row), view, floor);
  }

  /** It sees the newest version if and only if that is not committed yet, or was the committed one
      when the reader began. */
  lemma DirtyReadIff(chains: Chains, history: History, floor: Timestamp, now: Timestamp, begins: Begins,
          active: set<TxnId>, view: ReadView, row: Row)
    requires RowsOk(chains, history, floor, now, begins, active)
    requires Blind(view, history) && floor <= view.snapshot && view.isolation == ReadUncommitted
             && ChainOf(chains, row) != []
    ensures var newest := ChainOf(chains, row)[0];
            FirstVisible(ChainOf(chains, row), view) == Some(newest) <==>
            (!newest.committed || (newest.begin <= view.snapshot
              && (newest.end.Some? ==> view.snapshot < newest.end.value)))
  {
    var chain, h := ChainOf(chains, row), CommitsOf(history, row);
    RowAt(chains, history, floor, now, begins, active, row);
    VisibleMember(chain, view);
    assert chain[0] in chain;
    if chain[0].committed {
      var k :| 0 <= k < |h| && chain[0] == VersionOf(h, k);
      CommitVisible(h, k, view, floor);
    }
  }

  /** A new write intent (lines 1197-1209). */
  lemma Wrote(chains: Chains, history: History, floor: Timestamp, now: Timestamp, begins: Begins, active: set<TxnId>,
          logs: Logs, row: Row, v: Version)
    requires RowsOk(chains, history, floor, now, begins, active) && OwnOk(chains, logs, active)
    requires v.writer in active && v.writer in logs && !v.committed && Tagged([v], begins)
    ensures var chains', logs' := chains[row := [v] + ChainOf(chains, row)],
            logs[v.writer := logs[v.writer] + [Write(row, Shown(v))]];
            RowsOk(chains', history, floor, now, begins, active) && OwnOk(chains', logs', active)
  {
    hide RowOk;
    var w, log := v.writer, logs[v.writer];
    var chains', logs' := chains[row := [v] + ChainOf(chains, row)], logs[w := log + [Write(row, Shown(v))]];
    PendingMore(log, Write(row, Shown(v)));
    RowAt(chains, history, floor, now, begins, active, row);
    Pushed(ChainOf(chains, row), v, CommitsOf(history, row), floor, now, begins, active);
    forall r: Row ensures RowOk(ChainOf(chains', r), CommitsOf(history, r), floor, now, begins, active) {
      RowAt(chains, history, floor, now, begins, active, r);
    }
    forall x, r: Row | x in active ensures x in logs' && Own(ChainOf(chains', r), x) == Pending(logs'[x], r) {
      assert Own(ChainOf(chains, r), x) == Pending(logs[x], r);
    }
  }

  /** ... by the holder of the row's lock. */
  lemma WroteHeld(chains: Chains, locks: Locks, logs: Logs, active: set<TxnId>, loose: set<(TxnId, Row)>, row: Row,
          v: Version)
    requires LocksOk(chains, locks, logs, active, loose) && v.writer in active && v.writer in logs && !v.committed
    requires LockOf(locks, row).exclusive == Some(v.writer)
    ensures LocksOk(chains[row := [v] + ChainOf(chains, row)], locks,
            logs[v.writer := logs[v.writer] + [Write(row, Shown(v))]], active, loose)
  {
    var log := logs[v.writer];
    PendingMore(log, Write(row, Shown(v)));
    var chains', logs' := chains[row := [v] + ChainOf(chains, row)], logs[v.writer := log + [Write(row, Shown(v))]];
    forall w, r: Row | w in active && w in logs' && Pending(logs'[w], r) != [] && (w, r) !in loose
      ensures Holds(ChainOf(chains', r), LockOf(locks, r), w)
    {
      if r != row {
        assert ChainOf(chains', r) == ChainOf(chains, r) && Pending(logs'[w], r) == Pending(logs[w], r);
      }
    }
  }

  /** One chain of a transaction that gives up its newest intent there (lines 1343-1354). */
  lemma Undone(chains: Chains, chains': Chains, history: History, floor: Timestamp, now: Timestamp, begins: Begins,
          active: set<TxnId>, logs: Logs, id: TxnId, i: nat)
    requires RowsOk(chains, history, floor, now, begins, active) && OwnOk(chains, logs, active)
    requires id in active && id in logs && logs[id] != []
    requires var row := logs[id][|logs[id]| - 1].row; var chain := ChainOf(chains, row);
             i == FirstOwn(chain, id) < |chain| && ChainOf(chains', row) == chain[..i] + chain[i + 1..]
             && forall r: Row :: r != row ==> ChainOf(chains', r) == ChainOf(chains, r)
    ensures RowsOk(chains', history, floor, now, begins, active)
    ensures OwnOk(chains', logs[id := logs[id][..|logs[id]| - 1]], active)
  {
    hide RowOk, Own, OwnOk;
    var row := logs[id][|logs[id]| - 1].row;
    RowAt(chains, history, floor, now, begins, active, row);
    Removed(ChainOf(chains, row), i, CommitsOf(history, row), floor, now, begins, active);
    forall r: Row ensures RowOk(ChainOf(chains', r), CommitsOf(history, r), floor, now, begins, active) {
      RowAt(chains, history, floor, now, begins, active, r);
    }
    UndoneOwn(chains, chains', logs, active, id, i);
  }

  lemma UndoneOwn(chains: Chains, chains': Chains, logs: Logs, active: set<TxnId>, id: TxnId, i: nat)
    requires OwnOk(chains, logs, active) && id in active && id in logs && logs[id] != []
    requires var row := logs[id][|logs[id]| - 1].row; var chain := ChainOf(chains, row);
             i == FirstOwn(chain, id) < |chain| && ChainOf(chains', row) == chain[..i] + chain[i + 1..]
             && forall r: Row :: r != row ==> ChainOf(chains', r) == ChainOf(chains, r)
    ensures OwnOk(chains', logs[id := logs[id][..|logs[id]| - 1]], active)
  {
    hide Own, FirstOwn;
    var log := logs[id];
    var row, less := log[|log| - 1].row, log[..|log| - 1];
    var chain, logs' := ChainOf(chains, row), logs[id := less];
    forall w, r: Row | w in active ensures w in logs' && Own(ChainOf(chains', r), w) == Pending(logs'[w], r) {
      assert Own(ChainOf(chains, r), w) == Pending(logs[w], r);
      if r == row {
        OwnRemoved(chain, w, i);
      }
    }
  }

  /** The newest write of a transaction has an intent. */
  lemma HasIntent(chains: Chains, logs: Logs, active: set<TxnId>, id: TxnId, row: Row)
    requires OwnOk(chains, logs, active) && id in active && id in logs
    ensures row in RowsOf(logs[id]) <==> FirstOwn(ChainOf(chains, row), id) < |ChainOf(chains, row)|
    ensures row in RowsOf(logs[id]) ==>
              Pending(logs[id], row) != [] && row in chains
              && Shown(ChainOf(chains, row)[FirstOwn(ChainOf(chains, row), id)]) == Pending(logs[id], row)[0]
  {
    assert Own(ChainOf(chains, row), id) == Pending(logs[id], row);
    PendingRows(logs[id], row);
    OwnFirst(ChainOf(chains, row), id);
  }
}
