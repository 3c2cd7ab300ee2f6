/**
 * Versioned items with history (internal/repository/item_repo.go, internal/service/item_service.go).
 *
 * A database state holds the committed rows and, beside them, every transaction with what it has written and
 * not yet committed. One event is one SQL statement of one transaction, and a run is any interleaving of such
 * events under READ COMMITTED: a statement sees the rows committed before it, an UPDATE waits for the row lock
 * of another transaction and then looks at the row that one left behind.
 */
module ItemProtocol {
  import opened Wrappers

  type ItemId = nat
  type TxId = nat
  type User = nat
  type Cipher = seq<char>

  /** A committed row of items. */
  datatype Row = Row(vault: nat, data: Cipher, version: nat, updatedBy: Option<User>)

  /** A row of item_history. */
  datatype Archived = Archived(item: ItemId, data: Cipher, version: nat, changedBy: Option<User>, createdAt: nat)

  /** What the client sends: the new ciphertext and the version it believes to be current. */
  datatype Request = Request(item: ItemId, data: Cipher, version: int, author: Option<User>)

  datatype Phase =
    | Begun
    | Snapshotted(copy: Option<Archived>)
    | Updated(copy: Option<Archived>, row: Row)
    | Committed(version: nat)
    | Conflict
    | RolledBack

  datatype Tx = Tx(req: Request, started: nat, phase: Phase)

  /** What was once committed as a version, by which transaction (none for the first) and when. */
  datatype Entry = Entry(data: Cipher, author: Option<User>, writer: Option<TxId>, at: nat)

  /**
   * items and history are the tables; a history row is named by the transaction that inserted it. log is for
   * the proof only: every ciphertext ever committed for an item, version 1 first. It outlives a deletion, as
   * identifiers are never used again.
   */
  datatype State = State(
    items: map<ItemId, Row>,
    history: map<TxId, Archived>,
    txs: map<TxId, Tx>,
    now: nat,
    log: map<ItemId, seq<Entry>>)

  function Empty(): State {
    State(map[], map[], map[], 0, map[])
  }

  datatype Event =
    | Create(item: ItemId, vault: nat, data: Cipher, author: Option<User>)
    | Delete(item: ItemId)
    | Begin(tx: TxId, req: Request, at: nat)
    | Snapshot(tx: TxId)
    | ConditionalUpdate(tx: TxId)
    | Commit(tx: TxId)
    | Fail(tx: TxId)

  /** Another transaction has updated the row and not finished. */
  predicate Locked(s: State, id: ItemId, tx: TxId) {
    exists t :: t in s.txs && t != tx && s.txs[t].phase.Updated? && s.txs[t].req.item == id
  }

  /** The foreign key of an uncommitted history row, or an uncommitted update, keeps the row from being deleted. */
  predicate Held(s: State, id: ItemId) {
    exists t :: t in s.txs && s.txs[t].req.item == id
      && (s.txs[t].phase.Updated? || (s.txs[t].phase.Snapshotted? && s.txs[t].phase.copy.Some?))
  }

  predicate Active(phase: Phase) {
    phase.Begun? || phase.Snapshotted? || phase.Updated?
  }

  predicate Enabled(s: State, e: Event) {
    match e
    case Create(id, _, _, _) => id !in s.log
    case Delete(id) => id in s.items && !Held(s, id)
    case Begin(tx, req, at) => tx !in s.txs && req.item in s.log && at >= s.now
    case Snapshot(tx) => tx in s.txs && s.txs[tx].phase.Begun?
    case ConditionalUpdate(tx) => tx in s.txs && s.txs[tx].phase.Snapshotted? && !Locked(s, s.txs[tx].req.item, tx)
    case Commit(tx) => tx in s.txs && s.txs[tx].phase.Updated?
    case Fail(tx) => tx in s.txs && Active(s.txs[tx].phase)
  }

  /** INSERT INTO item_history SELECT: a copy of the committed row, or nothing when there is no row. */
  function CopyOf(s: State, id: ItemId, at: nat): Option<Archived> {
    if id in s.items then
      var row := s.items[id];
      Some(Archived(id, row.data, row.version, row.updatedBy, at))
    else None
  }

  /** UPDATE … WHERE id AND version: the new row, or a conflict, after which the transaction is rolled back. */
  function AfterUpdate(s: State, t: Tx): Phase
    requires t.phase.Snapshotted?
  {
    var id := t.req.item;
    if id in s.items && s.items[id].version == t.req.version then
      Updated(t.phase.copy, Row(s.items[id].vault, t.req.data, s.items[id].version + 1, t.req.author))
    else
      Conflict
  }

  function WithPhase(s: State, tx: TxId, phase: Phase): State
    requires tx in s.txs
  {
    s.(txs := s.txs[tx := s.txs[tx].(phase := phase)])
  }

  function LogOf(s: State, id: ItemId): seq<Entry> {
    if id in s.log then s.log[id] else []
  }

  function Apply(s: State, e: Event): State
    requires Enabled(s, e)
  {
    match e
    case Create(id, vault, data, author) =>
      s.(items := s.items[id := Row(vault, data, 1, author)], log := s.log[id := [Entry(data, author, None, s.now)]])
    case Delete(id) =>
      s.(items := s.items - {id}, history := map k | k in s.history && s.history[k].item != id :: s.history[k])
    case Begin(tx, req, at) =>
      s.(txs := s.txs[tx := Tx(req, at, Begun)], now := at)
    case Snapshot(tx) =>
      WithPhase(s, tx, Snapshotted(CopyOf(s, s.txs[tx].req.item, s.txs[tx].started)))
    case ConditionalUpdate(tx) =>
      WithPhase(s, tx, AfterUpdate(s, s.txs[tx]))
    case Commit(tx) =>
      var t := s.txs[tx];
      var id, row := t.req.item, t.phase.row;
      WithPhase(s, tx, Phase.Committed(row.version)).(
        items := s.items[id := row],
        history := if t.phase.copy.Some? then s.history[tx := t.phase.copy.value] else s.history,
        log := s.log[id := LogOf(s, id) + [Entry(row.data, row.updatedBy, Some(tx), s.now)]])
    case Fail(tx) =>
      WithPhase(s, tx, RolledBack)
  }

  ghost predicate Possible(s: State, run: seq<Event>)
    decreases |run|
  {
    run == [] || (Enabled(s, run[0]) && Possible(Apply(s, run[0]), run[1..]))
  }

  ghost function After(s: State, run: seq<Event>): State
    requires Possible(s, run)
    decreases |run|
  {
    if run == [] then s else After(Apply(s, run[0]), run[1..])
  }

  /** The version of the request was read from a committed row before its transaction began. */
  predicate ReadBefore(s: State, req: Request) {
    req.item in s.items ==> req.version <= s.items[req.item].version
  }

  ghost predicate Honest(s: State, run: seq<Event>)
    requires Possible(s, run)
    decreases |run|
  {
    run != [] ==>
      && (run[0].Begin? ==> ReadBefore(s, run[0].req))
      && Honest(Apply(s, run[0]), run[1..])
  }

  // ---- The invariant ----

  /** The row of an item is the last entry of its log. */
  ghost predicate RowsCurrent(s: State) {
    && (forall id :: id in s.items ==> id in s.log)
    && (forall id :: id in s.log ==> |s.log[id]| > 0)
    && forall id :: id in s.items ==>
         && s.items[id].version == |s.log[id]|
         && s.items[id].data == s.log[id][|s.log[id]| - 1].data
         && s.items[id].updatedBy == s.log[id][|s.log[id]| - 1].author
  }

  /** Row k archives the version that transaction k overwrote. */
  ghost predicate ArchivedRight(s: State, k: TxId)
    requires k in s.history
  {
    var h := s.history[k];
    && h.item in s.items && h.item in s.log && 1 <= h.version < |s.log[h.item]|
    && s.log[h.item][h.version].writer == Some(k)
    && h.data == s.log[h.item][h.version - 1].data
    && h.changedBy == s.log[h.item][h.version - 1].author
    && k in s.txs && h.createdAt == s.txs[k].started
  }

  /** Every version but the current one is archived, by the transaction that replaced it. */
  ghost predicate AllArchived(s: State) {
    forall id, v :: id in s.items && id in s.log && 1 <= v < |s.log[id]| ==> VersionArchived(s, id, v)
  }

  ghost predicate VersionArchived(s: State, id: ItemId, v: nat)
    requires id in s.log && 1 <= v < |s.log[id]|
  {
    var w := s.log[id][v].writer;
    w.Some? && w.value in s.history && s.history[w.value].item == id && s.history[w.value].version == v
  }

  /** A committed transaction wrote exactly one log entry, and started after the entry before it was committed. */
  ghost predicate WritersKnown(s: State) {
    && (forall tx :: tx in s.txs && s.txs[tx].phase.Committed? ==> WroteIts(s, tx))
    && forall id, v :: id in s.log && 0 <= v < |s.log[id]| && s.log[id][v].writer.Some? ==> EntryBy(s, id, v)
  }

  ghost predicate WroteIts(s: State, tx: TxId)
    requires tx in s.txs && s.txs[tx].phase.Committed?
  {
    var id, v := s.txs[tx].req.item, s.txs[tx].phase.version;
    id in s.log && 2 <= v <= |s.log[id]| && s.log[id][v - 1].writer == Some(tx)
  }

  ghost predicate EntryBy(s: State, id: ItemId, v: nat)
    requires id in s.log && v < |s.log[id]| && s.log[id][v].writer.Some?
  {
    var tx := s.log[id][v].writer.value;
    && v > 0 && tx in s.txs && s.txs[tx].phase == Phase.Committed(v + 1) && s.txs[tx].req.item == id
    && s.txs[tx].req.version == v && s.log[id][v].data == s.txs[tx].req.data && s.log[id][v].author == s.txs[tx].req.author
    && s.log[id][v - 1].at <= s.txs[tx].started <= s.log[id][v].at
  }

  /** What an unfinished transaction knows about the rows committed so far. */
  ghost predicate TxSound(s: State, tx: TxId)
    requires tx in s.txs
  {
    var t := s.txs[tx];
    var id := t.req.item;
    && t.started <= s.now && id in s.log
    && (t.phase.Committed? || tx !in s.history)
    && match t.phase
       case Begun => id in s.items ==> Seen(s, t)
       case Snapshotted(copy) =>
         if copy.None? then id !in s.items
         else
           && id in s.items && Seen(s, t)
           && t.req.version <= copy.value.version <= s.items[id].version
           && (copy.value.version == s.items[id].version ==> copy == CopyOf(s, id, t.started))
       case Updated(copy, row) =>
         && id in s.items && Seen(s, t)
         && copy == CopyOf(s, id, t.started)
         && t.req.version == s.items[id].version
         && row == Row(s.items[id].vault, t.req.data, s.items[id].version + 1, t.req.author)
       case Committed(_) => true
       case Conflict => true
       case RolledBack => true
  }

  /** The requested version is no newer than the row, and was committed before the transaction started. */
  ghost predicate Seen(s: State, t: Tx) {
    && t.req.item in s.items && t.req.version <= s.items[t.req.item].version
    && t.req.item in s.log
    && (1 <= t.req.version <= |s.log[t.req.item]| ==> s.log[t.req.item][t.req.version - 1].at <= t.started)
  }

  /** At most one transaction holds the row lock of an item. */
  ghost predicate OneLock(s: State) {
    forall a, b :: HoldsLock(s, a) && HoldsLock(s, b) && s.txs[a].req.item == s.txs[b].req.item ==> a == b
  }

  ghost predicate HoldsLock(s: State, tx: TxId) {
    tx in s.txs && s.txs[tx].phase.Updated?
  }

  /** No log entry lies in the future, and entries are in order of time. */
  ghost predicate TimesOrdered(s: State) {
    && (forall id, v :: id in s.log && 0 <= v < |s.log[id]| ==> s.log[id][v].at <= s.now)
    && forall id, u, v :: id in s.log && 0 <= u <= v < |s.log[id]| ==> s.log[id][u].at <= s.log[id][v].at
  }

  ghost predicate HistoryRight(s: State) {
    forall k :: k in s.history ==> ArchivedRight(s, k)
  }

  ghost predicate TxsSound(s: State) {
    forall tx :: tx in s.txs ==> TxSound(s, tx)
  }

  ghost predicate Inv(s: State) {
    && RowsCurrent(s)
    && HistoryRight(s)
    && AllArchived(s)
    && WritersKnown(s)
    && TxsSound(s)
    && OneLock(s)
    && TimesOrdered(s)
  }

  lemma EmptyInv()
    ensures Inv(Empty())
  {
  }

  /** An event that may happen next, from a request that was read before. */
  ghost predicate Next(s: State, e: Event) {
    Enabled(s, e) && (e.Begin? ==> ReadBefore(s, e.req))
  }

  /** A commit comes from a transaction that still describes the current row. */
  lemma CommitFacts(s: State, e: Event)
    requires TxsSound(s) && e.Commit? && Enabled(s, e)
    ensures TxSound(s, e.tx)
  {
  }

  lemma RowsKept(s: State, e: Event)
    requires RowsCurrent(s) && TxsSound(s) && Enabled(s, e)
    ensures RowsCurrent(Apply(s, e))
  {
    hide TxsSound, Locked, Held, AfterUpdate;
    if e.Commit? {
      CommitFacts(s, e);
    }
  }

  lemma HistoryKept(s: State, e: Event)
    requires RowsCurrent(s) && HistoryRight(s) && TxsSound(s) && Next(s, e)
    ensures HistoryRight(Apply(s, e))
  {
    hide TxsSound, Locked, Held, AfterUpdate, RowsCurrent, Seen;
    var s' := Apply(s, e);
    forall k | k in s'.history ensures ArchivedRight(s', k) {
      if k in s.history {
        assert ArchivedRight(s, k);
      }
      TxKnown(s, k);
      if e.Commit? {
        CommitFacts(s, e);
        RowsAgree(s, s.txs[e.tx].req.item);
      }
    }
  }

  lemma TxKnown(s: State, tx: TxId)
    requires TxsSound(s)
    ensures tx in s.txs ==> TxSound(s, tx)
  {
  }

  lemma RowsAgree(s: State, id: ItemId)
    requires RowsCurrent(s) && id in s.items
    ensures id in s.log && s.items[id].version == |s.log[id]| > 0
    ensures s.items[id].data == s.log[id][|s.log[id]| - 1].data
    ensures s.items[id].updatedBy == s.log[id][|s.log[id]| - 1].author
  {
  }

  lemma ArchivesKept(s: State, e: Event)
    requires RowsCurrent(s) && AllArchived(s) && TxsSound(s) && Next(s, e)
    ensures AllArchived(Apply(s, e))
  {
    hide TxsSound, Locked, Held, AfterUpdate, RowsCurrent, Seen;
    var s' := Apply(s, e);
    forall id, v | id in s'.items && id in s'.log && 1 <= v < |s'.log[id]| ensures VersionArchived(s', id, v) {
      if id in s.items && id in s.log && v < |s.log[id]| {
        assert VersionArchived(s, id, v);
      }
      if e.Commit? {
        CommitFacts(s, e);
        RowsAgree(s, s.txs[e.tx].req.item);
      }
    }
  }

  lemma WritersKept(s: State, e: Event)
    requires RowsCurrent(s) && WritersKnown(s) && TxsSound(s) && TimesOrdered(s) && Next(s, e)
    ensures WritersKnown(Apply(s, e))
  {
    hide TxsSound, Locked, Held, RowsCurrent, TimesOrdered;
    var s' := Apply(s, e);
    if e.Commit? {
      CommitFacts(s, e);
      RowsAgree(s, s.txs[e.tx].req.item);
    }
    forall tx | tx in s'.txs && s'.txs[tx].phase.Committed? ensures WroteIts(s', tx) {
      if tx in s.txs && s.txs[tx].phase.Committed? {
        assert WroteIts(s, tx);
      }
    }
    forall id, v | id in s'.log && 0 <= v < |s'.log[id]| && s'.log[id][v].writer.Some? ensures EntryBy(s', id, v) {
      if id in s.log && v < |s.log[id]| {
        assert EntryBy(s, id, v);
      }
    }
  }

  lemma TxKept(s: State, e: Event, tx: TxId)
    requires RowsCurrent(s) && TxsSound(s) && OneLock(s) && TimesOrdered(s) && HistoryRight(s) && Next(s, e)
    requires tx in Apply(s, e).txs
    ensures TxSound(Apply(s, e), tx)
  {
    hide TxsSound, RowsCurrent, OneLock, TimesOrdered, HistoryRight;
    TxKnown(s, tx);
    match e {
      case Commit(_) =>
        hide TxSound;
        TxKeptByCommit(s, e, tx);
      case Begin(_, req, _) =>
        HistoryOld(s, tx);
        BeginSees(s, e);
      case Create(_, _, _, _) =>
      case Delete(_) =>
      case Snapshot(_) =>
      case ConditionalUpdate(_) =>
      case Fail(_) =>
    }
  }

  lemma TxKeptByCommit(s: State, e: Event, tx: TxId)
    requires RowsCurrent(s) && TxsSound(s) && OneLock(s) && e.Commit? && Next(s, e)
    requires tx in s.txs && TxSound(s, tx)
    ensures TxSound(Apply(s, e), tx)
  {
    hide TxsSound, RowsCurrent, OneLock;
    CommitFacts(s, e);
    RowsAgree(s, s.txs[e.tx].req.item);
    LockAlone(s, e.tx, tx);
  }

  lemma LockAlone(s: State, a: TxId, b: TxId)
    requires OneLock(s)
    ensures HoldsLock(s, a) && HoldsLock(s, b) ==> s.txs[a].req.item != s.txs[b].req.item || a == b
  {
  }

  lemma HistoryOld(s: State, k: TxId)
    requires HistoryRight(s)
    ensures k in s.history ==> k in s.txs
  {
    if k in s.history {
      assert ArchivedRight(s, k);
    }
  }

  lemma BeginSees(s: State, e: Event)
    requires RowsCurrent(s) && TimesOrdered(s) && e.Begin? && Next(s, e)
    ensures e.req.item in s.items ==> Seen(s, Tx(e.req, e.at, Begun))
  {
  }

  lemma TxsKept(s: State, e: Event)
    requires RowsCurrent(s) && TxsSound(s) && OneLock(s) && TimesOrdered(s) && HistoryRight(s) && Next(s, e)
    ensures TxsSound(Apply(s, e))
  {
    hide RowsCurrent, OneLock, TimesOrdered, HistoryRight, TxSound, Enabled, Apply;
    forall tx | tx in Apply(s, e).txs ensures TxSound(Apply(s, e), tx) {
      TxKept(s, e, tx);
    }
  }

  lemma LocksKept(s: State, e: Event)
    requires OneLock(s) && Enabled(s, e)
    ensures OneLock(Apply(s, e))
  {
    var s' := Apply(s, e);
    forall a, b | HoldsLock(s', a) && HoldsLock(s', b) && s'.txs[a].req.item == s'.txs[b].req.item ensures a == b {
      assert a != b ==> HoldsLock(s, a) || HoldsLock(s, b);
    }
  }

  lemma TimesKept(s: State, e: Event)
    requires TimesOrdered(s) && Enabled(s, e)
    ensures TimesOrdered(Apply(s, e))
  {
  }

  lemma StepKeeps(s: State, e: Event)
    requires Inv(s) && Next(s, e)
    ensures Inv(Apply(s, e))
  {
    hide RowsCurrent, HistoryRight, AllArchived, WritersKnown, TxsSound, OneLock, TimesOrdered, Enabled, Apply;
    RowsKept(s, e);
    HistoryKept(s, e);
    ArchivesKept(s, e);
    WritersKept(s, e);
    TxsKept(s, e);
    LocksKept(s, e);
    TimesKept(s, e);
  }

  /** Whatever the interleaving, every run of honest requests keeps the invariant. */
  lemma {:induction false} RunsKeep(s: State, run: seq<Event>)
    requires Inv(s) && Possible(s, run) && Honest(s, run)
    ensures Inv(After(s, run))
    decreases |run|
  {
    hide Inv, Enabled, Apply;
    if run != [] {
      StepKeeps(s, run[0]);
      RunsKeep(Apply(s, run[0]), run[1..]);
    }
  }

  // ---- What every honest run guarantees ----

  /** The states that honest requests can reach from an empty database. */
  ghost predicate Reachable(s: State) {
    exists run :: Possible(Empty(), run) && Honest(Empty(), run) && After(Empty(), run) == s
  }

  lemma ReachableInv(s: State)
    requires Reachable(s)
    ensures Inv(s)
  {
    hide Inv;
    var run :| Possible(Empty(), run) && Honest(Empty(), run) && After(Empty(), run) == s;
    EmptyInv();
    RunsKeep(Empty(), run);
  }

  ghost predicate IsArchived(s: State, k: TxId, id: ItemId, v: nat) {
    k in s.history && s.history[k].item == id && s.history[k].version == v
  }

  /** The ciphertext once committed as version v of an item is in its history. */
  ghost predicate Recoverable(s: State, id: ItemId, v: nat)
    requires id in s.log && 1 <= v <= |s.log[id]|
  {
    exists k :: IsArchived(s, k, id, v) && s.history[k].data == s.log[id][v - 1].data
      && s.history[k].changedBy == s.log[id][v - 1].author
  }

  /** An item at version v has exactly one history row for each earlier version and none for any other. */
  lemma ExactlyOneRowEach(s: State, id: ItemId)
    requires Reachable(s) && id in s.items
    ensures id in s.log && s.items[id].version == |s.log[id]| > 0 && s.items[id].data == s.log[id][|s.log[id]| - 1].data
    ensures forall v :: 1 <= v < s.items[id].version ==> Recoverable(s, id, v)
    ensures forall k :: k in s.history && s.history[k].item == id ==> 1 <= s.history[k].version < s.items[id].version
    ensures forall k, l, v :: IsArchived(s, k, id, v) && IsArchived(s, l, id, v) ==> k == l
  {
    hide Reachable, WritersKnown, TxsSound, TimesOrdered, OneLock;
    ReachableInv(s);
    RowsAgree(s, id);
    forall v | 1 <= v < s.items[id].version ensures Recoverable(s, id, v) {
      assert VersionArchived(s, id, v);
      var k := s.log[id][v].writer.value;
      assert ArchivedRight(s, k);
      assert IsArchived(s, k, id, v);
    }
    forall k | k in s.history && s.history[k].item == id ensures 1 <= s.history[k].version < s.items[id].version {
      assert ArchivedRight(s, k);
    }
    forall k, l, v | IsArchived(s, k, id, v) && IsArchived(s, l, id, v) ensures k == l {
      assert ArchivedRight(s, k) && ArchivedRight(s, l);
    }
  }

  /** At most one update commits per version of an item, and it carries the data of the request that names the version before. */
  lemma OneCommitPerVersion(s: State, a: TxId, b: TxId)
    requires Reachable(s)
    requires a in s.txs && s.txs[a].phase.Committed? && b in s.txs && s.txs[b].phase.Committed?
    requires s.txs[a].req.item == s.txs[b].req.item && s.txs[a].phase.version == s.txs[b].phase.version
    ensures a == b
    ensures s.txs[a].phase.version == s.txs[a].req.version + 1
    ensures var id, v := s.txs[a].req.item, s.txs[a].phase.version;
            id in s.log && 1 <= v <= |s.log[id]| && s.log[id][v - 1].data == s.txs[a].req.data
  {
    hide Reachable, TxsSound, TimesOrdered, OneLock, AllArchived, HistoryRight, RowsCurrent;
    ReachableInv(s);
    assert WroteIts(s, a) && WroteIts(s, b);
    assert EntryBy(s, s.txs[a].req.item, s.txs[a].phase.version - 1);
  }

  /** A transaction that did not commit leaves nothing in the history. */
  lemma NoTrace(s: State, tx: TxId)
    requires Reachable(s) && tx in s.txs && !s.txs[tx].phase.Committed?
    ensures tx !in s.history
  {
    hide Reachable;
    ReachableInv(s);
    assert TxSound(s, tx);
  }

  /** Listing by created_at never puts an older version of an item before a newer one, unless the times are equal. */
  lemma HistoryInOrder(s: State, k: TxId, l: TxId)
    requires Reachable(s) && k in s.history && l in s.history && s.history[k].item == s.history[l].item
    requires s.history[k].version < s.history[l].version
    ensures s.history[k].createdAt <= s.history[l].createdAt
  {
    hide Reachable, TxsSound, OneLock, AllArchived, RowsCurrent;
    ReachableInv(s);
    assert ArchivedRight(s, k) && ArchivedRight(s, l);
    var id, u, v := s.history[k].item, s.history[k].version, s.history[l].version;
    assert EntryBy(s, id, u) && EntryBy(s, id, v);
    assert s.log[id][u].at <= s.log[id][v - 1].at;
  }

  /** An entry once committed stays, whatever else happens: the log only grows. */
  lemma {:induction false} LogGrows(s: State, run: seq<Event>, id: ItemId)
    requires Possible(s, run) && id in s.log
    ensures id in After(s, run).log && s.log[id] <= After(s, run).log[id]
    decreases |run|
  {
    if run != [] {
      var s' := Apply(s, run[0]);
      assert id in s'.log && s.log[id] <= s'.log[id];
      LogGrows(s', run[1..], id);
    }
  }

  /** A row is still current, or has its copy in the history. */
  ghost predicate StillThere(was: Row, id: ItemId, s: State)
    requires id in s.items
  {
    if was.version == s.items[id].version then was.data == s.items[id].data && was.updatedBy == s.items[id].updatedBy
    else
      && was.version < s.items[id].version
      && exists k :: IsArchived(s, k, id, was.version) && s.history[k].data == was.data && s.history[k].changedBy == was.updatedBy
  }

  /** No committed ciphertext is ever lost: later it is still the current one, or in the history under its version. */
  lemma {:induction false} NothingLost(s: State, run: seq<Event>, id: ItemId)
    requires Reachable(s) && Possible(s, run) && Honest(s, run) && id in s.items && id in After(s, run).items
    ensures StillThere(s.items[id], id, After(s, run))
  {
    hide Inv, Reachable, Enabled, Apply;
    var later := After(s, run);
    ReachableInv(s);
    RunsKeep(s, run);
    InvRows(s, id);
    InvRows(later, id);
    LogGrows(s, run, id);
    if s.items[id].version < later.items[id].version {
      InvRecoverable(later, id, s.items[id].version);
    }
  }

  lemma InvRows(s: State, id: ItemId)
    requires Inv(s) && id in s.items
    ensures id in s.log && s.items[id].version == |s.log[id]| > 0
    ensures s.items[id].data == s.log[id][|s.log[id]| - 1].data
    ensures s.items[id].updatedBy == s.log[id][|s.log[id]| - 1].author
  {
  }

  lemma InvRecoverable(s: State, id: ItemId, v: nat)
    requires Inv(s) && id in s.items && id in s.log && 1 <= v < |s.log[id]|
    ensures Recoverable(s, id, v)
  {
    hide WritersKnown, TxsSound, TimesOrdered, OneLock;
    assert VersionArchived(s, id, v);
    var k := s.log[id][v].writer.value;
    assert ArchivedRight(s, k);
    assert IsArchived(s, k, id, v);
  }

  // ---- A version that no one has read yet ----

  /** Every version but the last of every item can be recovered. */
  ghost predicate Lossless(s: State) {
    forall id, v :: id in s.items && id in s.log && 1 <= v < |s.log[id]| ==> Recoverable(s, id, v)
  }

  lemma InvLossless(s: State)
    requires Inv(s)
    ensures Lossless(s)
  {
    hide Inv, Recoverable;
    forall id, v | id in s.items && id in s.log && 1 <= v < |s.log[id]| ensures Recoverable(s, id, v) {
      InvRecoverable(s, id, v);
    }
  }

  lemma {:induction false} Prepend(s: State, e: Event, run: seq<Event>)
    requires Next(s, e) && Possible(Apply(s, e), run) && Honest(Apply(s, e), run)
    ensures Possible(s, [e] + run) && Honest(s, [e] + run) && After(s, [e] + run) == After(Apply(s, e), run)
  {
    assert ([e] + run)[1..] == run;
  }

  lemma {:induction false} Append(s: State, run: seq<Event>, more: seq<Event>)
    requires Possible(s, run) && Honest(s, run) && Possible(After(s, run), more) && Honest(After(s, run), more)
    ensures Possible(s, run + more) && Honest(s, run + more) && After(s, run + more) == After(After(s, run), more)
    decreases |run|
  {
    hide Enabled, Apply;
    if run == [] {
      assert run + more == more;
    } else {
      Append(Apply(s, run[0]), run[1..], more);
      assert (run + more)[1..] == run[1..] + more;
    }
  }

  /** The statements of Update, run to the end. */
  function Statements(tx: TxId, req: Request, at: nat): seq<Event> {
    [Begin(tx, req, at), Snapshot(tx), ConditionalUpdate(tx), Commit(tx)]
  }

  /** The state after an uninterrupted Update of the current version. */
  function Bumped(s: State, tx: TxId, req: Request, at: nat): State
    requires req.item in s.items
  {
    var row := s.items[req.item];
    State(
      s.items[req.item := Row(row.vault, req.data, row.version + 1, req.author)],
      s.history[tx := Archived(req.item, row.data, row.version, row.updatedBy, at)],
      s.txs[tx := Tx(req, at, Phase.Committed(row.version + 1))],
      at,
      s.log[req.item := LogOf(s, req.item) + [Entry(req.data, req.author, Some(tx), at)]])
  }

  lemma {:induction false} Uninterrupted(s: State, tx: TxId, req: Request, at: nat)
    requires Enabled(s, Begin(tx, req, at)) && !Locked(s, req.item, tx)
    requires req.item in s.items && s.items[req.item].version == req.version
    ensures Possible(s, Statements(tx, req, at)) && Honest(s, Statements(tx, req, at))
    ensures After(s, Statements(tx, req, at)) == Bumped(s, tx, req, at)
  {
    var e0, e1, e2, e3 := Begin(tx, req, at), Snapshot(tx), ConditionalUpdate(tx), Commit(tx);
    var s1 := Apply(s, e0);
    var s2 := Apply(s1, e1);
    assert !Locked(s2, req.item, tx);
    var s3 := Apply(s2, e2);
    var s4 := Apply(s3, e3);
    assert s4.txs == Bumped(s, tx, req, at).txs;
    Prepend(s3, e3, []);
    Prepend(s2, e2, [e3]);
    Prepend(s1, e1, [e2, e3]);
    Prepend(s, e0, [e1, e2, e3]);
  }

  /** Every transaction number below n, and nothing else, may be in use. */
  predicate Below(s: State, n: TxId) {
    forall t :: t in s.txs ==> t < n
  }

  lemma {:induction false} SomeBound(keys: set<TxId>) returns (n: TxId)
    ensures forall t :: t in keys ==> t < n
  {
    n := 0;
    if keys != {} {
      var t :| t in keys;
      var m := SomeBound(keys - {t});
      n := if t < m then m else t + 1;
      assert forall u :: u in keys ==> u == t || u in keys - {t};
    }
  }

  /** All history rows of an item are older than version v. */
  predicate HistoryBelow(s: State, id: ItemId, v: nat) {
    forall k :: k in s.history && s.history[k].item == id ==> s.history[k].version < v
  }

  predicate NoHolder(s: State, id: ItemId) {
    forall t :: t in s.txs && s.txs[t].phase.Updated? ==> s.txs[t].req.item != id
  }

  /** n honest updates of one item, one after the other. */
  lemma {:induction false} Updates(s: State, id: ItemId, w: TxId, n: nat) returns (run: seq<Event>)
    requires id in s.items && id in s.log && Below(s, w) && NoHolder(s, id) && HistoryBelow(s, id, s.items[id].version)
    requires |s.log[id]| == s.items[id].version
    ensures Possible(s, run) && Honest(s, run)
    ensures var t := After(s, run);
            && id in t.items && id in t.log && |t.log[id]| == t.items[id].version == s.items[id].version + n
            && HistoryBelow(t, id, t.items[id].version) && NoHolder(t, id)
            && forall x :: x in s.txs ==> x in t.txs && t.txs[x] == s.txs[x]
    decreases n
  {
    hide Enabled, Apply;
    if n == 0 {
      run := [];
    } else {
      var req := Request(id, "", s.items[id].version, None);
      assert Enabled(s, Begin(w, req, s.now)) by { MayBegin(s, w, req); }
      Uninterrupted(s, w, req, s.now);
      var s' := Bumped(s, w, req, s.now);
      var more := Updates(s', id, w + 1, n - 1);
      run := Statements(w, req, s.now) + more;
      Append(s, Statements(w, req, s.now), more);
    }
  }

  lemma MayBegin(s: State, w: TxId, req: Request)
    requires Below(s, w) && req.item in s.log
    ensures Enabled(s, Begin(w, req, s.now))
  {
  }

  lemma InvHistoryBelow(s: State, id: ItemId)
    requires Inv(s) && id in s.items
    ensures HistoryBelow(s, id, s.items[id].version) && OneLock(s)
  {
    InvRows(s, id);
    forall k | k in s.history && s.history[k].item == id ensures s.history[k].version < s.items[id].version {
      assert ArchivedRight(s, k);
    }
  }

  /** If another transaction holds the lock of the row, it fails. */
  lemma Unlock(s: State, id: ItemId, tx: TxId) returns (run: seq<Event>)
    requires OneLock(s) && tx in s.txs && s.txs[tx].phase.Begun?
    ensures Possible(s, run) && Honest(s, run)
    ensures var t := After(s, run);
            t.items == s.items && t.history == s.history && t.log == s.log && NoHolder(t, id) && tx in t.txs && t.txs[tx] == s.txs[tx]
  {
    if h :| HoldsLock(s, h) && s.txs[h].req.item == id {
      run := [Fail(h)];
      Prepend(s, Fail(h), []);
      var t := Apply(s, Fail(h));
      forall x | x in t.txs && t.txs[x].phase.Updated? ensures t.txs[x].req.item != id {
        assert HoldsLock(s, x);
      }
    } else {
      run := [];
      forall x | x in s.txs && s.txs[x].phase.Updated? ensures s.txs[x].req.item != id {
        assert HoldsLock(s, x);
      }
    }
  }

  /** A transaction with an outdated copy, whose version has become current. */
  lemma {:induction false} FinishLate(s: State, tx: TxId, id: ItemId)
    requires tx in s.txs && s.txs[tx].req.item == id && s.txs[tx].phase.Snapshotted? && NoHolder(s, id)
    requires id in s.items && id in s.log && |s.log[id]| == s.items[id].version == s.txs[tx].req.version > 0
    requires s.txs[tx].phase.copy.Some? ==> s.txs[tx].phase.copy.value.version < s.items[id].version
    requires HistoryBelow(s, id, s.items[id].version)
    ensures var run := [ConditionalUpdate(tx), Commit(tx)];
            Possible(s, run) && Honest(s, run) && !Lossless(After(s, run))
  {
    var s1 := Apply(s, ConditionalUpdate(tx));
    var s2 := Apply(s1, Commit(tx));
    Prepend(s1, Commit(tx), []);
    Prepend(s, ConditionalUpdate(tx), [Commit(tx)]);
    assert HistoryBelow(s2, id, s.items[id].version);
    assert !Recoverable(s2, id, s.items[id].version);
  }

  /**
   * A request for a version that is not committed yet, and runs until that version is current: transaction tx
   * takes its copy now, others bring the item to the version it names, and then its update succeeds. The
   * ciphertext of that version is overwritten and archived nowhere.
   */
  lemma FutureVersionLoses(s: State, tx: TxId, req: Request, at: nat) returns (run: seq<Event>)
    requires Inv(s) && Enabled(s, Begin(tx, req, at)) && req.item in s.items && req.version > s.items[req.item].version
    ensures var s' := Apply(s, Begin(tx, req, at));
            Possible(s', run) && Honest(s', run) && !Lossless(After(s', run))
  {
    hide Inv, Next, Lossless;
    var id := req.item;
    InvRows(s, id);
    InvHistoryBelow(s, id);
    var s1 := Apply(s, Begin(tx, req, at));
    LocksKept(s, Begin(tx, req, at));
    var unlock := Unlock(s1, id, tx);
    var s2 := After(s1, unlock);
    var s3 := Apply(s2, Snapshot(tx));
    var w := SomeBound(s3.txs.Keys);
    var more := Updates(s3, id, w, req.version - s.items[id].version);
    var s4 := After(s3, more);
    FinishLate(s4, tx, id);
    run := unlock + ([Snapshot(tx)] + (more + [ConditionalUpdate(tx), Commit(tx)]));
    Append(s3, more, [ConditionalUpdate(tx), Commit(tx)]);
    Prepend(s2, Snapshot(tx), more + [ConditionalUpdate(tx), Commit(tx)]);
    Append(s1, unlock, [Snapshot(tx)] + (more + [ConditionalUpdate(tx), Commit(tx)]));
  }

  /**
   * The exact condition: a request to a present item is harmless under every continuation in which the others are
   * honest, if and only if its version was committed when its transaction began.
   */
  lemma SafeIffReadBefore(s: State, tx: TxId, req: Request, at: nat)
    requires Inv(s) && Enabled(s, Begin(tx, req, at)) && req.item in s.items
    ensures ReadBefore(s, req) <==>
            (forall run :: Possible(Apply(s, Begin(tx, req, at)), run) && Honest(Apply(s, Begin(tx, req, at)), run)
                ==> Lossless(After(Apply(s, Begin(tx, req, at)), run)))
  {
    hide Inv, Lossless, Enabled, Apply;
    var s' := Apply(s, Begin(tx, req, at));
    if ReadBefore(s, req) {
      StepKeeps(s, Begin(tx, req, at));
      forall run | Possible(s', run) && Honest(s', run) ensures Lossless(After(s', run)) {
        RunsKeep(s', run);
        InvLossless(After(s', run));
      }
    } else {
      var run := FutureVersionLoses(s, tx, req, at);
    }
  }

  // ---- The repository and the service, one call at a time ----

  datatype Outcome = Ok | VersionConflict | ItemNotFound

  /** models.Item */
  class Item {
    var id: ItemId
    var vault: nat
    var data: Cipher
    var version: int
    var updatedBy: Option<User>

    constructor (id: ItemId, row: Row)
      ensures this.id == id && vault == row.vault && data == row.data && version == row.version && updatedBy == row.updatedBy
    {
      this.id, vault, data, version, updatedBy := id, row.vault, row.data, row.version, row.updatedBy;
    }

    function AsRequest(): Request
      reads this
    {
      Request(id, data, version, updatedBy)
    }
  }

  class ItemRepository {
    var db: State

    constructor ()
      ensures Inv(db)
    {
      db := Empty();
      new;
      EmptyInv();
    }

    method Create(item: Item)
      requires Inv(db) && item.id !in db.log
      modifies this, item
      ensures Inv(db)
      ensures db.items == old(db.items)[item.id := Row(item.vault, item.data, 1, item.updatedBy)] && db.history == old(db.history)
      ensures item.version == 1 && item.AsRequest() == old(item.AsRequest()).(version := 1)
    {
      StepKeeps(db, Event.Create(item.id, item.vault, item.data, item.updatedBy));
      db := Apply(db, Event.Create(item.id, item.vault, item.data, item.updatedBy));
      item.version := db.items[item.id].version;
    }

    /** Snapshot, conditional update, commit; a conflict rolls back. Nobody else runs in between. */
    method Update(item: Item, tx: TxId, at: nat) returns (r: Outcome)
      requires Inv(db) && Enabled(db, Begin(tx, item.AsRequest(), at)) && !Locked(db, item.id, tx)
      modifies this, item
      ensures Inv(db)
      ensures r == if Current(old(db), old(item.AsRequest())) then Ok else VersionConflict
      ensures r.Ok? ==> db == Bumped(old(db), tx, old(item.AsRequest()), at) && item.version == old(item.version) + 1
      ensures !r.Ok? ==> db.items == old(db.items) && db.history == old(db.history) && item.version == old(item.version)
      ensures item.AsRequest() == old(item.AsRequest()).(version := item.version)
    {
      hide Inv;
      ghost var before, req := db, item.AsRequest();
      Finished(db, tx, req, at);
      db := Apply(db, Begin(tx, item.AsRequest(), at));
      db := Apply(db, Snapshot(tx));
      db := Apply(db, ConditionalUpdate(tx));
      if db.txs[tx].phase == Conflict {
        return VersionConflict;
      }
      db := Apply(db, Commit(tx));
      item.version := db.txs[tx].phase.version;
      r := Ok;
    }
  }

  class ItemService {
    const repo: ItemRepository

    constructor (repo: ItemRepository)
      ensures this.repo == repo
    {
      this.repo := repo;
    }

    /** Reads the item, overwrites its version with the one of the request and hands it to the repository. */
    method Update(user: User, vault: nat, id: ItemId, data: Cipher, version: int, tx: TxId, at: nat) returns (r: Outcome, item: Item?)
      requires Inv(repo.db) && tx !in repo.db.txs && at >= repo.db.now && !Locked(repo.db, id, tx)
      modifies repo
      ensures Inv(repo.db)
      ensures r.ItemNotFound? <==> id !in old(repo.db.items) || old(repo.db.items)[id].vault != vault
      ensures r.Ok? <==> Current(old(repo.db), Request(id, data, version, Some(user))) && old(repo.db.items)[id].vault == vault
      ensures r.Ok? ==> repo.db == Bumped(old(repo.db), tx, Request(id, data, version, Some(user)), at)
      ensures r.Ok? ==> item != null && item.AsRequest() == Request(id, data, version + 1, Some(user))
      ensures !r.Ok? ==> repo.db.items == old(repo.db.items) && repo.db.history == old(repo.db.history)
    {
      hide Inv, Bumped, Locked;
      item := null;
      if id !in repo.db.items || repo.db.items[id].vault != vault {
        return ItemNotFound, item;
      }
      InvRows(repo.db, id);
      item := new Item(id, repo.db.items[id]);
      item.data, item.version, item.updatedBy := data, version, Some(user);
      r := repo.Update(item, tx, at);
    }
  }

  /** The row an update names is there at the version it names. */
  predicate Current(s: State, req: Request) {
    req.item in s.items && s.items[req.item].version == req.version
  }

  /** What the first three statements come to, and the fourth when there is no conflict. */
  lemma Finished(s: State, tx: TxId, req: Request, at: nat)
    requires Inv(s) && Enabled(s, Begin(tx, req, at)) && !Locked(s, req.item, tx)
    ensures var t := Apply(Apply(s, Begin(tx, req, at)), Snapshot(tx));
            && Enabled(t, ConditionalUpdate(tx))
            && var u := Apply(t, ConditionalUpdate(tx));
               && u.items == s.items && u.history == s.history
               && u.txs[tx].phase.Conflict? == !Current(s, req)
               && (u.txs[tx].phase.Conflict? ==> Inv(u))
               && (!u.txs[tx].phase.Conflict? ==> Enabled(u, Commit(tx)) && Apply(u, Commit(tx)) == Bumped(s, tx, req, at) && Inv(Bumped(s, tx, req, at)))
  {
    hide Inv;
    var s1 := Apply(s, Begin(tx, req, at));
    var s2 := Apply(s1, Snapshot(tx));
    assert !Locked(s2, req.item, tx);
    var s3 := Apply(s2, ConditionalUpdate(tx));
    if Current(s, req) {
      Uninterrupted(s, tx, req, at);
      RunsKeep(s, Statements(tx, req, at));
      assert Apply(s3, Commit(tx)).txs == Bumped(s, tx, req, at).txs;
    } else {
      assert s3 == s.(txs := s.txs[tx := Tx(req, at, Conflict)], now := at);
      ConflictKeeps(s, tx, req, at);
    }
  }

  lemma ConflictKeeps(s: State, tx: TxId, req: Request, at: nat)
    requires Inv(s) && Enabled(s, Begin(tx, req, at))
    ensures Inv(s.(txs := s.txs[tx := Tx(req, at, Conflict)], now := at))
  {
    hide Inv;
    var zero := req.(version := 0);
    var s1 := Apply(s, Begin(tx, zero, at));
    ZeroIsRead(s, req);
    StepKeeps(s, Begin(tx, zero, at));
    StepKeeps(s1, Fail(tx));
    var s2 := Apply(s1, Fail(tx));
    OverTables(s2, tx, req, at);
    OverWriters(s2, tx, req, at);
    OverTxs(s2, tx, req, at);
    assert s2.(txs := s2.txs[tx := Tx(req, at, Conflict)]) == s.(txs := s.txs[tx := Tx(req, at, Conflict)], now := at);
    Assemble(s2.(txs := s2.txs[tx := Tx(req, at, Conflict)]));
  }

  lemma Assemble(s: State)
    requires RowsCurrent(s) && HistoryRight(s) && AllArchived(s) && WritersKnown(s) && TxsSound(s) && OneLock(s) && TimesOrdered(s)
    ensures Inv(s)
  {
  }

  lemma ZeroIsRead(s: State, req: Request)
    requires Inv(s)
    ensures ReadBefore(s, req.(version := 0))
  {
  }

  /** Only the version asked for by a transaction that is over, and how it ended, differ. */
  lemma OverTables(s: State, tx: TxId, req: Request, at: nat)
    requires Inv(s) && tx in s.txs && s.txs[tx] == Tx(req.(version := 0), at, RolledBack)
    ensures var t := s.(txs := s.txs[tx := Tx(req, at, Conflict)]);
            RowsCurrent(t) && TimesOrdered(t) && AllArchived(t) && OneLock(t)
  {
    hide HistoryRight, WritersKnown, TxsSound;
    var t := s.(txs := s.txs[tx := Tx(req, at, Conflict)]);
    forall id, v | id in t.items && id in t.log && 1 <= v < |t.log[id]| ensures VersionArchived(t, id, v) {
      assert VersionArchived(s, id, v);
    }
    forall a, b | HoldsLock(t, a) && HoldsLock(t, b) && t.txs[a].req.item == t.txs[b].req.item ensures a == b {
      assert HoldsLock(s, a) && HoldsLock(s, b);
    }
  }

  lemma OverWriters(s: State, tx: TxId, req: Request, at: nat)
    requires Inv(s) && tx in s.txs && s.txs[tx] == Tx(req.(version := 0), at, RolledBack)
    ensures WritersKnown(s.(txs := s.txs[tx := Tx(req, at, Conflict)]))
  {
    hide RowsCurrent, HistoryRight, AllArchived, TxsSound, OneLock, TimesOrdered;
    var t := s.(txs := s.txs[tx := Tx(req, at, Conflict)]);
    forall x | x in t.txs && t.txs[x].phase.Committed? ensures WroteIts(t, x) {
      assert WroteIts(s, x);
    }
    forall id, v | id in t.log && 0 <= v < |t.log[id]| && t.log[id][v].writer.Some? ensures EntryBy(t, id, v) {
      assert EntryBy(s, id, v);
    }
  }

  lemma OverTxs(s: State, tx: TxId, req: Request, at: nat)
    requires Inv(s) && tx in s.txs && s.txs[tx] == Tx(req.(version := 0), at, RolledBack)
    ensures var t := s.(txs := s.txs[tx := Tx(req, at, Conflict)]);
            HistoryRight(t) && TxsSound(t)
  {
    hide RowsCurrent, WritersKnown, AllArchived, OneLock, TimesOrdered;
    var t := s.(txs := s.txs[tx := Tx(req, at, Conflict)]);
    forall k | k in t.history ensures ArchivedRight(t, k) {
      assert ArchivedRight(s, k);
    }
    forall x | x in t.txs ensures TxSound(t, x) {
      assert TxSound(s, x);
    }
  }
}
