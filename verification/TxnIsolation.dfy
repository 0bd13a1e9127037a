/**
 * Snapshot isolation in txn_kv (src/txn_kv/manager.rs) as a machine over what is in memory: what
 * every step keeps, and what a transaction sees over its whole life.
 */
module TxnIsolation {
  import opened Bytes
  import opened Params
  import opened TxnCodec
  import opened TxnStore
  import opened TxnState

  /** What a transaction sees: its own writes over a store as of its read timestamp. */
  function View(store: Store, txn: Txn, k: Key): Option<Value> {
    if k in txn.writes then txn.writes[k] else ValueAt(VersionsOf(store, k), txn.readTs)
  }

  /** `snaps` is the store each transaction began with, `windows` the commits begun but unpublished then. */
  datatype Mem = Mem(store: Store, commitTs: nat, pending: Option<Pending>, txns: map<nat, Txn>, nextId: nat,
                     snaps: map<nat, Store>, windows: map<nat, Window>, done: seq<Committed>)

  // No version is after this while a commit holds the newest timestamp unpublished.
  ghost function Bound(commitTs: nat, pending: Option<Pending>): nat {
    if pending.Some? && commitTs >= 1 then commitTs - 1 else commitTs
  }

  ghost predicate Isolated(m: Mem) {
    && StoreOk(m.store, Bound(m.commitTs, m.pending))
    && TxnsOk(m.txns, m.snaps, m.windows, m.store, m.commitTs, m.pending)
    && DoneOk(m.done, m.store, Bound(m.commitTs, m.pending))
    && (m.pending.Some? ==> PendingOk(m.pending.value, m.store, m.commitTs))
    && (forall id :: id in m.txns ==> id < m.nextId)
    && KeysFit(m.store) && m.commitTs < U64_LIMIT
  }

  lemma PendingTs(m: Mem)
    requires Isolated(m)
    ensures m.pending.Some? ==> PendingOk(m.pending.value, m.store, m.commitTs) && m.pending.value.ts == m.commitTs >= 1
    ensures TxnsOk(m.txns, m.snaps, m.windows, m.store, m.commitTs, m.pending)
    ensures forall id :: id in m.txns ==> id < m.nextId
  {
    hide StoreOk, TxnsOk, DoneOk, RecordFits, Writes, Distinct;
  }

  lemma OpenTxn(m: Mem, id: nat)
    requires Isolated(m) && id in m.txns
    ensures id < m.nextId && id in m.snaps
    ensures TxnOk(m.txns[id], m.snaps[id], Lookup(m.windows, id), m.store, m.commitTs, m.pending)
  {
    hide StoreOk, TxnOk, DoneOk, PendingOk, KeysFit;
  }

  lemma IsolatedTs(m: Mem)
    requires Isolated(m)
    ensures m.commitTs < U64_LIMIT
  {
    hide StoreOk, DoneOk, TxnsOk, PendingOk;
  }

  lemma FreshIsolation(store: Store, commitTs: nat, nextId: nat)
    requires StoreOk(store, commitTs) && KeysFit(store) && commitTs < U64_LIMIT
    ensures Isolated(Mem(store, commitTs, None, map[], nextId, map[], map[], []))
  {
    hide StoreOk, KeysFit;
  }

  // ---- Steps ----

  ghost function AfterBegin(m: Mem, readOnly: bool): Mem {
    m.(txns := m.txns[m.nextId := Txn(m.commitTs, map[], readOnly)], nextId := m.nextId + 1,
       snaps := m.snaps[m.nextId := m.store], windows := Opened(m.windows, m.nextId, m.pending))
  }

  ghost function Opened(windows: map<nat, Window>, id: nat, pending: Option<Pending>): map<nat, Window> {
    match pending
    case Some(p) => windows[id := Window(Commit(p.ts, p.ops), false)]
    case None => windows - {id}
  }

  ghost function AfterWrite(m: Mem, id: nat, k: Key, v: Option<Value>): Mem
    requires id in m.txns
  {
    m.(txns := m.txns[id := m.txns[id].(writes := m.txns[id].writes[k := v])])
  }

  ghost function AfterEnd(m: Mem, id: nat): Mem {
    m.(txns := m.txns - {id})
  }

  /** Some written key has a version after the read timestamp. */
  ghost predicate Conflicting(store: Store, writes: WriteSet, readTs: nat) {
    exists k :: k in writes && k in store && store[k] != [] && store[k][|store[k]| - 1].ts > readTs
  }

  ghost predicate CanStart(m: Mem, id: nat, p: Pending) {
    && id in m.txns && m.pending == None && m.commitTs + 1 < U64_LIMIT && !p.logged
    && p.ts == m.commitTs + 1 && p.readTs == m.txns[id].readTs
    && Distinct(p.ops) && RecordFits(Commit(p.ts, p.ops)) && Writes(p.ops) == m.txns[id].writes
    && !Conflicting(m.store, Writes(p.ops), p.readTs)
  }

  ghost function AfterStart(m: Mem, id: nat, p: Pending): Mem {
    m.(txns := m.txns - {id}, commitTs := p.ts, pending := Some(p))
  }

  ghost function AfterAppend(m: Mem): Mem
    requires m.pending.Some?
  {
    m.(pending := Some(m.pending.value.(logged := true)))
  }

  ghost function AfterFail(m: Mem): Mem {
    m.(pending := None)
  }

  ghost function Published(windows: map<nat, Window>, c: Commit): map<nat, Window> {
    map id | id in windows :: if windows[id].commit == c then Window(c, true) else windows[id]
  }

  ghost function AfterPublish(m: Mem): Mem
    requires m.pending.Some?
  {
    var p := m.pending.value;
    m.(store := ApplyOps(m.store, p.ts, p.ops), pending := None, windows := Published(m.windows, Commit(p.ts, p.ops)),
       done := m.done + [Committed(p.readTs, p.ts, Writes(p.ops).Keys)])
  }

  /** One step of any transaction; reads, refused calls and checkpoints change nothing here. */
  ghost predicate Next(m: Mem, m2: Mem) {
    || m2 == m
    || (exists readOnly :: m2 == AfterBegin(m, readOnly))
    || (exists id, k, v :: id in m.txns && OpFits(Op(k, v)) && m2 == AfterWrite(m, id, k, v))
    || (exists id :: id in m.txns && m2 == AfterEnd(m, id))
    || (exists id, p :: CanStart(m, id, p) && m2 == AfterStart(m, id, p))
    || (m.pending.Some? && !m.pending.value.logged && (m2 == AfterAppend(m) || m2 == AfterFail(m)))
    || (m.pending.Some? && m.pending.value.logged && m2 == AfterPublish(m))
  }

  lemma EndIsNext(m: Mem, id: nat)
    requires id in m.txns
    ensures Next(m, AfterEnd(m, id))
  {
    hide AfterBegin, AfterWrite, AfterStart, AfterPublish, CanStart, OpFits;
  }

  lemma StartIsNext(m: Mem, id: nat, p: Pending)
    requires CanStart(m, id, p)
    ensures Next(m, AfterStart(m, id, p))
  {
    hide AfterBegin, AfterWrite, AfterEnd, AfterPublish, CanStart, OpFits;
  }

  // ---- Every step keeps isolation ----

  lemma BeginKeeps(m: Mem, readOnly: bool)
    requires Isolated(m)
    ensures Isolated(AfterBegin(m, readOnly)) && m.nextId !in m.txns
  {
    hide StoreOk, DoneOk, KeysFit, RecordFits, Writes, Distinct, ApplyOps;
    var m2 := AfterBegin(m, readOnly);
    forall id | id in m2.txns
      ensures TxnOk(m2.txns[id], m2.snaps[id], Lookup(m2.windows, id), m.store, m.commitTs, m.pending)
    {
      if id != m.nextId {
        assert TxnOk(m.txns[id], m.snaps[id], Lookup(m.windows, id), m.store, m.commitTs, m.pending);
      }
    }
  }

  lemma WriteKeeps(m: Mem, id: nat, k: Key, v: Option<Value>)
    requires Isolated(m) && id in m.txns && OpFits(Op(k, v))
    ensures Isolated(AfterWrite(m, id, k, v))
  {
    hide StoreOk, DoneOk, PendingOk, KeysFit, ApplyOps, Later;
    var m2 := AfterWrite(m, id, k, v);
    forall i | i in m2.txns ensures TxnOk(m2.txns[i], m.snaps[i], Lookup(m.windows, i), m.store, m.commitTs,
                                          m.pending) {
      assert TxnOk(m.txns[i], m.snaps[i], Lookup(m.windows, i), m.store, m.commitTs, m.pending);
    }
  }

  lemma EndKeeps(m: Mem, id: nat)
    requires Isolated(m) && id in m.txns
    ensures Isolated(AfterEnd(m, id))
    ensures m.txns[id].readTs <= m.commitTs && WritesFit(m.txns[id].writes)
  {
    hide StoreOk, DoneOk, PendingOk, KeysFit, Later;
    assert TxnOk(m.txns[id], m.snaps[id], Lookup(m.windows, id), m.store, m.commitTs, m.pending);
  }

  lemma NoConflict(p: Pending, store: Store, commitTs: nat)
    requires !Conflicting(store, Writes(p.ops), p.readTs)
    requires p.ts == commitTs && p.readTs < p.ts && Distinct(p.ops) && RecordFits(Commit(p.ts, p.ops))
    ensures PendingOk(p, store, commitTs)
  {
  }

  lemma StartKeeps(m: Mem, id: nat, p: Pending)
    requires Isolated(m) && CanStart(m, id, p)
    ensures Isolated(AfterStart(m, id, p))
  {
    hide StoreOk, DoneOk, PendingOk, KeysFit, Conflicting, RecordFits, Writes, Distinct, Later, ApplyOps;
    OpenTxn(m, id);
    NoConflict(p, m.store, m.commitTs + 1);
    var m2 := AfterStart(m, id, p);
    forall i | i in m2.txns ensures TxnOk(m2.txns[i], m.snaps[i], Lookup(m.windows, i), m.store, p.ts, Some(p)) {
      assert TxnOk(m.txns[i], m.snaps[i], Lookup(m.windows, i), m.store, m.commitTs, None);
    }
  }

  lemma LoggedTxns(m: Mem)
    requires Isolated(m) && m.pending.Some?
    ensures TxnsOk(m.txns, m.snaps, m.windows, m.store, m.commitTs, AfterAppend(m).pending)
    ensures TxnsOk(m.txns, m.snaps, m.windows, m.store, m.commitTs, None)
  {
    hide StoreOk, DoneOk, PendingOk, KeysFit, Later;
    forall id | id in m.txns
      ensures TxnOk(m.txns[id], m.snaps[id], Lookup(m.windows, id), m.store, m.commitTs, AfterAppend(m).pending)
      ensures TxnOk(m.txns[id], m.snaps[id], Lookup(m.windows, id), m.store, m.commitTs, None)
    {
      assert TxnOk(m.txns[id], m.snaps[id], Lookup(m.windows, id), m.store, m.commitTs, m.pending);
    }
  }

  lemma AppendKeeps(m: Mem)
    requires Isolated(m) && m.pending.Some?
    ensures Isolated(AfterAppend(m))
  {
    hide StoreOk, DoneOk, TxnsOk, RecordFits, Writes, Distinct;
    LoggedTxns(m);
  }

  lemma FailKeeps(m: Mem)
    requires Isolated(m) && m.pending.Some?
    ensures Isolated(AfterFail(m))
  {
    hide TxnsOk, PendingOk, Ascending, SerialWriters;
    PendingTs(m);
    LoggedTxns(m);
  }

  lemma {:induction false} LaterStill(snap: Store, store: Store, p: Pending, ts: nat)
    requires ts < p.ts && Distinct(p.ops)
    requires forall k :: Later(VersionsOf(snap, k), VersionsOf(store, k), ts)
    ensures forall k :: Later(VersionsOf(snap, k), VersionsOf(ApplyOps(store, p.ts, p.ops), k), ts)
  {
    hide ApplyOps, Distinct, Writes;
    forall k ensures Later(VersionsOf(snap, k), VersionsOf(ApplyOps(store, p.ts, p.ops), k), ts) {
      assert Later(VersionsOf(snap, k), VersionsOf(store, k), ts);
      ApplyOpsAt(store, p.ts, p.ops, k);
    }
  }

  /**
   * A transaction of the commit's window reads from the published store; for the others it is after
   * their timestamp.
   */
  lemma PublishTxn(m: Mem, id: nat)
    requires Isolated(m) && m.pending.Some? && id in m.txns
    ensures var m2 := AfterPublish(m);
            TxnOk(m.txns[id], m.snaps[id], Lookup(m2.windows, id), m2.store, m.commitTs, None)
  {
    hide Isolated, ApplyOps, Distinct, Writes, WritesFit, RecordFits;
    PendingTs(m);
    OpenTxn(m, id);
    var (p, txn, m2) := (m.pending.value, m.txns[id], AfterPublish(m));
    if txn.readTs < p.ts {
      assert Lookup(m2.windows, id) == Lookup(m.windows, id);
      LaterStill(Seen(m.snaps[id], Lookup(m.windows, id)), m.store, p, txn.readTs);
    }
  }

  lemma {:induction false} PublishDone(done: seq<Committed>, store: Store, p: Pending)
    requires p.ts >= 1 && DoneOk(done, store, p.ts - 1) && PendingOk(p, store, p.ts)
    ensures DoneOk(done + [Committed(p.readTs, p.ts, Writes(p.ops).Keys)], ApplyOps(store, p.ts, p.ops), p.ts)
  {
    hide ApplyOps, Writes, RecordFits;
    var store2: Store := ApplyOps(store, p.ts, p.ops);
    var (c, n) := (Committed(p.readTs, p.ts, Writes(p.ops).Keys), |done|);
    var done2 := done + [c];
    ApplyOpsKeys(store, p.ts, p.ops);
    forall i: int, k: Key | 0 <= i < |done2| && k in done2[i].keys
      ensures k in store2 && store2[k] != [] && store2[k][|store2[k]| - 1].ts >= done2[i].ts
    {
      ApplyOpsAt(store, p.ts, p.ops, k);
      assert store2[k] == VersionsOf(store2, k);
    }
    forall i | 0 <= i < n && done[i].keys * c.keys != {} ensures c.readTs >= done[i].ts {
      var k :| k in done[i].keys * c.keys;
      assert store[k][|store[k]| - 1].ts >= done[i].ts;
    }
  }

  lemma PublishKeeps(m: Mem)
    requires Isolated(m) && m.pending.Some?
    ensures Isolated(AfterPublish(m))
  {
    hide StoreOk, DoneOk, TxnOk, RecordFits, Writes, ApplyOps, KeysFit, Distinct;
    PendingTs(m);
    var (p, m2) := (m.pending.value, AfterPublish(m));
    forall id | id in m2.txns ensures TxnOk(m2.txns[id], m2.snaps[id], Lookup(m2.windows, id), m2.store, p.ts, None) {
      PublishTxn(m, id);
    }
    PublishDone(m.done, m.store, p);
    ApplyKeepsStore(m.store, p.ts - 1, Commit(p.ts, p.ops));
    FitsCommit(Commit(p.ts, p.ops));
    ApplyKeysFit(m.store, Commit(p.ts, p.ops));
  }

  lemma NextKeeps(m: Mem, m2: Mem)
    requires Isolated(m) && Next(m, m2)
    ensures Isolated(m2)
  {
    hide Isolated, AfterBegin, AfterWrite, AfterEnd, AfterStart, AfterAppend, AfterFail, AfterPublish, CanStart, OpFits;
    if m2 == m {
    } else if readOnly :| m2 == AfterBegin(m, readOnly) {
      BeginKeeps(m, readOnly);
    } else if id, k, v :| id in m.txns && OpFits(Op(k, v)) && m2 == AfterWrite(m, id, k, v) {
      WriteKeeps(m, id, k, v);
    } else if id :| id in m.txns && m2 == AfterEnd(m, id) {
      EndKeeps(m, id);
    } else if id, p :| CanStart(m, id, p) && m2 == AfterStart(m, id, p) {
      StartKeeps(m, id, p);
    } else if m2 == AfterAppend(m) {
      AppendKeeps(m);
    } else if m2 == AfterFail(m) {
      FailKeeps(m);
    } else {
      PublishKeeps(m);
    }
  }

  // ---- What a transaction sees ----

  ghost function SeenBy(m: Mem, id: nat): Store
    requires id in m.snaps
  {
    Seen(m.snaps[id], Lookup(m.windows, id))
  }

  /**
   * In every state, a transaction sees its own writes over the store it began with, or over that and
   * its window's commit.
   */
  lemma SnapshotReads(m: Mem, id: nat, k: Key)
    requires Isolated(m) && id in m.txns
    ensures id in m.snaps && View(m.store, m.txns[id], k) == View(SeenBy(m, id), m.txns[id], k)
  {
    hide Isolated, ValueAt, SeenBy;
    SeenValue(m, id, k);
  }

  lemma SeenValue(m: Mem, id: nat, k: Key)
    requires Isolated(m) && id in m.txns
    ensures id in m.snaps
    ensures ValueAt(VersionsOf(m.store, k), m.txns[id].readTs) ==
            ValueAt(VersionsOf(SeenBy(m, id), k), m.txns[id].readTs)
  {
    hide Isolated, Seen;
    OpenTxn(m, id);
    var (vs, vs2) := (VersionsOf(SeenBy(m, id), k), VersionsOf(m.store, k));
    assert Later(vs, vs2, m.txns[id].readTs);
    assert vs2 == vs + vs2[|vs|..];
    ValueAtStable(vs, vs2[|vs|..], m.txns[id].readTs);
  }

  // ---- What a commit overwrites ----

  /** The committed value of a key as the transaction saw it when it began. */
  ghost function BeganWith(m: Mem, id: nat, k: Key): Option<Value>
    requires id in m.txns && id in m.snaps
  {
    ValueAt(VersionsOf(m.snaps[id], k), m.txns[id].readTs)
  }

  /** The commit of the transaction's window was published since and wrote the key another value. */
  ghost predicate Slipped(m: Mem, id: nat, k: Key)
    requires id in m.txns && id in m.snaps
  {
    && id in m.windows && m.windows[id].published && k in Writes(m.windows[id].commit.ops)
    && Writes(m.windows[id].commit.ops)[k] != BeganWith(m, id, k)
  }

  lemma {:induction false} LatestRead(store: Store, writes: WriteSet, readTs: nat, k: Key)
    requires !Conflicting(store, writes, readTs) && k in writes
    ensures Latest(store, k) == ValueAt(VersionsOf(store, k), readTs)
  {
  }

  /**
   * When the conflict check lets a transaction overwrite a key, the value lost is the one it saw when
   * it began, if and only if no commit of its window slipped another one in between.
   */
  lemma OverwritesExactly(m: Mem, id: nat, k: Key)
    requires Isolated(m) && id in m.txns && k in m.txns[id].writes
    requires !Conflicting(m.store, m.txns[id].writes, m.txns[id].readTs)
    ensures id in m.snaps && (Latest(m.store, k) == BeganWith(m, id, k) <==> !Slipped(m, id, k))
  {
    hide Isolated, ApplyOps, Writes, Distinct, ValueAt, Conflicting, Latest, WritesFit, Later;
    OpenTxn(m, id);
    LatestRead(m.store, m.txns[id].writes, m.txns[id].readTs, k);
    SeenValue(m, id, k);
    if id in m.windows && m.windows[id].published {
      var c := m.windows[id].commit;
      SlippedValue(m.snaps[id], c, m.txns[id].readTs, k);
    }
  }

  lemma {:induction false} SlippedValue(snap: Store, c: Commit, ts: nat, k: Key)
    requires Distinct(c.ops) && c.ts == ts
    ensures ValueAt(VersionsOf(ApplyOps(snap, c.ts, c.ops), k), ts) ==
            if k in Writes(c.ops) then Writes(c.ops)[k] else ValueAt(VersionsOf(snap, k), ts)
  {
    hide ApplyOps, Writes, Distinct;
    WindowView(snap, Pending(0, 0, c.ts, c.ops, false), Txn(ts, map[], false), k);
  }

  /** What publishing a commit with the transaction's own read timestamp changes: the keys it wrote, no others. */
  lemma {:induction false} WindowView(store: Store, p: Pending, txn: Txn, k: Key)
    requires Distinct(p.ops) && txn.readTs == p.ts
    ensures View(ApplyOps(store, p.ts, p.ops), txn, k) ==
            if k !in txn.writes && k in Writes(p.ops) then Writes(p.ops)[k] else View(store, txn, k)
  {
    hide ApplyOps, Writes, Distinct;
    ApplyOpsAt(store, p.ts, p.ops, k);
    var vs := VersionsOf(store, k);
    assert k in Writes(p.ops) ==> (vs + [Version(p.ts, Writes(p.ops)[k])])[|vs|].ts <= txn.readTs;
    assert vs + [] == vs;
  }

  /** A commit with the transaction's read timestamp is still unpublished: the transaction began in its window. */
  predicate Exposed(m: Mem, id: nat) {
    id in m.txns && m.pending.Some? && m.pending.value.ts == m.txns[id].readTs
  }

  /** What a transaction may come to read from: `was`, or `was` and the commit of its window. */
  ghost predicate SeenNext(m: Mem, was: Store, now: Store, exposed: bool) {
    || now == was
    || (exposed && m.pending.Some? && now == ApplyOps(was, m.pending.value.ts, m.pending.value.ops))
  }

  /** How one step relates to a transaction that is open after it. */
  ghost predicate Carries(m: Mem, m2: Mem, id: nat) {
    && id in m.txns && id in m2.txns && id in m.snaps && id in m2.snaps && m2.nextId >= m.nextId
    && m2.txns[id].readTs == m.txns[id].readTs && m.txns[id].writes.Keys <= m2.txns[id].writes.Keys
    && SeenNext(m, SeenBy(m, id), SeenBy(m2, id), Exposed(m, id))
    && (Exposed(m2, id) ==>
          && Exposed(m, id) && SeenBy(m2, id) == SeenBy(m, id)
          && m2.pending.value.ops == m.pending.value.ops)
  }

  lemma PublishCarries(m: Mem, id: nat)
    requires Isolated(m) && id in m.txns && m.pending.Some?
    ensures Carries(m, AfterPublish(m), id)
  {
    hide Isolated, ApplyOps, Writes, Distinct, PendingOk, WritesFit, Later;
    PendingTs(m);
    OpenTxn(m, id);
    var (p, m2) := (m.pending.value, AfterPublish(m));
    if m.txns[id].readTs < p.ts {
      assert Lookup(m2.windows, id) == Lookup(m.windows, id);
    } else {
      assert m2.windows[id] == Window(Commit(p.ts, p.ops), true);
    }
  }

  lemma StartCarries(m: Mem, starter: nat, p: Pending, id: nat)
    requires Isolated(m) && CanStart(m, starter, p) && id in AfterStart(m, starter, p).txns
    ensures Carries(m, AfterStart(m, starter, p), id)
  {
    hide Isolated, ApplyOps, Writes, Distinct, PendingOk, WritesFit, Later, Conflicting, RecordFits, Seen;
    OpenTxn(m, id);
  }

  lemma PublishIds(m: Mem)
    requires m.pending.Some?
    ensures AfterPublish(m).txns == m.txns && AfterPublish(m).nextId == m.nextId
  {
  }

  /** Transaction ids are handed out once, so an old id that is open was open. */
  lemma OldIds(m: Mem, m2: Mem)
    requires Next(m, m2)
    ensures m2.nextId >= m.nextId && forall id :: id in m2.txns && id < m.nextId ==> id in m.txns
  {
    hide CanStart, OpFits, Opened, AfterPublish, AfterBegin, AfterWrite;
    if readOnly :| m2 == AfterBegin(m, readOnly) {
      BeginIds(m, readOnly);
    } else if i, k, v :| i in m.txns && OpFits(Op(k, v)) && m2 == AfterWrite(m, i, k, v) {
      WriteIds(m, i, k, v);
    } else if m.pending.Some? {
      PublishIds(m);
    }
  }

  lemma BeginIds(m: Mem, readOnly: bool)
    ensures AfterBegin(m, readOnly).nextId >= m.nextId
    ensures forall id :: id in AfterBegin(m, readOnly).txns && id < m.nextId ==> id in m.txns
  {
  }

  lemma WriteIds(m: Mem, i: nat, k: Key, v: Option<Value>)
    requires i in m.txns
    ensures AfterWrite(m, i, k, v).nextId == m.nextId && AfterWrite(m, i, k, v).txns.Keys == m.txns.Keys
  {
  }

  lemma BeginCarries(m: Mem, readOnly: bool, id: nat)
    requires id in m.txns && id in m.snaps && id < m.nextId
    ensures Carries(m, AfterBegin(m, readOnly), id)
  {
    hide Carries;
    QuietCarries(m, AfterBegin(m, readOnly), id);
  }

  lemma WriteCarries(m: Mem, i: nat, k: Key, v: Option<Value>, id: nat)
    requires i in m.txns && id in m.txns && id in m.snaps
    ensures Carries(m, AfterWrite(m, i, k, v), id)
  {
    hide Carries;
    QuietCarries(m, AfterWrite(m, i, k, v), id);
  }

  lemma NextCarries(m: Mem, m2: Mem, id: nat)
    requires Isolated(m) && Next(m, m2) && id in m2.txns && id < m.nextId
    ensures Carries(m, m2, id)
  {
    hide Isolated, CanStart, OpFits, Carries, AfterBegin, AfterWrite, AfterPublish, Lookup, TxnOk;
    OldIds(m, m2);
    OpenTxn(m, id);
    if m2 == m {
      QuietCarries(m, m2, id);
    } else if readOnly :| m2 == AfterBegin(m, readOnly) {
      BeginCarries(m, readOnly, id);
    } else if i, k, v :| i in m.txns && OpFits(Op(k, v)) && m2 == AfterWrite(m, i, k, v) {
      WriteCarries(m, i, k, v, id);
    } else if i :| i in m.txns && m2 == AfterEnd(m, i) {
      QuietCarries(m, m2, id);
    } else if i, p :| CanStart(m, i, p) && m2 == AfterStart(m, i, p) {
      StartCarries(m, i, p, id);
    } else if m.pending.value.logged {
      PublishCarries(m, id);
    } else {
      QuietCarries(m, m2, id);
    }
  }

  /** Steps that neither start nor publish a commit. */
  lemma QuietCarries(m: Mem, m2: Mem, id: nat)
    requires id in m.txns && id in m.snaps && id in m2.txns && m2.nextId >= m.nextId
    requires m2.txns[id].readTs == m.txns[id].readTs && m.txns[id].writes.Keys <= m2.txns[id].writes.Keys
    requires id in m2.snaps && m2.snaps[id] == m.snaps[id] && Lookup(m2.windows, id) == Lookup(m.windows, id)
    requires m2.pending.Some? ==> m.pending.Some? && m2.pending.value.ts == m.pending.value.ts
                                  && m2.pending.value.ops == m.pending.value.ops
    ensures Carries(m, m2, id)
  {
  }

  // ---- Whole runs ----

  ghost predicate Run(tr: seq<Mem>) {
    tr != [] && forall i :: 0 <= i < |tr| - 1 ==> Next(tr[i], tr[i + 1])
  }

  lemma {:induction false} RunIsolated(tr: seq<Mem>, j: nat)
    requires Run(tr) && Isolated(tr[0]) && j < |tr|
    ensures Isolated(tr[j]) && tr[j].nextId >= tr[0].nextId
    decreases j
  {
    hide Isolated, Next;
    if j > 0 {
      RunIsolated(tr, j - 1);
      assert Next(tr[j - 1], tr[j - 1 + 1]);
      NextKeeps(tr[j - 1], tr[j]);
      OldIds(tr[j - 1], tr[j]);
    }
  }

  /** A transaction open at two moments of a run was open in between, and carries what it sees along. */
  lemma {:induction false} RunCarries(tr: seq<Mem>, id: nat, j: nat)
    requires Run(tr) && Isolated(tr[0]) && id in tr[0].txns && j < |tr| && id in tr[j].txns
    ensures Carries(tr[0], tr[j], id)
    decreases j
  {
    hide Isolated, Next, Carries;
    OpenTxn(tr[0], id);
    if j == 0 {
      QuietCarries(tr[0], tr[0], id);
    } else {
      RunIsolated(tr, j - 1);
      assert Next(tr[j - 1], tr[j - 1 + 1]);
      NextCarries(tr[j - 1], tr[j], id);
      OpenBefore(tr[j - 1], tr[j], id);
      RunCarries(tr, id, j - 1);
      CarriesOn(tr[0], tr[j - 1], tr[j], id);
    }
  }

  lemma OpenBefore(m: Mem, m2: Mem, id: nat)
    requires Carries(m, m2, id)
    ensures id in m.txns
  {
  }

  lemma CarriesOn(a: Mem, b: Mem, c: Mem, id: nat)
    requires Carries(a, b, id) && Carries(b, c, id)
    ensures Carries(a, c, id)
  {
    hide Seen, ApplyOps;
  }

  /**
   * Known before the first read, from what is in memory: no commit has the transaction's read
   * timestamp unpublished, or it writes nothing the transaction would see change.
   */
  ghost predicate Repeatable(m: Mem, id: nat)
    requires id in m.txns
  {
    Exposed(m, id) ==>
      forall k :: k in Writes(m.pending.value.ops) && k !in m.txns[id].writes ==>
        Writes(m.pending.value.ops)[k] == View(m.store, m.txns[id], k)
  }

  /** Every read the transaction makes later in a run, of a key it has not written, gives what it would give now. */
  ghost predicate ReadsRepeat(m: Mem, id: nat)
    requires id in m.txns
  {
    forall tr: seq<Mem>, j: nat, k: Key ::
      Run(tr) && tr[0] == m && j < |tr| && id in tr[j].txns && k !in tr[j].txns[id].writes ==>
        View(tr[j].store, tr[j].txns[id], k) == View(m.store, m.txns[id], k)
  }

  lemma RepeatableRead(tr: seq<Mem>, id: nat, j: nat, k: Key)
    requires Run(tr) && Isolated(tr[0]) && id in tr[0].txns && Repeatable(tr[0], id)
    requires j < |tr| && id in tr[j].txns && k !in tr[j].txns[id].writes
    ensures View(tr[j].store, tr[j].txns[id], k) == View(tr[0].store, tr[0].txns[id], k)
  {
    hide Isolated, Run, Writes, ApplyOps, Seen, Distinct, RecordFits;
    var (m, m2) := (tr[0], tr[j]);
    RunIsolated(tr, j);
    RunCarries(tr, id, j);
    SnapshotReads(m, id, k);
    SnapshotReads(m2, id, k);
    if SeenBy(m2, id) != SeenBy(m, id) {
      PendingTs(m);
      WindowView(SeenBy(m, id), m.pending.value, m.txns[id], k);
    }
  }

  lemma PublishRun(m: Mem) returns (tr: seq<Mem>)
    requires m.pending.Some?
    ensures Run(tr) && tr[0] == m
    ensures var (p, end) := (m.pending.value, tr[|tr| - 1]);
            end.store == ApplyOps(m.store, p.ts, p.ops) && end.txns == m.txns
  {
    hide ApplyOps, Writes;
    if m.pending.value.logged {
      tr := [m, AfterPublish(m)];
    } else {
      tr := [m, AfterAppend(m), AfterPublish(AfterAppend(m))];
    }
  }

  /**
   * A transaction's reads repeat over the rest of its life, whatever all transactions do, if and
   * only if it is not exposed to an unpublished commit that changes what it sees.
   */
  lemma RepeatsExactly(m: Mem, id: nat)
    requires Isolated(m) && id in m.txns
    ensures ReadsRepeat(m, id) <==> Repeatable(m, id)
  {
    hide Isolated, Next, View, Writes, ApplyOps, Distinct, RecordFits;
    if Repeatable(m, id) {
      forall tr: seq<Mem>, j: nat, k: Key
        | Run(tr) && tr[0] == m && j < |tr| && id in tr[j].txns && k !in tr[j].txns[id].writes
        ensures View(tr[j].store, tr[j].txns[id], k) == View(m.store, m.txns[id], k)
      {
        RepeatableRead(tr, id, j, k);
      }
    } else {
      var p := m.pending.value;
      var k :| k in Writes(p.ops) && k !in m.txns[id].writes && Writes(p.ops)[k] != View(m.store, m.txns[id], k);
      PendingTs(m);
      var tr := PublishRun(m);
      WindowView(m.store, p, m.txns[id], k);
      var j: nat := |tr| - 1;
      assert View(tr[j].store, tr[j].txns[id], k) != View(m.store, m.txns[id], k);
    }
  }
}
