/** What the transaction manager of txn_kv keeps true between steps: snapshot isolation and a log that agrees. */
module TxnState {
  import opened Bytes
  import opened Params
  import opened TxnCodec
  import opened TxnStore
  import opened TxnSnapshot

  type WriteSet = map<Key, Option<Value>>

  datatype Txn = Txn(readTs: nat, writes: WriteSet, readOnly: bool)

  // A commit between its timestamp and its publication; `logged` once its record is in the log.
  datatype Pending = Pending(id: nat, readTs: nat, ts: nat, ops: seq<Op>, logged: bool)

  // A published commit.
  datatype Committed = Committed(readTs: nat, ts: nat, keys: set<Key>)

  // ---- Store ----

  ghost predicate StoreOk(store: Store, bound: nat) {
    forall k :: k in store ==>
      Ascending(store[k]) && store[k] != [] && (forall i :: 0 <= i < |store[k]| ==> store[k][i].ts <= bound)
  }

  ghost predicate KeysFit(store: Store) {
    forall k :: k in store ==> |k| == KEY_SIZE
  }

  ghost predicate WritesFit(writes: WriteSet) {
    forall k :: k in writes ==> OpFits(Op(k, writes[k]))
  }

  // ---- Isolation ----

  ghost predicate Later(vs: seq<Version>, vs2: seq<Version>, ts: nat) {
    vs <= vs2 && forall i :: |vs| <= i < |vs2| ==> vs2[i].ts > ts
  }

  // The commit a transaction began in the window of, and whether it has been published since.
  datatype Window = Window(commit: Commit, published: bool)

  ghost function Lookup(windows: map<nat, Window>, id: nat): Option<Window> {
    if id in windows then Some(windows[id]) else None
  }

  /** The store a transaction reads from: the one it began with, plus the commit of its window once published. */
  ghost function Seen(snap: Store, w: Option<Window>): Store {
    if w.Some? && w.value.published then ApplyOps(snap, w.value.commit.ts, w.value.commit.ops) else snap
  }

  ghost predicate InWindow(txn: Txn, snap: Store, w: Option<Window>, store: Store, p: Pending) {
    txn.readTs == p.ts && w == Some(Window(Commit(p.ts, p.ops), false)) && store == snap
  }

  /** Since the transaction began, the store it reads from has only gained versions after its read timestamp. */
  ghost predicate TxnOk(txn: Txn, snap: Store, w: Option<Window>, store: Store, commitTs: nat,
                        pending: Option<Pending>) {
    && txn.readTs <= commitTs && WritesFit(txn.writes)
    && (forall k :: Later(VersionsOf(Seen(snap, w), k), VersionsOf(store, k), txn.readTs))
    && (w.Some? ==> txn.readTs == w.value.commit.ts && Distinct(w.value.commit.ops))
    && (pending.Some? ==> txn.readTs < pending.value.ts || InWindow(txn, snap, w, store, pending.value))
  }

  ghost predicate TxnsOk(txns: map<nat, Txn>, snaps: map<nat, Store>, windows: map<nat, Window>, store: Store,
                         commitTs: nat, pending: Option<Pending>)
  {
    && txns.Keys <= snaps.Keys
    && (forall id :: id in txns ==> TxnOk(txns[id], snaps[id], Lookup(windows, id), store, commitTs, pending))
  }

  ghost predicate PendingOk(p: Pending, store: Store, commitTs: nat) {
    && p.ts == commitTs && p.readTs < p.ts && Distinct(p.ops) && RecordFits(Commit(p.ts, p.ops))
    && (forall k :: k in Writes(p.ops) && k in store && store[k] != [] ==> store[k][|store[k]| - 1].ts <= p.readTs)
  }

  // First committer wins: of two published writers of one key, the later's read timestamp is from the earlier's on.
  ghost predicate SerialWriters(done: seq<Committed>) {
    forall i, j :: 0 <= i < j < |done| ==>
      done[i].ts < done[j].ts && (done[i].keys * done[j].keys != {} ==> done[j].readTs >= done[i].ts)
  }

  ghost predicate DoneOk(done: seq<Committed>, store: Store, bound: nat) {
    && SerialWriters(done)
    && (forall i :: 0 <= i < |done| ==> done[i].ts <= bound)
    && (forall i, k :: 0 <= i < |done| && k in done[i].keys ==>
          k in store && store[k] != [] && store[k][|store[k]| - 1].ts >= done[i].ts)
  }

  // ---- Durability ----

  /** The snapshot file and the log hold `base` at `baseTs` and the commits `cs`. */
  ghost predicate DiskOk(crc: Checksum, snapshot: Option<seq<Byte>>, wal: seq<Byte>,
                         base: Store, baseTs: nat, cs: seq<Commit>)
  {
    && ChecksumFits(crc)
    && (snapshot == None ==> base == map[] && baseTs == 0)
    && (snapshot.Some? ==> ParseSnapshot(snapshot.value) == Ok((base, baseTs)))
    && wal == Log(crc, cs)
    && (forall i :: 0 <= i < |cs| ==> RecordFits(cs[i]) && Distinct(cs[i].ops))
  }

  ghost predicate SameLatest(a: Store, b: Store) {
    forall k :: Latest(a, k) == Latest(b, k)
  }

  ghost predicate CommitsOk(cs: seq<Commit>, bound: nat) {
    && (forall i, j :: 0 <= i < j < |cs| ==> cs[i].ts < cs[j].ts)
    && (forall i :: 0 <= i < |cs| ==> cs[i].ts <= bound)
  }

  lemma {:induction false} ApplyAllPush(store: Store, base: nat, cs: seq<Commit>, c: Commit)
    ensures ApplyAll(store, base, cs + [c]) ==
            if c.ts > base then ApplyOps(ApplyAll(store, base, cs), c.ts, c.ops) else ApplyAll(store, base, cs)
    ensures MaxTs(base, cs + [c]) ==
            if c.ts > base && c.ts > MaxTs(base, cs) then c.ts else MaxTs(base, cs)
  {
    assert (cs + [c])[..|cs|] == cs;
  }

  lemma {:induction false} ApplyNone(store: Store, base: nat, cs: seq<Commit>)
    requires forall i :: 0 <= i < |cs| ==> cs[i].ts <= base
    ensures ApplyAll(store, base, cs) == store && MaxTs(base, cs) == base
  {
    if cs != [] {
      ApplyNone(store, base, cs[..|cs| - 1]);
    }
  }

  lemma {:induction false} MaxTsBounded(base: nat, cs: seq<Commit>, bound: nat)
    requires base <= bound && forall i :: 0 <= i < |cs| ==> cs[i].ts <= bound
    ensures MaxTs(base, cs) <= bound
    ensures forall i :: 0 <= i < |cs| ==> cs[i].ts <= MaxTs(base, cs)
  {
    if cs != [] {
      MaxTsBounded(base, cs[..|cs| - 1], bound);
    }
  }

  /** Applying one commit to stores with the same latest values gives stores with the same latest values. */
  lemma {:induction false} ApplySameLatest(a: Store, b: Store, c: Commit)
    requires SameLatest(a, b) && Distinct(c.ops)
    ensures SameLatest(ApplyOps(a, c.ts, c.ops), ApplyOps(b, c.ts, c.ops))
  {
    forall k ensures Latest(ApplyOps(a, c.ts, c.ops), k) == Latest(ApplyOps(b, c.ts, c.ops), k) {
      assert Latest(a, k) == Latest(b, k);
      ApplyOpsAt(a, c.ts, c.ops, k);
      ApplyOpsAt(b, c.ts, c.ops, k);
    }
  }

  lemma {:induction false} ApplyKeepsStore(store: Store, bound: nat, c: Commit)
    requires StoreOk(store, bound) && c.ts > bound && Distinct(c.ops)
    ensures StoreOk(ApplyOps(store, c.ts, c.ops), c.ts)
  {
    var out := ApplyOps(store, c.ts, c.ops);
    ApplyOpsKeys(store, c.ts, c.ops);
    forall k | k in out
      ensures Ascending(out[k]) && out[k] != [] && forall i :: 0 <= i < |out[k]| ==> out[k][i].ts <= c.ts
    {
      ApplyOpsAt(store, c.ts, c.ops, k);
      assert out[k] == VersionsOf(out, k);
    }
  }

  lemma {:induction false} ApplyOpsKeys(store: Store, ts: nat, ops: seq<Op>)
    ensures ApplyOps(store, ts, ops).Keys == store.Keys + Writes(ops).Keys
  {
    if ops != [] {
      ApplyOpsKeys(store, ts, ops[..|ops| - 1]);
    }
  }

  /** A recovered store has ascending versions, none after the recovered timestamp. */
  lemma {:induction false} RecoveredStoreOk(base: Store, baseTs: nat, cs: seq<Commit>, bound: nat)
    requires StoreOk(base, baseTs) && CommitsOk(cs, bound)
    requires forall i :: 0 <= i < |cs| ==> Distinct(cs[i].ops)
    ensures StoreOk(ApplyAll(base, baseTs, cs), MaxTs(baseTs, cs))
    ensures baseTs == MaxTs(baseTs, cs) || (cs != [] && MaxTs(baseTs, cs) == cs[|cs| - 1].ts)
  {
    hide Distinct, StoreOk;
    if cs != [] {
      var (less, c) := (cs[..|cs| - 1], cs[|cs| - 1]);
      RecoveredStoreOk(base, baseTs, less, bound);
      assert cs == less + [c];
      ApplyAllPush(base, baseTs, less, c);
      if c.ts > baseTs {
        ApplyKeepsStore(ApplyAll(base, baseTs, less), MaxTs(baseTs, less), c);
      }
    }
  }

  lemma {:induction false} OpsKeysFit(ops: seq<Op>)
    requires forall i :: 0 <= i < |ops| ==> OpFits(ops[i])
    ensures forall k :: k in Writes(ops) ==> |k| == KEY_SIZE
  {
    WritesKeys(ops);
  }

  lemma {:induction false} ApplyKeysFit(store: Store, c: Commit)
    requires KeysFit(store) && CommitFits(c)
    ensures KeysFit(ApplyOps(store, c.ts, c.ops))
  {
    ApplyOpsKeys(store, c.ts, c.ops);
    OpsKeysFit(c.ops);
  }

  lemma {:induction false} RecoveredKeysFit(base: Store, baseTs: nat, cs: seq<Commit>)
    requires KeysFit(base) && forall i :: 0 <= i < |cs| ==> CommitFits(cs[i])
    ensures KeysFit(ApplyAll(base, baseTs, cs))
  {
    hide KeysFit, CommitFits;
    if cs != [] {
      RecoveredKeysFit(base, baseTs, cs[..|cs| - 1]);
      ApplyKeysFit(ApplyAll(base, baseTs, cs[..|cs| - 1]), cs[|cs| - 1]);
    }
  }

  // ---- What a crash leaves of the log ----

  lemma {:induction false} WholeOfLog(crc: Checksum, cs: seq<Commit>, c: Commit, n: nat)
    requires n <= |RecordBytes(crc, c)|
    ensures Whole(crc, cs + [c], |Log(crc, cs)| + n) == |cs| + (if n == |RecordBytes(crc, c)| then 1 else 0)
    decreases |cs|
  {
    hide RecordBytes;
    if cs == [] {
      assert [] + [c] == [c] && [c][1..] == [];
      assert Whole(crc, [c][1..], 0) == 0;
    } else {
      WholeOfLog(crc, cs[1..], c, n);
      assert (cs + [c])[1..] == cs[1..] + [c];
    }
  }

  lemma {:induction false} LogPush(crc: Checksum, cs: seq<Commit>, c: Commit)
    ensures Log(crc, cs + [c]) == Log(crc, cs) + RecordBytes(crc, c)
  {
    hide RecordBytes;
    if cs == [] {
      assert [] + [c] == [c] && [c][1..] == [];
      assert Log(crc, [c]) == RecordBytes(crc, c) + Log(crc, []);
    } else {
      LogPush(crc, cs[1..], c);
      assert (cs + [c])[1..] == cs[1..] + [c];
    }
  }

  /** A log cut off `n` bytes into its last record replays without that record, unless it is all there. */
  lemma CrashScan(crc: Checksum, cs: seq<Commit>, c: Commit, n: nat)
    requires ChecksumFits(crc) && (forall i :: 0 <= i < |cs| ==> RecordFits(cs[i])) && RecordFits(c)
    requires n <= |RecordBytes(crc, c)|
    ensures var cs2 := if n == |RecordBytes(crc, c)| then cs + [c] else cs;
            Scan(crc, Log(crc, cs) + RecordBytes(crc, c)[..n]) == (cs2, |Log(crc, cs2)|)
  {
    hide RecordBytes, Log, Scan, Whole, RecordFits;
    LogPush(crc, cs, c);
    WholeOfLog(crc, cs, c, n);
    PrefixReplays(crc, cs + [c], |Log(crc, cs)| + n);
    var rec := RecordBytes(crc, c);
    assert (Log(crc, cs) + rec)[..|Log(crc, cs)| + n] == Log(crc, cs) + rec[..n];
    assert (cs + [c])[..|cs|] == cs && (cs + [c])[..|cs| + 1] == cs + [c];
  }

  lemma {:induction false} CleanScan(crc: Checksum, cs: seq<Commit>)
    requires ChecksumFits(crc) && (forall i :: 0 <= i < |cs| ==> RecordFits(cs[i]))
    ensures Scan(crc, Log(crc, cs)) == (cs, |Log(crc, cs)|)
  {
    hide Log, Scan, Whole, RecordFits;
    PrefixReplays(crc, cs, |Log(crc, cs)|);
    WholeAll(crc, cs);
    assert cs[..|cs|] == cs;
    assert Log(crc, cs)[..|Log(crc, cs)|] == Log(crc, cs);
  }

  lemma {:induction false} WholeAll(crc: Checksum, cs: seq<Commit>)
    ensures Whole(crc, cs, |Log(crc, cs)|) == |cs|
  {
    hide RecordBytes;
    if cs != [] {
      WholeAll(crc, cs[1..]);
    }
  }

  /** After a snapshot at `ts`, nothing in the log is replayed, and latest values are unchanged. */
  lemma {:induction false} SnapshotCovers(es: seq<Entry>, store: Store, ts: nat, cs: seq<Commit>)
    requires Lists(es, store) && forall i :: 0 <= i < |cs| ==> cs[i].ts <= ts
    ensures SameLatest(ApplyAll(StoreOf(es, ts), ts, cs), store) && StoreOk(StoreOf(es, ts), ts)
  {
    hide Lists, StoreOf;
    ApplyNone(StoreOf(es, ts), ts, cs);
    SnapshotKeepsLatest(es, store, ts);
    var base := StoreOf(es, ts);
    StoreOfNonempty(es, ts);
    forall k | k in base
      ensures Ascending(base[k]) && base[k] != [] && forall i :: 0 <= i < |base[k]| ==> base[k][i].ts <= ts
    {
      assert base[k] == VersionsOf(base, k);
    }
  }

  lemma {:induction false} StoreOfNonempty(es: seq<Entry>, ts: nat)
    ensures forall k :: k in StoreOf(es, ts) ==> StoreOf(es, ts)[k] != []
    ensures (forall i :: 0 <= i < |es| ==> |es[i].key| == KEY_SIZE) ==> KeysFit(StoreOf(es, ts))
  {
    if es != [] {
      StoreOfNonempty(es[..|es| - 1], ts);
    }
  }
}
