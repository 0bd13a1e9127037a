/** The transaction manager of txn_kv (src/txn_kv/manager.rs) over one log file and one snapshot file. */
module TxnManager {
  import opened Bytes
  import opened Params
  import opened TxnCodec
  import opened TxnStore
  import opened TxnSnapshot
  import opened TxnState
  import opened TxnIsolation

  datatype TxnError = InvalidKeySize(len: nat) | ValueTooLong(len: nat) | WriteWriteConflict

  // ---- Memory and disk ----

  datatype Disk = Disk(snapshot: Option<seq<Byte>>, wal: seq<Byte>,
                       base: Store, baseTs: nat, logged: seq<Commit>, intact: bool)

  // What recovery would rebuild, with the commit in progress once it is in the log.
  ghost function Expected(store: Store, pending: Option<Pending>): Store {
    if pending.Some? && pending.value.logged then ApplyOps(store, pending.value.ts, pending.value.ops) else store
  }

  /** The snapshot file is what it was written from, and covers the store if nothing was committed since. */
  ghost predicate SnapshotOk(d: Disk, store: Store, commitTs: nat, pending: Option<Pending>) {
    && (d.snapshot == None ==> d.base == map[] && d.baseTs == 0)
    && (d.snapshot.Some? ==> ParseSnapshot(d.snapshot.value) == Ok((d.base, d.baseTs)))
    && StoreOk(d.base, d.baseTs) && KeysFit(d.base) && d.baseTs <= Bound(commitTs, pending)
    && (d.baseTs == commitTs && pending == None ==> SameLatest(d.base, store))
  }

  /** The files on disk agree with memory, the log as long as no append has failed since it was last emptied. */
  ghost predicate Durable(crc: Checksum, d: Disk, store: Store, commitTs: nat, pending: Option<Pending>) {
    && ChecksumFits(crc) && SnapshotOk(d, store, commitTs, pending)
    && (d.intact ==> LogOk(crc, d, store, commitTs, pending))
  }

  ghost predicate LogOk(crc: Checksum, d: Disk, store: Store, commitTs: nat, pending: Option<Pending>) {
      && DiskOk(crc, d.snapshot, d.wal, d.base, d.baseTs, d.logged)
      && CommitsOk(d.logged, if pending.Some? && pending.value.logged then commitTs else Bound(commitTs, pending))
      && SameLatest(ApplyAll(d.base, d.baseTs, d.logged), Expected(store, pending))
  }

  class TxnManager {
    const crc: Checksum
    var store: Store
    var commitTs: nat
    var pending: Option<Pending>
    var txns: map<nat, Txn>
    var nextId: nat
    var snapshot: Option<seq<Byte>>
    var wal: seq<Byte>

    ghost var snaps: map<nat, Store>
    ghost var windows: map<nat, Window>
    ghost var done: seq<Committed>
    ghost var base: Store
    ghost var baseTs: nat
    ghost var logged: seq<Commit>
    ghost var intact: bool

    ghost function M(): Mem
      reads this
    {
      Mem(store, commitTs, pending, txns, nextId, snaps, windows, done)
    }

    ghost function D(): Disk
      reads this
    {
      Disk(snapshot, wal, base, baseTs, logged, intact)
    }

    ghost predicate Valid()
      reads this
    {
      Isolated(M()) && Durable(crc, D(), store, commitTs, pending)
    }

    constructor (crc: Checksum)
      requires ChecksumFits(crc)
      ensures Valid() && intact && store == map[] && txns == map[] && commitTs == 0 && pending == None
    {
      this.crc := crc;
      store, commitTs, pending, txns, nextId := map[], 0, None, map[], 0;
      snapshot, wal := None, [];
      snaps, windows, done := map[], map[], [];
      base, baseTs, logged, intact := map[], 0, [], true;
    }

    // ---- Transactions ----

    method Begin(readOnly: bool) returns (id: nat)
      requires Valid()
      modifies `txns, `nextId, `snaps, `windows
      ensures Valid()
      ensures txns == old(txns)[id := Txn(commitTs, map[], readOnly)] && id !in old(txns)
      ensures snaps == old(snaps)[id := store] && windows == Opened(old(windows), id, pending)
      ensures Next(old(M()), M())
    {
      hide Isolated, Durable;
      id := nextId;
      BeginKeeps(M(), readOnly);
      txns := txns[id := Txn(commitTs, map[], readOnly)];
      nextId := nextId + 1;
      snaps := snaps[id := store];
      windows := Opened(windows, id, pending);
      assert M() == AfterBegin(old(M()), readOnly);
    }

    /**
     * A read sees the transaction's own writes over the store as it was when the transaction
     * began, with the commit of its window, if it began in one and that was published since.
     */
    method Get(id: nat, key: seq<Byte>) returns (r: Result<Option<Value>, TxnError>)
      requires Valid() && id in txns
      ensures |key| != KEY_SIZE ==> r == Err(InvalidKeySize(|key|))
      ensures |key| == KEY_SIZE ==>
                r == Ok(View(store, txns[id], key)) && id in snaps && r == Ok(View(SeenBy(M(), id), txns[id], key))
    {
      hide Isolated, Durable, ValueAt, SeenBy;
      if |key| != KEY_SIZE {
        return Err(InvalidKeySize(|key|));
      }
      SnapshotReads(M(), id, key);
      if key in txns[id].writes {
        return Ok(txns[id].writes[key]);
      }
      var vs := VersionsOf(store, key);
      var i := |vs|;
      assert vs[..i] == vs;
      while i > 0 && vs[i - 1].ts > txns[id].readTs
        invariant i <= |vs| && ValueAt(vs[..i], txns[id].readTs) == ValueAt(vs, txns[id].readTs)
      {
        OlderVersion(vs, i, txns[id].readTs);
        i := i - 1;
      }
      OlderVersion(vs, i, txns[id].readTs);
      r := Ok(if i == 0 then None else vs[i - 1].value);
    }

    method Put(id: nat, key: seq<Byte>, value: Value) returns (e: Option<TxnError>)
      requires Valid() && id in txns
      modifies `txns
      ensures Valid()
      ensures e == None <==> |key| == KEY_SIZE && |value| <= VALUE_SIZE
      ensures txns == if e == None
                      then old(txns)[id := old(txns)[id].(writes := old(txns)[id].writes[key := Some(value)])]
                      else old(txns)
      ensures Next(old(M()), M())
    {
      hide Isolated, Durable;
      if |key| != KEY_SIZE {
        return Some(InvalidKeySize(|key|));
      }
      if |value| > VALUE_SIZE {
        return Some(ValueTooLong(|value|));
      }
      WriteKeeps(M(), id, key, Some(value));
      txns := txns[id := txns[id].(writes := txns[id].writes[key := Some(value)])];
      assert M() == AfterWrite(old(M()), id, key, Some(value));
      e := None;
    }

    method Delete(id: nat, key: seq<Byte>) returns (e: Option<TxnError>)
      requires Valid() && id in txns
      modifies `txns
      ensures Valid()
      ensures e == None <==> |key| == KEY_SIZE
      ensures txns == if e == None then old(txns)[id := old(txns)[id].(writes := old(txns)[id].writes[key := None])]
                      else old(txns)
      ensures Next(old(M()), M())
    {
      hide Isolated, Durable;
      if |key| != KEY_SIZE {
        return Some(InvalidKeySize(|key|));
      }
      WriteKeeps(M(), id, key, None);
      txns := txns[id := txns[id].(writes := txns[id].writes[key := None])];
      assert M() == AfterWrite(old(M()), id, key, None);
      e := None;
    }

    // ---- Commit ----

    method ListOps(writes: WriteSet) returns (ops: seq<Op>)
      requires WritesFit(writes)
      ensures Distinct(ops) && Writes(ops) == writes && |ops| == |writes|
      ensures forall i :: 0 <= i < |ops| ==> OpFits(ops[i])
    {
      hide Distinct, Writes, OpFits;
      var todo: WriteSet := writes;
      ops := [];
      NoOps(writes);
      while todo.Keys != {}
        invariant todo.Keys <= writes.Keys && forall k :: k in todo ==> todo[k] == writes[k]
        invariant Distinct(ops) && forall i :: 0 <= i < |ops| ==> OpFits(ops[i])
        invariant Writes(ops) == writes - todo.Keys && |ops| == |writes| - |todo|
        decreases |todo|
      {
        var k :| k in todo.Keys;
        OneMoreOp(ops, Op(k, todo[k]));
        ops := ops + [Op(k, todo[k])];
        assert writes - (todo - {k}).Keys == (writes - todo.Keys)[k := todo[k]];
        assert |todo - {k}| == |todo| - 1;
        todo := todo - {k};
      }
      assert |todo| == 0 && writes - todo.Keys == writes;
    }

    method HasConflict(writes: WriteSet, readTs: nat) returns (c: bool)
      ensures c <==> Conflicting(store, writes, readTs)
    {
      var todo := writes.Keys;
      while todo != {}
        invariant todo <= writes.Keys
        invariant forall k :: k in writes && k !in todo && k in store && store[k] != [] ==>
                    store[k][|store[k]| - 1].ts <= readTs
      {
        var k :| k in todo;
        var vs := VersionsOf(store, k);
        if vs != [] && vs[|vs| - 1].ts > readTs {
          return true;
        }
        todo := todo - {k};
      }
      c := false;
    }

    /**
     * The first half of a commit, under the commit lock: nothing to do, a conflict exactly when
     * some written key has a version after the read timestamp, or a fresh timestamp.
     */
    method CommitStart(id: nat) returns (r: CommitResult)
      requires Valid() && id in txns && pending == None
      requires commitTs + 1 < U64_LIMIT && |txns[id].writes| <= MAX_OPS
      modifies `txns, `commitTs, `pending
      ensures Valid()
      ensures r.NothingToDo? <==> old(txns)[id].readOnly || old(txns)[id].writes == map[]
      ensures r.NothingToDo? ==> r.readTs == old(txns)[id].readTs
      ensures r.Conflict? <==> !r.NothingToDo? && Conflicting(store, old(txns)[id].writes, old(txns)[id].readTs)
      ensures txns == old(txns) - {id}
      ensures r.Started? ==> pending.Some? && commitTs == old(commitTs) + 1 == r.ts == pending.value.ts
                             && !pending.value.logged && Writes(pending.value.ops) == old(txns)[id].writes
                             && pending.value.readTs == old(txns)[id].readTs
      ensures !r.Started? ==> pending == None && commitTs == old(commitTs)
      ensures Next(old(M()), M())
    {
      hide Isolated, Durable, Writes, Conflicting, WritesFit, Next;
      var txn := txns[id];
      ghost var m := M();
      EndKeeps(m, id);
      EndIsNext(m, id);
      if txn.readOnly || txn.writes == map[] {
        txns := txns - {id};
        assert M() == AfterEnd(m, id);
        return NothingToDo(txn.readTs);
      }
      var conflict := HasConflict(txn.writes, txn.readTs);
      if conflict {
        txns := txns - {id};
        assert M() == AfterEnd(m, id);
        return Conflict;
      }
      TakeTimestamp(id);
      r := Started(commitTs);
    }

    /** Lists the writes and takes the next timestamp for them. */
    method TakeTimestamp(id: nat)
      requires Valid() && id in txns && pending == None && commitTs + 1 < U64_LIMIT && |txns[id].writes| <= MAX_OPS
      requires !Conflicting(store, txns[id].writes, txns[id].readTs)
      modifies `txns, `commitTs, `pending
      ensures Valid() && txns == old(txns) - {id} && Next(old(M()), M())
      ensures pending.Some? && commitTs == old(commitTs) + 1 == pending.value.ts && !pending.value.logged
      ensures Writes(pending.value.ops) == old(txns)[id].writes && pending.value.readTs == old(txns)[id].readTs
    {
      hide Isolated, Durable, Writes, Distinct, PendingOk, Conflicting, RecordFits, WritesFit, OpFits, Next;
      ghost var m := M();
      EndKeeps(m, id);
      var ops := ListOps(txns[id].writes);
      PayloadSize(Commit(commitTs + 1, ops));
      var p := Pending(id, txns[id].readTs, commitTs + 1, ops, false);
      StartKeeps(m, id, p);
      StartIsNext(m, id, p);
      StartDurable(crc, D(), store, commitTs, p);
      txns := txns - {id};
      commitTs := commitTs + 1;
      pending := Some(p);
      assert M() == AfterStart(m, id, p);
    }

    /** The record reaches the log. */
    method CommitAppend()
      requires Valid() && pending.Some? && !pending.value.logged
      modifies `wal, `pending, `logged
      ensures Valid() && pending == Some(old(pending).value.(logged := true))
      ensures wal == old(wal) + RecordBytes(crc, Commit(old(pending).value.ts, old(pending).value.ops))
      ensures Next(old(M()), M())
    {
      hide Isolated, Durable, RecordBytes;
      var p := pending.value;
      AppendKeeps(M());
      AppendDurable(crc, D(), M());
      wal := wal + RecordBytes(crc, Commit(p.ts, p.ops));
      logged := logged + [Commit(p.ts, p.ops)];
      pending := Some(p.(logged := true));
      assert M() == AfterAppend(old(M()));
    }

    /** The append fails, possibly leaving part of the record behind: the commit is off, its timestamp spent. */
    method CommitAppendFails(partial: seq<Byte>)
      requires Valid() && pending.Some? && !pending.value.logged
      modifies `wal, `pending, `intact
      ensures Valid() && pending == None && !intact && wal == old(wal) + partial
      ensures Next(old(M()), M())
    {
      hide Isolated, Durable;
      FailKeeps(M());
      PendingTs(M());
      FailDurable(crc, D(), store, commitTs, pending, wal + partial);
      wal := wal + partial;
      pending := None;
      intact := false;
      assert M() == AfterFail(old(M()));
    }

    /** The versions become visible, all at once, and the lock is released. */
    method CommitPublish()
      requires Valid() && pending.Some? && pending.value.logged
      modifies `store, `pending, `windows, `done
      ensures Valid() && pending == None && Next(old(M()), M())
      ensures store == ApplyOps(old(store), old(pending).value.ts, old(pending).value.ops)
      ensures done == old(done) + [Committed(old(pending).value.readTs, old(pending).value.ts,
                                             Writes(old(pending).value.ops).Keys)]
      ensures windows == Published(old(windows), Commit(old(pending).value.ts, old(pending).value.ops))
    {
      hide Isolated, Durable, ApplyOps, Writes;
      var p := pending.value;
      PublishKeeps(M());
      PublishDurable(crc, D(), M());
      var out := ApplyOneByOne(store, Commit(p.ts, p.ops));
      store := out;
      pending := None;
      windows := Published(windows, Commit(p.ts, p.ops));
      done := done + [Committed(p.readTs, p.ts, Writes(p.ops).Keys)];
      assert M() == AfterPublish(old(M()));
    }

    // ---- Checkpoint, in its two steps under the commit lock ----

    /** Writes the snapshot file, replacing the old one in one step; on failure nothing changes. */
    method WriteSnapshotFile() returns (ok: bool)
      requires Valid() && pending == None
      modifies `snapshot, `base, `baseTs
      ensures Valid()
      ensures ok <==>
                && |LiveKeys(store)| < U32_LIMIT
                && forall k :: k in LiveKeys(store) ==> |Latest(store, k).value| <= VALUE_SIZE
      ensures ok ==> snapshot.Some? && ParseSnapshot(snapshot.value) == Ok((base, commitTs)) && baseTs == commitTs
      ensures ok ==> forall k :: Latest(base, k) == Latest(store, k)
      ensures !ok ==> snapshot == old(snapshot) && base == old(base) && baseTs == old(baseTs)
    {
      hide Isolated, Durable, StoreOf, Lists, SnapshotBytes, LiveKeys, Latest, ParseSnapshot;
      var r, es := WriteSnapshot(commitTs, store);
      if r.Err? {
        return false;
      }
      SnapshotStep(crc, D(), M(), es);
      SnapshotKeepsLatest(es, store, commitTs);
      snapshot := Some(r.value);
      base, baseTs := StoreOf(es, commitTs), commitTs;
      ok := true;
    }

    /** Empties the log, once the snapshot covers all of it; this makes up for any append that failed. */
    method TruncateLog()
      requires Valid() && pending == None && baseTs == commitTs
      modifies `wal, `logged, `intact
      ensures Valid() && wal == [] && intact
    {
      hide Isolated, Durable;
      TruncateStep(crc, D(), store, commitTs);
      wal := [];
      logged := [];
      intact := true;
    }

    // ---- Crash ----

    method Rebuild(bytes: seq<Byte>) returns (out: Store, maxTs: nat, lastGood: nat)
      requires snapshot == None ==> base == map[] && baseTs == 0
      requires snapshot.Some? ==> ParseSnapshot(snapshot.value) == Ok((base, baseTs))
      ensures out == ApplyAll(base, baseTs, Scan(crc, bytes).0) && maxTs == MaxTs(baseTs, Scan(crc, bytes).0)
      ensures lastGood == Scan(crc, bytes).1
    {
      hide ParseSnapshot, ApplyAll, Scan, MaxTs;
      var start, startTs := map[], 0;
      if snapshot.Some? {
        var r := LoadSnapshot(snapshot.value);
        start, startTs := r.value.0, r.value.1;
      }
      out, maxTs, lastGood := ReplayWal(crc, bytes, start, startTs);
    }

    method Install(out: Store, maxTs: nat, valid: seq<Byte>, ghost cs: seq<Commit>)
      requires Isolated(Mem(out, maxTs, None, map[], nextId, map[], map[], []))
      requires Durable(crc, D().(wal := valid, logged := cs), out, maxTs, None)
      modifies `store, `commitTs, `pending, `txns, `wal, `snaps, `windows, `done, `logged
      ensures Valid() && pending == None && txns == map[] && store == out && commitTs == maxTs
    {
      hide Isolated, Durable;
      store, commitTs, pending, txns, wal := out, maxTs, None, map[], valid;
      snaps, windows, done, logged := map[], map[], [], cs;
      assert M() == Mem(out, maxTs, None, map[], nextId, map[], map[], []);
      assert D() == old(D()).(wal := valid, logged := cs);
    }

    /**
     * A crash at any point, with `n` bytes of a record being appended in the file, and reopening:
     * the latest value of every key is what it was, plus the commit in progress if its record is
     * whole in the log, and no version is after the recovered timestamp.
     */
    method CrashAndOpen(n: nat)
      requires Valid() && intact
      requires n > 0 ==> pending.Some? && !pending.value.logged
                         && n <= |RecordBytes(crc, Commit(pending.value.ts, pending.value.ops))|
      modifies `store, `commitTs, `pending, `txns, `wal, `snaps, `windows, `done, `logged
      ensures Valid() && pending == None && txns == map[]
      ensures Recovers(old(store), old(pending), Survives(old(pending), crc, n), store)
      ensures StoreOk(store, commitTs)
    {
      hide Isolated, Durable, ParseSnapshot, ApplyAll, Log, Scan, RecordBytes, Recovers, Survives,
           SurvivingCommits, StoreOk, MaxTs;
      ghost var cs := SurvivingCommits(pending, crc, n, logged);
      CrashStep(crc, D(), M(), n);
      var bytes := wal;
      if n > 0 {
        bytes := wal + RecordBytes(crc, Commit(pending.value.ts, pending.value.ops))[..n];
      }
      var out, maxTs, lastGood := Rebuild(bytes);
      Install(out, maxTs, bytes[..lastGood], cs);
    }

    // ---- Runs ----

    /** Takes one step if it is possible now, else none. */
    method Step(step: TxnStep)
      requires Valid()
      modifies this
      ensures Valid() && Next(old(M()), M())
      ensures step.BeginTxn? ==> exists id: nat ::
                id !in old(txns) && txns == old(txns)[id := Txn(commitTs, map[], step.readOnly)]
      ensures step.PutKey? && step.id in old(txns) && |step.key| == KEY_SIZE && |step.value| <= VALUE_SIZE ==>
                var t := old(txns)[step.id];
                txns == old(txns)[step.id := t.(writes := t.writes[step.key := Some(step.value)])]
      ensures step.DeleteKey? && step.id in old(txns) && |step.key| == KEY_SIZE ==>
                var t := old(txns)[step.id];
                txns == old(txns)[step.id := t.(writes := t.writes[step.key := None])]
      ensures step.StartCommit? && step.id in old(txns) && old(pending) == None && old(commitTs) + 1 < U64_LIMIT
              && |old(txns)[step.id].writes| <= MAX_OPS ==>
                var t := old(txns)[step.id];
                && txns == old(txns) - {step.id}
                && (pending == None <==> t.readOnly || t.writes == map[] || Conflicting(store, t.writes, t.readTs))
                && (pending.Some? ==> Writes(pending.value.ops) == t.writes && pending.value.ts == old(commitTs) + 1)
      ensures step.AppendRecord? && old(pending).Some? && !old(pending).value.logged ==>
                pending == Some(old(pending).value.(logged := true))
      ensures step.AppendFails? && old(pending).Some? && !old(pending).value.logged ==> pending == None
      ensures step.Publish? && old(pending).Some? && old(pending).value.logged ==>
                pending == None && store == ApplyOps(old(store), old(pending).value.ts, old(pending).value.ops)
      ensures step.Checkpoint? && old(pending) == None && |LiveKeys(store)| < U32_LIMIT
              && (forall k :: k in LiveKeys(store) ==> |Latest(store, k).value| <= VALUE_SIZE) ==>
                wal == [] && baseTs == commitTs
    {
      hide LiveKeys, Latest, ApplyOps, ParseSnapshot, Isolated, Durable, AfterBegin, AfterWrite, AfterEnd, AfterStart,
           AfterAppend, AfterPublish, CanStart, Conflicting, RecordBytes, Writes, Published, Opened;
      match step
      case BeginTxn(readOnly) => var _ := Begin(readOnly);
      case PutKey(id, key, value) => if id in txns { var _ := Put(id, key, value); }
      case DeleteKey(id, key) => if id in txns { var _ := Delete(id, key); }
      case StartCommit(id) =>
        if id in txns && pending == None && commitTs + 1 < U64_LIMIT && |txns[id].writes| <= MAX_OPS {
          var _ := CommitStart(id);
        }
      case AppendRecord => if pending.Some? && !pending.value.logged { CommitAppend(); }
      case AppendFails(partial) => if pending.Some? && !pending.value.logged { CommitAppendFails(partial); }
      case Publish => if pending.Some? && pending.value.logged { CommitPublish(); }
      case Checkpoint =>
        if pending == None {
          var ok := WriteSnapshotFile();
          if ok {
            TruncateLog();
          }
        }
    }

    /**
     * Repeatable reads: whatever steps come between two reads of a key that the transaction has
     * not written, both answer the same, unless it began in the window of a commit, still
     * unpublished at the first read, that changes what it sees.
     */
    method GetTwice(id: nat, key: Key, steps: seq<TxnStep>) returns (first: Option<Value>, second: Option<Value>)
      requires Valid() && id in txns && |key| == KEY_SIZE
      modifies this
      ensures Valid()
      ensures old(Repeatable(M(), id)) && id in txns && key !in txns[id].writes ==> first == second
    {
      hide Isolated, Durable, Next, View, Repeatable, SeenBy;
      ghost var tr := [M()];
      var r := Get(id, key);
      first := r.value;
      var i := 0;
      while i < |steps|
        invariant i <= |steps| && Valid()
        invariant Run(tr) && tr[0] == old(M()) && tr[|tr| - 1] == M()
      {
        Step(steps[i]);
        tr := tr + [M()];
        i := i + 1;
      }
      second := first;
      if id in txns {
        r := Get(id, key);
        second := r.value;
        if Repeatable(tr[0], id) && key !in txns[id].writes {
          RepeatableRead(tr, id, |tr| - 1, key);
        }
      }
    }
  }

  datatype TxnStep =
    | BeginTxn(readOnly: bool)
    | PutKey(id: nat, key: seq<Byte>, value: Value)
    | DeleteKey(id: nat, key: seq<Byte>)
    | StartCommit(id: nat)
    | AppendRecord
    | AppendFails(partial: seq<Byte>)
    | Publish
    | Checkpoint

  lemma {:induction false} OlderVersion(vs: seq<Version>, i: nat, ts: nat)
    requires i <= |vs|
    ensures i == 0 ==> ValueAt(vs[..i], ts) == None
    ensures i > 0 && vs[i - 1].ts <= ts ==> ValueAt(vs[..i], ts) == vs[i - 1].value
    ensures i > 0 && vs[i - 1].ts > ts ==> ValueAt(vs[..i], ts) == ValueAt(vs[..i - 1], ts)
  {
    if i > 0 {
      assert vs[..i][..i - 1] == vs[..i - 1];
    }
  }

  datatype CommitResult = NothingToDo(readTs: nat) | Conflict | Started(ts: nat)

  // Keeps a record's payload under 4 GiB, the most its length field can hold.
  const MAX_OPS := 4_000_000

  lemma NoOps(writes: WriteSet)
    ensures Distinct([]) && Writes([]) == map[] == writes - writes.Keys
  {
  }

  lemma {:induction false} OneMoreOp(ops: seq<Op>, op: Op)
    requires Distinct(ops) && op.key !in Writes(ops)
    ensures Distinct(ops + [op]) && Writes(ops + [op]) == Writes(ops)[op.key := op.value]
  {
    WritesKeys(ops);
    assert (ops + [op])[..|ops|] == ops;
  }

  lemma {:induction false} AppendDisk(crc: Checksum, snapshot: Option<seq<Byte>>, wal: seq<Byte>, base: Store,
                                      baseTs: nat,
                                      logged: seq<Commit>, p: Pending, store: Store)
    requires DiskOk(crc, snapshot, wal, base, baseTs, logged) && PendingOk(p, store, p.ts) && p.ts >= 1
    requires baseTs < p.ts && CommitsOk(logged, p.ts - 1) && SameLatest(ApplyAll(base, baseTs, logged), store)
    ensures var c := Commit(p.ts, p.ops);
            && DiskOk(crc, snapshot, wal + RecordBytes(crc, c), base, baseTs, logged + [c])
            && CommitsOk(logged + [c], p.ts)
            && SameLatest(ApplyAll(base, baseTs, logged + [c]), ApplyOps(store, p.ts, p.ops))
  {
    hide RecordBytes, Log, ParseSnapshot, ApplyAll, ApplyOps, SameLatest, RecordFits, Distinct, Writes;
    var c := Commit(p.ts, p.ops);
    LogPush(crc, logged, c);
    ApplyAllPush(base, baseTs, logged, c);
    ApplySameLatest(ApplyAll(base, baseTs, logged), store, c);
  }

  lemma {:induction false} OpsSize(ops: seq<Op>)
    requires forall i :: 0 <= i < |ops| ==> OpFits(ops[i])
    ensures |OpsBytes(ops)| <= 1045 * |ops|
  {
    if ops != [] {
      OpsSize(ops[1..]);
    }
  }

  lemma PayloadSize(c: Commit)
    requires c.ts < U64_LIMIT && |c.ops| <= MAX_OPS && forall i :: 0 <= i < |c.ops| ==> OpFits(c.ops[i])
    ensures RecordFits(c)
  {
    hide OpsBytes, ToLe;
    OpsSize(c.ops);
  }

  // ---- Checkpoint and crash ----

  lemma EntriesFit(es: seq<Entry>, store: Store)
    requires Lists(es, store) && KeysFit(store) && forall i :: 0 <= i < |es| ==> |es[i].value| <= VALUE_SIZE
    ensures forall i :: 0 <= i < |es| ==> EntryFits(es[i]) && |es[i].key| == KEY_SIZE
  {
    forall i | 0 <= i < |es| ensures EntryFits(es[i]) {
      assert Latest(store, es[i].key) == Some(es[i].value);
    }
  }

  /** Whether the commit in progress is in the log when it crashes with `n` bytes of its record written. */
  ghost predicate Survives(pending: Option<Pending>, crc: Checksum, n: nat) {
    pending.Some? &&
    (pending.value.logged || n == |RecordBytes(crc, Commit(pending.value.ts, pending.value.ops))|)
  }

  /** The latest value of every key is that of `store`, or of the commit in progress if it survives. */
  ghost predicate Recovers(store: Store, pending: Option<Pending>, survives: bool, out: Store) {
    forall k :: Latest(out, k) ==
      if survives && pending.Some? && k in Writes(pending.value.ops) then Writes(pending.value.ops)[k]
      else Latest(store, k)
  }

  ghost function SurvivingCommits(pending: Option<Pending>, crc: Checksum, n: nat, logged: seq<Commit>): seq<Commit> {
    if pending.Some? && !pending.value.logged && Survives(pending, crc, n)
    then logged + [Commit(pending.value.ts, pending.value.ops)] else logged
  }

  ghost predicate AllFit(cs: seq<Commit>) {
    forall i :: 0 <= i < |cs| ==> RecordFits(cs[i]) && Distinct(cs[i].ops)
  }

  lemma CommitsFit(cs: seq<Commit>)
    requires AllFit(cs)
    ensures forall i :: 0 <= i < |cs| ==> CommitFits(cs[i])
  {
  }

  lemma {:induction false} SurvivingScan(pending: Option<Pending>, crc: Checksum, n: nat, logged: seq<Commit>,
                                         commitTs: nat, store: Store)
    requires ChecksumFits(crc) && AllFit(logged) && (pending.Some? ==> PendingOk(pending.value, store, commitTs))
    requires n > 0 ==> pending.Some? && !pending.value.logged
                       && n <= |RecordBytes(crc, Commit(pending.value.ts, pending.value.ops))|
    ensures var cs := SurvivingCommits(pending, crc, n, logged);
            var bytes := if n > 0
                         then Log(crc, logged) + RecordBytes(crc, Commit(pending.value.ts, pending.value.ops))[..n]
                         else Log(crc, logged);
            Scan(crc, bytes) == (cs, |Log(crc, cs)|) && Log(crc, cs) <= bytes
  {
    hide Log, Scan, RecordBytes, RecordFits, Distinct, Writes;
    if n > 0 {
      var c := Commit(pending.value.ts, pending.value.ops);
      CrashScan(crc, logged, c, n);
      LogPush(crc, logged, c);
      assert RecordBytes(crc, c)[..|RecordBytes(crc, c)|] == RecordBytes(crc, c);
    } else {
      CleanScan(crc, logged);
      assert pending.Some? ==> |RecordBytes(crc, Commit(pending.value.ts, pending.value.ops))| > 0 by {
        if pending.Some? {
          RecordLength(crc, Commit(pending.value.ts, pending.value.ops));
        }
      }
    }
  }

  /** If no commit in the log is newer than the snapshot, recovery gives the snapshot. */
  lemma {:induction false} NothingNew(base: Store, baseTs: nat, cs: seq<Commit>, bound: nat)
    requires CommitsOk(cs, bound) && baseTs <= bound
    ensures baseTs <= MaxTs(baseTs, cs)
    ensures MaxTs(baseTs, cs) == baseTs ==> SameLatest(base, ApplyAll(base, baseTs, cs))
  {
    MaxTsBounded(baseTs, cs, bound);
    if MaxTs(baseTs, cs) == baseTs {
      ApplyNone(base, baseTs, cs);
    }
  }

  lemma RecordLength(crc: Checksum, c: Commit)
    ensures |RecordBytes(crc, c)| >= WAL_HEADER_LEN
  {
  }

  lemma {:induction false} SurvivingLatest(pending: Option<Pending>, crc: Checksum, n: nat, logged: seq<Commit>,
                                           base: Store, baseTs: nat, store: Store, commitTs: nat)
    requires AllFit(logged) && (pending.Some? ==> PendingOk(pending.value, store, commitTs) && commitTs >= 1)
    requires CommitsOk(logged, if pending.Some? && !pending.value.logged then commitTs - 1 else commitTs)
    requires baseTs <= (if pending.Some? then commitTs - 1 else commitTs)
    requires SameLatest(ApplyAll(base, baseTs, logged),
                        if pending.Some? && pending.value.logged
                        then ApplyOps(store, pending.value.ts, pending.value.ops) else store)
    ensures var cs := SurvivingCommits(pending, crc, n, logged);
            && AllFit(cs) && CommitsOk(cs, commitTs)
            && Recovers(store, pending, Survives(pending, crc, n), ApplyAll(base, baseTs, cs))
  {
    hide RecordBytes, RecordFits, ApplyAll, ApplyOps, Writes, Latest;
    var cs := SurvivingCommits(pending, crc, n, logged);
    var out := ApplyAll(base, baseTs, cs);
    if Survives(pending, crc, n) {
      var p := pending.value;
      if !p.logged {
        ApplyAllPush(base, baseTs, logged, Commit(p.ts, p.ops));
        ApplySameLatest(ApplyAll(base, baseTs, logged), store, Commit(p.ts, p.ops));
      }
      forall k ensures Latest(out, k) == if k in Writes(p.ops) then Writes(p.ops)[k] else Latest(store, k) {
        assert Latest(out, k) == Latest(ApplyOps(store, p.ts, p.ops), k);
        LatestAfter(store, p, k);
      }
    }
  }

  lemma {:induction false} LatestAfter(store: Store, p: Pending, k: Key)
    requires Distinct(p.ops)
    ensures Latest(ApplyOps(store, p.ts, p.ops), k) ==
            if k in Writes(p.ops) then Writes(p.ops)[k] else Latest(store, k)
  {
    hide ApplyOps, Writes, Distinct;
    ApplyOpsAt(store, p.ts, p.ops, k);
  }

  lemma {:induction false} MaxBounds(base: Store, baseTs: nat, cs: seq<Commit>, commitTs: nat)
    requires CommitsOk(cs, commitTs) && baseTs <= commitTs
    ensures CommitsOk(cs, MaxTs(baseTs, cs)) && MaxTs(baseTs, cs) <= commitTs
    ensures SameLatest(ApplyAll(base, baseTs, cs), ApplyAll(base, baseTs, cs))
  {
    MaxTsBounded(baseTs, cs, commitTs);
  }

  // ---- Transactions begun inside a window ----

  // A manager with one commit of `key` between its timestamp and its publication.
  method InWindow(crc: Checksum, key: Key, value: Value) returns (m: TxnManager)
    requires ChecksumFits(crc) && |key| == KEY_SIZE && |value| <= VALUE_SIZE
    ensures fresh(m) && m.Valid() && m.store == map[] && m.pending.Some? && !m.pending.value.logged
    ensures Writes(m.pending.value.ops) == map[key := Some(value)] && m.commitTs == 1
  {
    hide Writes, Isolated, Durable;
    m := new TxnManager(crc);
    var w := m.Begin(false);
    var e := m.Put(w, key, value);
    assert key in m.txns[w].writes;
    var r := m.CommitStart(w);
  }

  // A transaction that reads `key` before and after the commit of its window is published.
  method ReadAroundPublish(crc: Checksum, key: Key, value: Value, readOnly: bool)
    returns (m: TxnManager, t: nat, before: Option<Value>, after: Option<Value>)
    requires ChecksumFits(crc) && |key| == KEY_SIZE && |value| <= VALUE_SIZE
    ensures before == None && after == Some(value)
    ensures fresh(m) && m.Valid() && m.pending == None && t in m.txns && m.txns[t] == Txn(m.commitTs, map[], readOnly)
    ensures m.commitTs == 1
  {
    hide Writes, ApplyOps, Isolated, Durable, View, Distinct, PendingOk, Next, SeenBy, Opened, Published;
    m := InWindow(crc, key, value);
    ghost var p := m.pending.value;
    t := m.Begin(readOnly);
    var first := m.Get(t, key);
    NeverWritten(m.store, m.txns[t], key);
    PendingTs(m.M());
    assert Distinct(p.ops) by { PendingDistinct(p, m.store, m.commitTs); }
    WindowView(m.store, p, m.txns[t], key);
    m.CommitAppend();
    m.CommitPublish();
    var second := m.Get(t, key);
    before, after := first.value, second.value;
  }

  /**
   * A read that does not repeat: first nothing, then the value of a commit that had its timestamp
   * but was not published.
   */
  method UnrepeatableRead(crc: Checksum, key: Key, value: Value) returns (before: Option<Value>, after: Option<Value>)
    requires ChecksumFits(crc) && |key| == KEY_SIZE && |value| <= VALUE_SIZE
    ensures before == None && after == Some(value)
  {
    var m, t;
    m, t, before, after := ReadAroundPublish(crc, key, value, true);
  }

  /**
   * A lost update: the transaction reads nothing, a commit writes the key, and the transaction
   * overwrites that value without a conflict.
   */
  method LostUpdate(crc: Checksum, key: Key, value: Value, mine: Value)
    returns (read: Option<Value>, lost: Option<Value>, r: CommitResult)
    requires ChecksumFits(crc) && |key| == KEY_SIZE && |value| <= VALUE_SIZE && |mine| <= VALUE_SIZE
    ensures read == None && lost == Some(value) && r.Started?
  {
    hide Writes, Isolated, Durable, Conflicting, Next;
    var m, t;
    m, t, read, lost := ReadAroundPublish(crc, key, value, false);
    var e := m.Put(t, key, mine);
    NoneAfter(m.M(), t);
    assert key in m.txns[t].writes && m.txns[t].writes == map[key := Some(mine)];
    r := m.CommitStart(t);
  }

  /** With no commit in progress, no version is after a transaction that read at the newest timestamp. */
  lemma NoneAfter(m: Mem, id: nat)
    requires Isolated(m) && m.pending == None && id in m.txns && m.txns[id].readTs == m.commitTs
    ensures !Conflicting(m.store, m.txns[id].writes, m.txns[id].readTs)
  {
    hide TxnsOk, DoneOk, PendingOk;
  }

  lemma PendingDistinct(p: Pending, store: Store, commitTs: nat)
    requires PendingOk(p, store, commitTs)
    ensures Distinct(p.ops)
  {
  }

  lemma NeverWritten(store: Store, txn: Txn, k: Key)
    requires store == map[] && k !in txn.writes
    ensures View(store, txn, k) == None
  {
  }

  // ---- Steps on memory and disk ----

  lemma StartDurable(crc: Checksum, d: Disk, store: Store, commitTs: nat, p: Pending)
    requires Durable(crc, d, store, commitTs, None) && !p.logged
    ensures Durable(crc, d, store, commitTs + 1, Some(p))
  {
    hide DiskOk, StoreOk, CommitsOk, SameLatest, KeysFit;
  }

  lemma AppendDurable(crc: Checksum, d: Disk, m: Mem)
    requires Isolated(m) && m.pending.Some? && !m.pending.value.logged
    requires Durable(crc, d, m.store, m.commitTs, m.pending)
    ensures var p := m.pending.value;
            var c := Commit(p.ts, p.ops);
            Durable(crc, d.(wal := d.wal + RecordBytes(crc, c), logged := d.logged + [c]), m.store, m.commitTs,
                    Some(p.(logged := true)))
  {
    hide Isolated, DiskOk, StoreOk, CommitsOk, SameLatest, KeysFit, PendingOk, RecordBytes, ApplyAll, ApplyOps;
    PendingTs(m);
    if d.intact {
      AppendDisk(crc, d.snapshot, d.wal, d.base, d.baseTs, d.logged, m.pending.value, m.store);
    }
  }

  lemma FailDurable(crc: Checksum, d: Disk, store: Store, commitTs: nat, pending: Option<Pending>, wal: seq<Byte>)
    requires Durable(crc, d, store, commitTs, pending) && pending.Some?
    requires commitTs >= 1
    ensures Durable(crc, d.(wal := wal, intact := false), store, commitTs, None)
  {
    hide StoreOk, SameLatest, KeysFit, LogOk;
  }

  lemma PublishDurable(crc: Checksum, d: Disk, m: Mem)
    requires Isolated(m) && m.pending.Some? && m.pending.value.logged
    requires Durable(crc, d, m.store, m.commitTs, m.pending)
    ensures Durable(crc, d, ApplyOps(m.store, m.pending.value.ts, m.pending.value.ops), m.commitTs, None)
  {
    hide Isolated, DiskOk, StoreOk, CommitsOk, SameLatest, KeysFit, ApplyAll, ApplyOps;
    PendingTs(m);
  }

  lemma {:induction false} SnapshotStep(crc: Checksum, d: Disk, m: Mem, es: seq<Entry>)
    requires Isolated(m) && m.pending == None && Durable(crc, d, m.store, m.commitTs, None)
    requires Lists(es, m.store) && |es| < U32_LIMIT && forall i :: 0 <= i < |es| ==> |es[i].value| <= VALUE_SIZE
    ensures Durable(crc, d.(snapshot := Some(SnapshotBytes(m.commitTs, es)), base := StoreOf(es, m.commitTs),
                            baseTs := m.commitTs), m.store, m.commitTs, None)
    ensures ParseSnapshot(SnapshotBytes(m.commitTs, es)) == Ok((StoreOf(es, m.commitTs), m.commitTs))
  {
    hide StoreOk, DoneOk, TxnsOk, SameLatest, StoreOf, Lists, SnapshotBytes, ParseSnapshot, Log, RecordFits, ApplyAll,
         KeysFit;
    EntriesFit(es, m.store);
    SnapshotInverts(m.commitTs, es);
    StoreOfNonempty(es, m.commitTs);
    SnapshotCovers(es, m.store, m.commitTs, []);
    ApplyNone(StoreOf(es, m.commitTs), m.commitTs, []);
    if d.intact {
      SnapshotCovers(es, m.store, m.commitTs, d.logged);
    }
  }

  lemma TruncateStep(crc: Checksum, d: Disk, store: Store, commitTs: nat)
    requires Durable(crc, d, store, commitTs, None) && d.baseTs == commitTs
    ensures Durable(crc, d.(wal := [], logged := [], intact := true), store, commitTs, None)
  {
    hide StoreOk, SameLatest, ParseSnapshot, RecordFits, KeysFit;
    assert ApplyAll(d.base, d.baseTs, []) == d.base;
  }

  lemma CrashStep(crc: Checksum, d: Disk, m: Mem, n: nat)
    requires Isolated(m) && Durable(crc, d, m.store, m.commitTs, m.pending) && d.intact
    requires n > 0 ==> m.pending.Some? && !m.pending.value.logged
                       && n <= |RecordBytes(crc, Commit(m.pending.value.ts, m.pending.value.ops))|
    ensures d.snapshot == None ==> d.base == map[] && d.baseTs == 0
    ensures d.snapshot.Some? ==> ParseSnapshot(d.snapshot.value) == Ok((d.base, d.baseTs))
    ensures var bytes := if n > 0 then d.wal + RecordBytes(crc, Commit(m.pending.value.ts, m.pending.value.ops))[..n]
                         else d.wal;
            var cs := SurvivingCommits(m.pending, crc, n, d.logged);
            var (out, maxTs) := (ApplyAll(d.base, d.baseTs, cs), MaxTs(d.baseTs, cs));
            && Scan(crc, bytes) == (cs, |Log(crc, cs)|)
            && bytes[..|Log(crc, cs)|] == Log(crc, cs)
            && StoreOk(out, maxTs)
            && Isolated(Mem(out, maxTs, None, map[], m.nextId, map[], map[], []))
            && Durable(crc, d.(wal := Log(crc, cs), logged := cs), out, maxTs, None)
            && Recovers(m.store, m.pending, Survives(m.pending, crc, n), out)
  {
    hide Isolated, StoreOk, ParseSnapshot, ApplyAll, ApplyOps, Log, Scan, RecordBytes, Recovers, Survives,
         SurvivingCommits, RecordFits, KeysFit, CommitsOk, PendingOk, Distinct;
    PendingTs(m);
    IsolatedTs(m);
    SurvivingScan(m.pending, crc, n, d.logged, m.commitTs, m.store);
    SurvivingLatest(m.pending, crc, n, d.logged, d.base, d.baseTs, m.store, m.commitTs);
    var cs := SurvivingCommits(m.pending, crc, n, d.logged);
    RecoveredStoreOk(d.base, d.baseTs, cs, m.commitTs);
    CommitsFit(cs);
    RecoveredKeysFit(d.base, d.baseTs, cs);
    MaxBounds(d.base, d.baseTs, cs, m.commitTs);
    NothingNew(d.base, d.baseTs, cs, m.commitTs);
    FreshIsolation(ApplyAll(d.base, d.baseTs, cs), MaxTs(d.baseTs, cs), m.nextId);
  }
}
