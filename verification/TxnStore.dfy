/** The versioned store of txn_kv, its rebuilding from the log, and its snapshot file. */
module TxnStore {
  import opened Bytes
  import opened Params
  import opened TxnCodec

  datatype Version = Version(ts: nat, value: Option<Value>)

  type Store = map<Key, seq<Version>>

  function VersionsOf(store: Store, k: Key): seq<Version> {
    if k in store then store[k] else []
  }

  function Push(store: Store, k: Key, v: Version): Store {
    store[k := VersionsOf(store, k) + [v]]
  }

  /** The newest version of a list with timestamp at most `ts`, in list order. */
  function ValueAt(vs: seq<Version>, ts: nat): Option<Value> {
    if vs == [] then None
    else if vs[|vs| - 1].ts <= ts then vs[|vs| - 1].value
    else ValueAt(vs[..|vs| - 1], ts)
  }

  function Latest(store: Store, k: Key): Option<Value> {
    var vs := VersionsOf(store, k);
    if vs == [] then None else vs[|vs| - 1].value
  }

  ghost predicate Ascending(vs: seq<Version>) {
    forall i, j :: 0 <= i < j < |vs| ==> vs[i].ts < vs[j].ts
  }

  /** In an ascending list, `ValueAt` is the version valid at `ts`: the last one not after it. */
  lemma {:induction false} ValueAtIsNewest(vs: seq<Version>, ts: nat)
    requires Ascending(vs)
    ensures (forall i :: 0 <= i < |vs| ==> vs[i].ts > ts) ==> ValueAt(vs, ts) == None
    ensures forall i :: 0 <= i < |vs| && vs[i].ts <= ts && (i + 1 < |vs| ==> vs[i + 1].ts > ts)
                        ==> ValueAt(vs, ts) == vs[i].value
  {
    if vs != [] && vs[|vs| - 1].ts > ts {
      var t := vs[..|vs| - 1];
      ValueAtIsNewest(t, ts);
      forall i | 0 <= i < |vs| && vs[i].ts <= ts && (i + 1 < |vs| ==> vs[i + 1].ts > ts)
        ensures ValueAt(vs, ts) == vs[i].value
      {
        assert t[i] == vs[i];
        assert i + 1 < |t| ==> t[i + 1] == vs[i + 1];
      }
    }
  }

  lemma {:induction false} ValueAtStable(vs: seq<Version>, more: seq<Version>, ts: nat)
    requires forall i :: 0 <= i < |more| ==> more[i].ts > ts
    ensures ValueAt(vs + more, ts) == ValueAt(vs, ts)
    decreases |more|
  {
    if more == [] {
      assert vs + more == vs;
    } else {
      ValueAtStable(vs, more[..|more| - 1], ts);
      assert (vs + more)[..|vs + more| - 1] == vs + more[..|more| - 1];
      assert (vs + more)[|vs + more| - 1] == more[|more| - 1];
    }
  }

  // ---- Applying commits ----

  function ApplyOps(store: Store, ts: nat, ops: seq<Op>): Store {
    if ops == [] then store
    else
      var op := ops[|ops| - 1];
      Push(ApplyOps(store, ts, ops[..|ops| - 1]), op.key, Version(ts, op.value))
  }

  function ApplyAll(store: Store, base: nat, cs: seq<Commit>): Store {
    if cs == [] then store
    else
      var (rest, c) := (ApplyAll(store, base, cs[..|cs| - 1]), cs[|cs| - 1]);
      if c.ts > base then ApplyOps(rest, c.ts, c.ops) else rest
  }

  function MaxTs(base: nat, cs: seq<Commit>): (m: nat)
    ensures m >= base
  {
    if cs == [] then base
    else
      var (m, c) := (MaxTs(base, cs[..|cs| - 1]), cs[|cs| - 1]);
      if c.ts > base && c.ts > m then c.ts else m
  }

  /** The replay loop: scans the records and applies those after the snapshot. */
  method ReplayWal(crc: Checksum, data: seq<Byte>, base: Store, baseTs: nat)
    returns (store: Store, maxTs: nat, lastGood: nat)
    ensures var (cs, n) := Scan(crc, data);
            store == ApplyAll(base, baseTs, cs) && maxTs == MaxTs(baseTs, cs) && lastGood == n
  {
    hide ReadRecord, ApplyOps;
    store, maxTs, lastGood := base, baseTs, 0;
    ghost var cs := [];
    assert data[0..] == data;
    assert cs + Scan(crc, data).0 == Scan(crc, data).0;
    while true
      invariant lastGood <= |data|
      invariant store == ApplyAll(base, baseTs, cs) && maxTs == MaxTs(baseTs, cs)
      invariant Scan(crc, data) == (cs + Scan(crc, data[lastGood..]).0, lastGood + Scan(crc, data[lastGood..]).1)
      decreases |data| - lastGood
    {
      var r := ReadRecord(crc, data[lastGood..]);
      if r == None {
        break;
      }
      var (c, n) := r.value;
      ghost var next := cs + [c];
      assert next[..|next| - 1] == cs && next[|next| - 1] == c;
      if c.ts > baseTs {
        store := ApplyOneByOne(store, c);
        if c.ts > maxTs {
          maxTs := c.ts;
        }
      }
      assert data[lastGood..][n..] == data[lastGood + n..];
      assert cs + ([c] + Scan(crc, data[lastGood + n..]).0) == next + Scan(crc, data[lastGood + n..]).0;
      cs := next;
      lastGood := lastGood + n;
    }
    assert cs + [] == cs;
  }

  method ApplyOneByOne(store: Store, c: Commit) returns (out: Store)
    ensures out == ApplyOps(store, c.ts, c.ops)
  {
    out := store;
    var i := 0;
    assert c.ops[..0] == [];
    while i < |c.ops|
      invariant i <= |c.ops| && out == ApplyOps(store, c.ts, c.ops[..i])
    {
      assert c.ops[..i + 1][..i] == c.ops[..i];
      out := Push(out, c.ops[i].key, Version(c.ts, c.ops[i].value));
      i := i + 1;
    }
    assert c.ops[..i] == c.ops;
  }

  // ---- What applying does to one key ----

  ghost predicate Distinct(ops: seq<Op>) {
    forall i, j :: 0 <= i < j < |ops| ==> ops[i].key != ops[j].key
  }

  ghost function Writes(ops: seq<Op>): map<Key, Option<Value>> {
    if ops == [] then map[]
    else Writes(ops[..|ops| - 1])[ops[|ops| - 1].key := ops[|ops| - 1].value]
  }

  lemma {:induction false} WritesKeys(ops: seq<Op>)
    ensures forall k :: k in Writes(ops) <==> exists i :: 0 <= i < |ops| && ops[i].key == k
  {
    if ops != [] {
      WritesKeys(ops[..|ops| - 1]);
    }
  }

  lemma {:induction false} ApplyOpsAt(store: Store, ts: nat, ops: seq<Op>, k: Key)
    requires Distinct(ops)
    ensures VersionsOf(ApplyOps(store, ts, ops), k) ==
            VersionsOf(store, k) + (if k in Writes(ops) then [Version(ts, Writes(ops)[k])] else [])
  {
    if ops == [] {
      assert VersionsOf(store, k) + [] == VersionsOf(store, k);
    } else {
      var n := |ops| - 1;
      ApplyOpsAt(store, ts, ops[..n], k);
      if k == ops[n].key {
        WritesKeys(ops[..n]);
        assert k !in Writes(ops[..n]);
        assert VersionsOf(store, k) + [] == VersionsOf(store, k);
      }
    }
  }
}
