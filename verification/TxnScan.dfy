/** Range scans of a txn_kv transaction: the store as of its read timestamp merged with its own writes. */
module TxnScan {
  import opened Bytes
  import opened Params
  import opened KeyOrder
  import opened TxnCodec
  import opened TxnStore
  import opened TxnState
  import opened TxnIsolation
  import opened TxnManager

  type Row = (Key, Value)

  // Keys of one length compare as the numbers they spell: see KeyOrder.LexIsNumeric.
  predicate InRange(k: Key, start: Key, end: Key) {
    |k| == KEY_SIZE && Num(start) <= Num(k) < Num(end)
  }

  lemma {:induction false} RangeIsLex(k: Key, start: Key, end: Key)
    requires |start| == |end| == KEY_SIZE
    ensures InRange(k, start, end) <==> |k| == KEY_SIZE && !LexLess(k, start) && LexLess(k, end)
  {
    hide Num, LexLess;
    if |k| == KEY_SIZE {
      LexIsNumeric(k, start);
      LexIsNumeric(k, end);
    }
  }

  /** A row of the transaction's view, from `start` on and before `end` in byte order. */
  ghost predicate Sees(store: Store, txn: Txn, start: Key, end: Key, k: Key, v: Value) {
    |k| == KEY_SIZE && !LexLess(k, start) && LexLess(k, end) && View(store, txn, k) == Some(v)
  }

  ghost predicate InKeyOrder(out: seq<Row>) {
    forall i, j :: 0 <= i < j < |out| ==> Num(out[i].0) < Num(out[j].0)
  }

  ghost predicate Holds(merged: map<Key, Value>, store: Store, txn: Txn, start: Key, end: Key) {
    && (forall k :: k in merged ==> Sees(store, txn, start, end, k, merged[k]))
    && (forall k, v :: Sees(store, txn, start, end, k, v) ==> k in merged)
  }

  /**
   * `out` holds rows the transaction sees in the range, in key order; a row it sees and that is
   * not in `out` comes after all of `out`, and there is such a row only if `out` reached the limit.
   */
  ghost predicate IsScan(out: seq<Row>, store: Store, txn: Txn, start: Key, end: Key, limit: nat) {
    && |out| <= limit && InKeyOrder(out)
    && (forall i :: 0 <= i < |out| ==> Sees(store, txn, start, end, out[i].0, out[i].1))
    && (forall k, v :: Sees(store, txn, start, end, k, v) ==> Placed(out, limit, k, v))
  }

  ghost predicate Placed(out: seq<Row>, limit: nat, k: Key, v: Value) {
    (k, v) in out || (|out| == limit && forall i :: 0 <= i < |out| ==> Num(out[i].0) < Num(k))
  }

  method MergeStore(store: Store, txn: Txn, start: Key, end: Key) returns (merged: map<Key, Value>)
    requires KeysFit(store)
    ensures forall k :: k in merged <==> InRange(k, start, end) && ValueAt(VersionsOf(store, k), txn.readTs).Some?
    ensures forall k :: k in merged ==> ValueAt(VersionsOf(store, k), txn.readTs) == Some(merged[k])
  {
    hide ValueAt, Num;
    NoVersionsRead(store, txn.readTs);
    merged := map[];
    var todo := store.Keys;
    while todo != {}
      invariant todo <= store.Keys
      invariant forall k :: k in merged ==> ValueAt(VersionsOf(store, k), txn.readTs) == Some(merged[k])
      invariant forall k :: k in merged <==>
                  k !in todo && InRange(k, start, end) && ValueAt(VersionsOf(store, k), txn.readTs).Some?
    {
      var k :| k in todo;
      var v := ValueAt(VersionsOf(store, k), txn.readTs);
      if InRange(k, start, end) && v.Some? {
        merged := merged[k := v.value];
      }
      todo := todo - {k};
    }
  }

  lemma NoVersionsRead(store: Store, ts: nat)
    ensures forall k :: k !in store ==> ValueAt(VersionsOf(store, k), ts) == None
  {
  }

  method MergeWrites(base: map<Key, Value>, store: Store, txn: Txn, start: Key, end: Key)
    returns (merged: map<Key, Value>)
    requires |start| == |end| == KEY_SIZE
    requires forall k :: k in base <==> InRange(k, start, end) && ValueAt(VersionsOf(store, k), txn.readTs).Some?
    requires forall k :: k in base ==> ValueAt(VersionsOf(store, k), txn.readTs) == Some(base[k])
    ensures Holds(merged, store, txn, start, end)
  {
    hide ValueAt, Num, InRange, LexLess;
    forall k ensures InRange(k, start, end) <==> |k| == KEY_SIZE && !LexLess(k, start) && LexLess(k, end) {
      RangeIsLex(k, start, end);
    }
    merged := base;
    var todo := txn.writes.Keys;
    while todo != {}
      invariant todo <= txn.writes.Keys
      invariant forall k :: k in merged <==>
                  InRange(k, start, end) && Overlay(store, txn, todo, k).Some?
      invariant forall k :: k in merged ==> Overlay(store, txn, todo, k) == Some(merged[k])
    {
      var k :| k in todo;
      if InRange(k, start, end) {
        match txn.writes[k] {
          case Some(v) => merged := merged[k := v];
          case None => merged := merged - {k};
        }
      }
      todo := todo - {k};
    }
  }

  ghost function Overlay(store: Store, txn: Txn, todo: set<Key>, k: Key): Option<Value> {
    if k in txn.writes && k !in todo then txn.writes[k] else ValueAt(VersionsOf(store, k), txn.readTs)
  }

  method Take(merged: map<Key, Value>, limit: nat) returns (out: seq<Row>)
    requires forall k :: k in merged ==> |k| == KEY_SIZE
    ensures |out| <= limit && InKeyOrder(out)
    ensures forall i :: 0 <= i < |out| ==> out[i].0 in merged && merged[out[i].0] == out[i].1
    ensures forall k :: k in merged ==> Placed(out, limit, k, merged[k])
  {
    hide Num;
    out := [];
    var left := merged.Keys;
    while left != {} && |out| < limit
      invariant |out| <= limit && left <= merged.Keys && InKeyOrder(out)
      invariant forall i :: 0 <= i < |out| ==> out[i].0 in merged && merged[out[i].0] == out[i].1
      invariant forall i, k :: 0 <= i < |out| && k in left ==> Num(out[i].0) < Num(k)
      invariant forall k :: k in merged && k !in left ==> (k, merged[k]) in out
      decreases left
    {
      var k := Smallest(left);
      forall j | j in left && j != k ensures Num(k) < Num(j) {
        LexIsNumeric(j, k);
      }
      ghost var before := out;
      out := out + [(k, merged[k])];
      assert out[|before|] == (k, merged[k]);
      assert forall x :: x in before ==> x in out;
      left := left - {k};
    }
  }

  /** The scan returns exactly what the transaction sees in the range, in key order, up to the limit. */
  method Scan(store: Store, txn: Txn, start: seq<Byte>, end: seq<Byte>, limit: nat)
    returns (r: Result<seq<Row>, TxnError>)
    requires KeysFit(store) && WritesFit(txn.writes)
    requires |start| == KEY_SIZE && |end| == KEY_SIZE ==> Num(start) <= Num(end)
    ensures limit == 0 ==> r == Ok([])
    ensures limit > 0 && |start| != KEY_SIZE ==> r == Err(InvalidKeySize(|start|))
    ensures limit > 0 && |start| == KEY_SIZE && |end| != KEY_SIZE ==> r == Err(InvalidKeySize(|end|))
    ensures limit > 0 && |start| == KEY_SIZE && |end| == KEY_SIZE ==>
              r.Ok? && IsScan(r.value, store, txn, start, end, limit)
  {
    hide Num, ValueAt, View, InKeyOrder, Placed, LexLess;
    if limit == 0 {
      return Ok([]);
    }
    if |start| != KEY_SIZE {
      return Err(InvalidKeySize(|start|));
    }
    if |end| != KEY_SIZE {
      return Err(InvalidKeySize(|end|));
    }
    if start == end {
      NothingInOrder();
      return Ok([]);
    }
    var base := MergeStore(store, txn, start, end);
    var merged := MergeWrites(base, store, txn, start, end);
    var out := Take(merged, limit);
    r := Ok(out);
  }

  lemma NothingInOrder()
    ensures InKeyOrder([])
  {
  }

  ghost predicate SameView(store: Store, store2: Store, txn: Txn) {
    forall k :: View(store, txn, k) == View(store2, txn, k)
  }

  lemma SameSees(store: Store, store2: Store, txn: Txn, start: Key, end: Key, k: Key, v: Value)
    requires SameView(store, store2, txn)
    ensures Sees(store, txn, start, end, k, v) <==> Sees(store2, txn, start, end, k, v)
  {
    assert View(store, txn, k) == View(store2, txn, k);
  }

  /** Scans repeat: over stores a transaction sees alike, the same scan gives the same rows. */
  lemma {:induction false} ScansAgree(a: seq<Row>, b: seq<Row>, store: Store, store2: Store, txn: Txn,
                                      start: Key, end: Key, limit: nat, n: nat)
    requires IsScan(a, store, txn, start, end, limit) && IsScan(b, store2, txn, start, end, limit)
    requires SameView(store, store2, txn) && n <= |a|
    ensures n <= |b| && a[..n] == b[..n]
    decreases n
  {
    hide Num, View, SameView, LexLess;
    if n > 0 {
      ScansAgree(a, b, store, store2, txn, start, end, limit, n - 1);
      var (i, x) := (n - 1, a[n - 1]);
      SameSees(store, store2, txn, start, end, x.0, x.1);
      assert Sees(store, txn, start, end, x.0, x.1) && Placed(b, limit, x.0, x.1);
      NextRow(a, b, i, limit);
      var y := b[i];
      SameSees(store, store2, txn, start, end, y.0, y.1);
      assert Sees(store2, txn, start, end, y.0, y.1) && Placed(a, limit, y.0, y.1);
      SameNext(a, b, i, limit);
      assert a[..n] == a[..i] + [a[i]] && b[..n] == b[..i] + [b[i]];
    }
  }

  /**
   * Two scans by one transaction in any run give the same rows, if it wrote nothing in between and
   * its reads are repeatable.
   */
  lemma RunScansAgree(tr: seq<Mem>, id: nat, j: nat, a: seq<Row>, b: seq<Row>, start: Key, end: Key, limit: nat)
    requires Run(tr) && Isolated(tr[0]) && id in tr[0].txns && Repeatable(tr[0], id)
    requires j < |tr| && id in tr[j].txns && tr[j].txns[id].writes == tr[0].txns[id].writes
    requires IsScan(a, tr[0].store, tr[0].txns[id], start, end, limit)
    requires IsScan(b, tr[j].store, tr[j].txns[id], start, end, limit)
    ensures a == b
  {
    hide Isolated, Run, Repeatable, IsScan, Carries;
    var (m, m2) := (tr[0], tr[j]);
    RunCarries(tr, id, j);
    CarriedRead(m, m2, id);
    forall k ensures View(m.store, m.txns[id], k) == View(m2.store, m.txns[id], k) {
      if k !in m.txns[id].writes {
        RepeatableRead(tr, id, j, k);
      }
    }
    SameTxnView(m2.store, m.txns[id], m2.txns[id]);
    SameTxnScan(b, m2.store, m.txns[id], m2.txns[id], start, end, limit);
    ScansAgree(a, b, m.store, m2.store, m.txns[id], start, end, limit, |a|);
    ScansAgree(b, a, m2.store, m.store, m.txns[id], start, end, limit, |b|);
  }

  lemma CarriedRead(m: Mem, m2: Mem, id: nat)
    requires Carries(m, m2, id)
    ensures id in m.txns && id in m2.txns && m.txns[id].readTs == m2.txns[id].readTs
  {
  }

  lemma SameTxnView(store: Store, txn: Txn, txn2: Txn)
    requires txn2.readTs == txn.readTs && txn2.writes == txn.writes
    ensures forall k :: View(store, txn2, k) == View(store, txn, k)
  {
  }

  lemma SameTxnScan(b: seq<Row>, store: Store, txn: Txn, txn2: Txn, start: Key, end: Key, limit: nat)
    requires IsScan(b, store, txn2, start, end, limit)
    requires forall k :: View(store, txn2, k) == View(store, txn, k)
    ensures IsScan(b, store, txn, start, end, limit)
  {
    hide View, InKeyOrder, Placed, InRange;
    forall k, v ensures Sees(store, txn, start, end, k, v) <==> Sees(store, txn2, start, end, k, v) {
      assert View(store, txn2, k) == View(store, txn, k);
    }
  }

  lemma NextRow(a: seq<Row>, b: seq<Row>, i: nat, limit: nat)
    requires i < |a| <= limit && i <= |b| && a[..i] == b[..i] && InKeyOrder(a)
    requires Placed(b, limit, a[i].0, a[i].1)
    ensures i < |b|
  {
    hide Num;
    forall j | 0 <= j < i ensures b[j] != a[i] {
      assert a[..i][j] == a[j] && b[..i][j] == b[j];
    }
  }

  lemma SameNext(a: seq<Row>, b: seq<Row>, i: nat, limit: nat)
    requires i < |a| <= limit && i < |b| <= limit && a[..i] == b[..i] && InKeyOrder(a) && InKeyOrder(b)
    requires Placed(b, limit, a[i].0, a[i].1) && Placed(a, limit, b[i].0, b[i].1)
    ensures a[i] == b[i]
  {
    hide Num;
    forall j | 0 <= j < i ensures b[j] == a[j] && b[j] != a[i] && a[j] != b[i] {
      assert a[..i][j] == a[j] && b[..i][j] == b[j];
    }
    NotBefore(a, b, i, limit);
    NotBefore(b, a, i, limit);
  }

  lemma NotBefore(a: seq<Row>, b: seq<Row>, i: nat, limit: nat)
    requires i < |a| <= limit && i < |b| <= limit && InKeyOrder(a) && InKeyOrder(b)
    requires Placed(b, limit, a[i].0, a[i].1) && forall j :: 0 <= j < i ==> b[j] != a[i]
    ensures a[i] == b[i] || Num(b[i].0) < Num(a[i].0)
  {
    hide Num;
    if (a[i].0, a[i].1) in b {
      var j :| 0 <= j < |b| && b[j] == a[i];
    }
  }
}
