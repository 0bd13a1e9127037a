/**
 * Secondary indexes across a restart: commits go to the posting log and to the index manager, and
 * recovery rebuilds the manager from its definitions and the log
 * (src/embedded_compute.rs, src/embedded_compute_recovery.rs).
 */
module IndexRecovery {
  import opened Bytes
  import opened Params
  import opened KeyOrder
  import opened SecondaryIndex
  import opened IndexHeld
  import opened IndexManager
  import opened PostingPage
  import opened PostingLog

  /** The definitions alone, as the catalog page has them. */
  function Emptied(ix: Indexes): Indexes {
    map n | n in ix :: Index(ix[n].offset, ix[n].len, map[])
  }

  lemma SameEmptied(a: Indexes, b: Indexes)
    requires SameDefs(a, b)
    ensures Emptied(a) == Emptied(b)
  {
  }

  /** Replaying the log over the bare definitions gives the manager's indexes. */
  ghost predicate Joined(manager: SecondaryIndexManager, log: PostingLog)
    reads manager, log
  {
    && manager.Tracked() && log.Valid()
    && ApplyRecs(Emptied(manager.indexes), log.Contents()) == manager.indexes
  }

  /** Freshly created indexes and an empty log. */
  lemma StartsJoined(manager: SecondaryIndexManager, log: PostingLog)
    requires manager.Tracked() && log.Valid() && log.Contents() == []
    requires forall n :: n in manager.indexes ==> manager.indexes[n].postings == map[]
    ensures Joined(manager, log)
  {
    assert Emptied(manager.indexes) == manager.indexes;
  }

  /**
   * A commit plans its writes against the tree, logs the mutations and applies them, or, if one
   * cannot be logged, changes nothing. The indexes then agree with the rows exactly when the commit
   * did not put a row back over its tombstone with the slice it had.
   */
  method Commit(manager: SecondaryIndexManager, log: PostingLog, tree: Tree, c: nat, ws: seq<Write>)
    returns (ok: bool, held: Tree)
    requires Joined(manager, log) && TreeFits(tree) && Agrees(tree, manager.cur)
    requires manager.next <= c < U64_LIMIT && WritesFit(ws) && forall i :: 0 <= i < |ws| ==> |ws[i].pk| == KEY_SIZE
    requires log.next + |ws| * (2 * |manager.indexes|) + 2 < U64_LIMIT
    modifies manager, log
    ensures Joined(manager, log) && TreeFits(held) && Agrees(held, manager.cur)
    ensures ok <==> forall n :: n in old(manager.indexes) && SliceTouched(old(manager.indexes)[n], tree, ws) ==>
                      Loggable(n, old(manager.indexes)[n])
    ensures SameDefs(manager.indexes, old(manager.indexes))
    ensures log.next <= old(log.next) + |ws| * (2 * |old(manager.indexes)|) + 1
    ensures ok ==>
              && held == HeldAfter(tree, ws) && manager.next == c + 1 && manager.cur == After(old(manager.cur), ws)
              && manager.rows == Committed(old(manager.rows), old(manager.cur), c, ws)
    ensures ok && old(manager.Valid()) ==>
              && (manager.Valid() <==> NoneMissing(old(manager.indexes), tree, ws))
              && RightBut(manager.indexes, old(manager.indexes), c, old(manager.rows), manager.cur, tree, ws)
    ensures !ok ==>
              && held == tree && manager.next == old(manager.next) && manager.cur == old(manager.cur)
              && manager.rows == old(manager.rows) && manager.indexes == old(manager.indexes)
  {
    hide Good, Latest, RowsBefore, Committed, PksFit, AllFit, ChainOk, ApplyRecs, ApplyAll, Flat, Covers, After,
         Bounded, Planned, Shaped, Loggable, Storable, SliceTouched, Names, HeldAfter, TreeFits, Agrees, CurFits,
         NoneMissing, RightBut, SameDefs, Emptied;
    ghost var (ix, rows, cur) := (manager.indexes, manager.rows, manager.cur);
    var ms, names, after := manager.PlanHeld(ws, tree);
    PlannedCount(ix, names, tree, ws, 2 * |ix|);
    PlannedShape(ix, names, tree, ws);
    LoggableRecords(ix, c, ms);
    AllPlannedNames(ix, names, tree, ws);
    KeepsDefs(ix);
    ghost var recs := log.Contents();
    ok := log.Append(c, ms);
    held := tree;
    if ok {
      ApplyRecsConcat(Emptied(ix), recs, Tagged(c, ms));
      ReplayIsApply(ix, c, ms);
      CommitTracks(ix, manager.next, c, rows, cur, ws, ms);
      if manager.Valid() {
        GoodLater(ix, manager.next, c, rows, cur);
        CommitLeaves(ix, c, names, rows, cur, tree, ws);
        CommitGoodExactly(ix, c, names, rows, cur, tree, ws);
      }
      HeldAfterOk(tree, cur, ws);
      manager.ApplyCommit(c, ms);
      SameEmptied(manager.indexes, ix);
      manager.rows, manager.cur, manager.next := Committed(rows, cur, c, ws), After(cur, ws), c + 1;
      held := after;
    }
  }

  lemma {:induction false} AllPlannedNames(ix: Indexes, names: seq<Name>, tree: Tree, ws: seq<Write>)
    requires AllFit(ix) && Covers(names, ix) && TreeFits(tree) && WritesFit(ws)
    ensures forall n :: Names(Planned(ix, names, tree, ws), n) <==> n in ix && SliceTouched(ix[n], tree, ws)
  {
    forall n ensures Names(Planned(ix, names, tree, ws), n) <==> n in ix && SliceTouched(ix[n], tree, ws) {
      PlannedNames(ix, names, tree, ws, n);
    }
  }

  lemma KeepsDefs(ix: Indexes)
    ensures SameDefs(ix, ix)
  {
  }

  lemma {:induction false} CommitTracks(ix: Indexes, next: nat, c: nat, rows: Rows, cur: map<Key, Option<Value>>,
                                        ws: seq<Write>,
                                        ms: seq<Mutation>)
    requires AllFit(ix) && PksFit(ix) && Bounded(ix, next) && Latest(rows, cur) && RowsBefore(rows, next) && next <= c
    requires CurFits(cur) && WritesFit(ws) && forall i :: 0 <= i < |ms| ==> |ms[i].pk| == KEY_SIZE
    ensures var ix2 := ApplyAll(ix, c, ms);
            && SameDefs(ix2, ix) && AllFit(ix2) && PksFit(ix2) && Bounded(ix2, c + 1) && CurFits(After(cur, ws))
    ensures Latest(Committed(rows, cur, c, ws), After(cur, ws)) && RowsBefore(Committed(rows, cur, c, ws), c + 1)
  {
    hide PksFit, Latest, ApplyAll, Committed, Bounded, After, SameDefs, CurFits, AllFit;
    BoundedLater(ix, next, c);
    ApplyBounded(ix, c, ms);
    BoundedLater(ApplyAll(ix, c, ms), c, c + 1);
    SameDefsFit(ApplyAll(ix, c, ms), ix);
    ApplyPks(ix, c, ms);
    AfterFits(cur, ws);
    LatestNext(rows, cur, c, ws);
  }

  /** A record of this index fits a page of the log. */
  ghost predicate Loggable(n: Name, x: Index) {
    n != [] && OFF_DATA + 13 + |n| + x.len + KEY_SIZE <= PAGE_SIZE
  }

  ghost predicate AllLoggable(ix: Indexes) {
    forall n :: n in ix ==> Loggable(n, ix[n])
  }

  ghost predicate Shaped(m: Mutation, defs: Indexes) {
    m.index in defs && |m.skey| == defs[m.index].len
  }

  lemma LoggableRecords(defs: Indexes, c: nat, ms: seq<Mutation>)
    requires c < U64_LIMIT && forall m :: m in ms ==> Shaped(m, defs)
    requires forall i :: 0 <= i < |ms| ==> |ms[i].pk| == KEY_SIZE
    ensures (forall i :: 0 <= i < |ms| ==> Storable(Rec(c, ms[i]))) <==>
              forall n :: Names(ms, n) ==> n in defs && Loggable(n, defs[n])
  {
    forall i | 0 <= i < |ms|
      ensures Names(ms, ms[i].index) && ms[i].index in defs
      ensures Storable(Rec(c, ms[i])) <==> Loggable(ms[i].index, defs[ms[i].index])
    {
      assert ms[i] in ms && Shaped(ms[i], defs);
      assert |RecBytes(Rec(c, ms[i]))| == 13 + |ms[i].index| + |ms[i].skey| + |ms[i].pk|;
    }
    forall n | Names(ms, n) ensures exists i :: 0 <= i < |ms| && ms[i].index == n {
      var m :| m in ms && m.index == n;
    }
  }

  lemma {:induction false} PlanShape(defs: Indexes, names: seq<Name>, pk: Key, was: Option<Value>, now: Option<Value>)
    requires (forall n :: n in names ==> n in defs && IndexFits(defs[n])) && ValueFits(was) && ValueFits(now)
    ensures forall m :: m in Plan(defs, names, pk, was, now) ==> Shaped(m, defs)
  {
    if names != [] {
      PlanShape(defs, names[..|names| - 1], pk, was, now);
    }
  }

  lemma {:induction false} PlannedShape(defs: Indexes, names: seq<Name>, tree: Tree, ws: seq<Write>)
    requires AllFit(defs) && Covers(names, defs) && TreeFits(tree) && WritesFit(ws)
    ensures forall m :: m in Planned(defs, names, tree, ws) ==> Shaped(m, defs)
  {
    hide Plan, HeldAfter, Shaped, TreeFits;
    if ws != [] {
      var (less, w) := (ws[..|ws| - 1], ws[|ws| - 1]);
      PlannedShape(defs, names, tree, less);
      HeldFits(tree, less);
      OldFits(HeldAfter(tree, less), w.pk);
      PlanShape(defs, names, w.pk, OldOf(HeldAfter(tree, less), w.pk), w.value);
    }
  }

  lemma {:induction false} PlanCount(defs: Indexes, names: seq<Name>, pk: Key, was: Option<Value>, now: Option<Value>)
    requires (forall n :: n in names ==> n in defs && IndexFits(defs[n])) && ValueFits(was) && ValueFits(now)
    ensures |Plan(defs, names, pk, was, now)| <= 2 * |names|
  {
    if names != [] {
      PlanCount(defs, names[..|names| - 1], pk, was, now);
    }
  }

  lemma {:induction false} NamesCount(names: seq<Name>, keys: set<Name>)
    requires DistinctNames(names) && forall n :: n in names <==> n in keys
    ensures |names| == |keys|
    decreases |names|
  {
    if names == [] {
      assert keys == {};
    } else {
      var last := names[|names| - 1];
      forall n ensures n in names[..|names| - 1] <==> n in keys - {last} {
      }
      NamesCount(names[..|names| - 1], keys - {last});
    }
  }

  lemma Times(a: nat, n: nat)
    ensures (a + 1) * n == a * n + n
  {
  }

  lemma {:induction false} PlannedCount(defs: Indexes, names: seq<Name>, tree: Tree, ws: seq<Write>, n: nat)
    requires AllFit(defs) && Covers(names, defs) && TreeFits(tree) && WritesFit(ws) && n == 2 * |defs|
    ensures |Planned(defs, names, tree, ws)| <= |ws| * n
  {
    hide Plan, HeldAfter, TreeFits;
    assert |names| == |defs.Keys| by { NamesCount(names, defs.Keys); }
    if ws != [] {
      var (less, w) := (ws[..|ws| - 1], ws[|ws| - 1]);
      PlannedCount(defs, names, tree, less, n);
      HeldFits(tree, less);
      OldFits(HeldAfter(tree, less), w.pk);
      PlanCount(defs, names, w.pk, OldOf(HeldAfter(tree, less), w.pk), w.value);
      Times(|less|, n);
    }
  }

  /**
   * After a restart the manager rebuilt from its definitions and the log has the same indexes for the
   * same committed rows, so it agrees with them exactly when the one before did.
   */
  method Recover(defs: Indexes, log: PostingLog, ghost before: SecondaryIndexManager)
    returns (m: SecondaryIndexManager)
    requires Joined(before, log) && defs == Emptied(before.indexes)
    ensures fresh(m) && Joined(m, log) && m.indexes == before.indexes && m.rows == before.rows && m.cur == before.cur
    ensures m.next == before.next && (m.Valid() <==> before.Valid())
  {
    hide Good, Latest, RowsBefore, PksFit, AllFit, ChainOk, ApplyOne, Flat, Bounded, CurFits;
    m := new SecondaryIndexManager();
    m.indexes := defs;
    var r := log.Replay();
    var recs, i := r.value, 0;
    assert recs[..0] == [];
    while i < |recs|
      invariant 0 <= i <= |recs| && fresh(m) && m.indexes == ApplyRecs(defs, recs[..i])
    {
      assert recs[..i + 1][..i] == recs[..i];
      ApplySingle(m.indexes, recs[i].lsn, [recs[i].m]);
      m.ApplyCommit(recs[i].lsn, [recs[i].m]);
      i := i + 1;
    }
    assert recs[..i] == recs;
    m.rows, m.cur, m.next := before.rows, before.cur, before.next;
  }

  /** A query after a restart. */
  method QueryAcrossRestart(manager: SecondaryIndexManager, log: PostingLog, name: Name, s: seq<Byte>, r: nat,
                            limit: nat)
    returns (q: Result<seq<Key>, IndexManager.Error>)
    requires Joined(manager, log)
    ensures limit > 0 && name in manager.indexes ==> q.Ok? && Posted(q.value, manager.indexes[name], s, r, limit)
    ensures limit > 0 && name in manager.indexes && manager.Valid() ==>
              Answers(q.value, manager.indexes[name], manager.rows, s, r, limit)
  {
    hide Good, Latest, RowsBefore, PksFit, AllFit, ChainOk, ApplyRecs, Answers, Flat, Posted, Bounded, CurFits;
    var m := Recover(Emptied(manager.indexes), log, manager);
    q := m.QueryEqual(name, s, r, limit);
  }

  // ---- A row the index misses ----

  method OneIndex(name: Name) returns (manager: SecondaryIndexManager, log: PostingLog)
    requires 0 < |name| < 1000
    ensures fresh(manager) && fresh(log) && manager.Valid() && Joined(manager, log) && AllLoggable(manager.indexes)
    ensures manager.indexes == map[name := Index(0, 1, map[])] && manager.rows == map[] && manager.cur == map[]
    ensures manager.next == 0 && log.next == BASE_PAGE_ID
  {
    hide Good, Latest, RowsBefore, PksFit, ChainOk, ApplyRecs, Flat, Bounded, CurFits;
    manager := new SecondaryIndexManager();
    log := new PostingLog();
    var e := manager.CreateIndex(name, 0, 1);
    StartsJoined(manager, log);
  }

  lemma {:induction false} FirstPut(x: Index, k: Key, v: Value)
    requires IndexFits(x) && |v| == VALUE_SIZE
    ensures WritesFit([Write(k, Some(v))]) && TreeFits(map[]) && forall p :: !Missing(x, map[], [Write(k, Some(v))], p)
    ensures HeldAfter(map[], [Write(k, Some(v))]) == map[k := Held(v, false)]
  {
    assert [Write(k, Some(v))][..0] == [];
  }

  lemma {:induction false} ThenDelete(x: Index, k: Key, v: Value)
    requires IndexFits(x) && |v| == VALUE_SIZE
    ensures var (tree, ws) := (map[k := Held(v, false)], [Write(k, None)]);
            && WritesFit(ws) && TreeFits(tree) && (forall p :: !Missing(x, tree, ws, p))
            && HeldAfter(tree, ws) == map[k := Held(v, true)]
  {
    assert [Write(k, None)][..0] == [];
  }

  lemma {:induction false} ThenPutBack(x: Index, k: Key, v: Value)
    requires IndexFits(x) && |v| == VALUE_SIZE
    ensures var (tree, ws) := (map[k := Held(v, true)], [Write(k, Some(v))]);
            && WritesFit(ws) && TreeFits(tree) && (forall p :: Missing(x, tree, ws, p) <==> p == k)
            && HeldAfter(tree, ws) == map[k := Held(v, false)]
  {
    assert [Write(k, Some(v))][..0] == [];
  }

  // An index of one byte, and one row put.
  method PutOnce(name: Name, k: Key, v: Value)
    returns (manager: SecondaryIndexManager, log: PostingLog, tree: Tree)
    requires 0 < |name| < 1000 && |k| == KEY_SIZE && |v| == VALUE_SIZE
    ensures fresh(manager) && fresh(log) && manager.Valid() && Joined(manager, log) && AllLoggable(manager.indexes)
    ensures manager.indexes.Keys == {name} && manager.indexes[name].offset == 0 && manager.indexes[name].len == 1
    ensures TreeFits(tree) && Agrees(tree, manager.cur) && tree == map[k := Held(v, false)]
    ensures manager.next == 2 && log.next <= BASE_PAGE_ID + 3
  {
    hide Good, Latest, RowsBefore, PksFit, ChainOk, ApplyRecs, Flat, Bounded, CurFits, After, Missing, Committed,
         HeldAfter, RightBut;
    manager, log := OneIndex(name);
    ghost var before := manager.indexes;
    FirstPut(before[name], k, v);
    NothingHeld();
    assert NoneMissing(before, map[], [Write(k, Some(v))]);
    var ok: bool;
    ok, tree := Commit(manager, log, map[], 1, [Write(k, Some(v))]);
    SameLoggable(manager.indexes, before);
  }

  // Then deleted: nothing is missed yet.
  method PutAndDelete(name: Name, k: Key, v: Value)
    returns (manager: SecondaryIndexManager, log: PostingLog, tree: Tree)
    requires 0 < |name| < 1000 && |k| == KEY_SIZE && |v| == VALUE_SIZE
    ensures fresh(manager) && fresh(log) && manager.Valid() && Joined(manager, log) && AllLoggable(manager.indexes)
    ensures manager.indexes.Keys == {name} && manager.indexes[name].offset == 0 && manager.indexes[name].len == 1
    ensures TreeFits(tree) && Agrees(tree, manager.cur) && tree == map[k := Held(v, true)]
    ensures manager.next == 3 && log.next <= BASE_PAGE_ID + 6
  {
    hide Good, Latest, RowsBefore, PksFit, ChainOk, ApplyRecs, Flat, Bounded, CurFits, After, Missing, Committed,
         HeldAfter, RightBut;
    manager, log, tree := PutOnce(name, k, v);
    ghost var before := manager.indexes;
    assert |before| == |before.Keys| == 1;
    ThenDelete(before[name], k, v);
    assert NoneMissing(before, tree, [Write(k, None)]);
    var ok: bool;
    ok, tree := Commit(manager, log, tree, 2, [Write(k, None)]);
    SameLoggable(manager.indexes, before);
  }

  lemma NothingHeld()
    ensures TreeFits(map[]) && Agrees(map[], map[])
  {
  }

  lemma SameLoggable(a: Indexes, b: Indexes)
    requires SameDefs(a, b) && AllLoggable(b)
    ensures AllLoggable(a)
  {
  }

  /**
   * A row the index misses: put, deleted and put back with the same value. A scan of the rows finds
   * it, the query does not.
   */
  method MissedRow(name: Name, k: Key, v: Value)
    returns (manager: SecondaryIndexManager, q: Result<seq<Key>, IndexManager.Error>)
    requires 0 < |name| < 1000 && |k| == KEY_SIZE && |v| == VALUE_SIZE
    ensures name in manager.indexes && IsMember(manager.indexes[name], manager.rows, v[..1], 3, k)
    ensures q == Ok([])
  {
    hide Good, Latest, RowsBefore, PksFit, ChainOk, ApplyRecs, Flat, Bounded, CurFits, After, Missing, Committed,
         HeldAfter, MemberAt, RowAt, IsMember;
    var log, tree;
    manager, log, tree := PutAndDelete(name, k, v);
    ghost var (ix, rows, cur, ws) := (manager.indexes, manager.rows, manager.cur, [Write(k, Some(v))]);
    assert |ix| == |ix.Keys| == 1;
    ThenPutBack(ix[name], k, v);
    var ok, held := Commit(manager, log, tree, 3, [Write(k, Some(v))]);
    PutBackSeen(manager.indexes[name], rows, cur, k, v);
    GoneForAll(manager.indexes[name], ix[name], rows, manager.cur, tree, held, k, v);
    q := manager.QueryEqual(name, v[..1], 3, 10);
    SomePosted(q.value, manager.indexes[name], v[..1], 3, 10);
  }

  lemma {:induction false} SomePosted(out: seq<Key>, x: Index, s: seq<Byte>, r: nat, limit: nat)
    requires Posted(out, x, s, r, limit)
    ensures out == [] || exists p :: MemberAt(History(x.postings, s, p), r)
  {
    hide MemberAt, History;
    if out != [] {
      assert MemberAt(History(x.postings, s, out[0]), r);
    }
  }

  lemma PutBackSeen(x: Index, rows: Rows, cur: map<Key, Option<Value>>, k: Key, v: Value)
    requires RowsBefore(rows, 3) && Latest(rows, cur) && x.offset == 0 && x.len == 1 && |v| == VALUE_SIZE
    ensures IsMember(x, Committed(rows, cur, 3, [Write(k, Some(v))]), v[..1], 3, k)
  {
    hide RowsBefore, Latest, Committed, RowAt;
    var ws := [Write(k, Some(v))];
    RowAfterCommit(rows, cur, 3, ws, k, 3);
    assert ws[..0] == [];
    assert Live(After(cur, ws), k) == Some(v);
  }

  lemma {:induction false} GoneForAll(x: Index, def: Index, rows: Rows, cur: map<Key, Option<Value>>, tree: Tree,
                                      held: Tree, k: Key,
                                      v: Value)
    requires IndexFits(def) && x.offset == def.offset == 0 && x.len == def.len == 1 && |v| == VALUE_SIZE
    requires TreeFits(tree) && WritesFit([Write(k, Some(v))])
    requires forall p :: Missing(def, tree, [Write(k, Some(v))], p) <==> p == k
    requires IndexBut(x, def, 3, rows, cur, tree, [Write(k, Some(v))])
    requires Agrees(held, cur) && held == map[k := Held(v, false)]
    ensures forall p :: !MemberAt(History(x.postings, v[..1], p), 3)
  {
    hide MemberAt, RowAt, Missing, History;
    forall p ensures !MemberAt(History(x.postings, v[..1], p), 3) {
      assert PostingBut(x, 3, rows, cur, v[..1], p, Missing(def, tree, [Write(k, Some(v))], p));
    }
  }
}
