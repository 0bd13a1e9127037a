/** Garbage collection: sweeping rows below the watermark and purging undo segments. */
module MvccGc {
  import opened Bytes
  import opened UndoModel
  import opened MvccState
  import opened MvccWrite
  import opened MvccEnd

  // ---- Sweep ----

  ghost predicate Collectable(rows: Rows, gone: set<Key>, cleared: set<Key>, g: nat) {
    && (forall k :: k in gone ==> k in rows && rows[k].tombstone && rows[k].commitLsn <= g)
    && (forall k :: k in cleared ==> k in rows && !rows[k].tombstone && rows[k].commitLsn <= g)
  }

  ghost function Swept(rows: Rows, gone: set<Key>, cleared: set<Key>): Rows {
    map k | k in rows && k !in gone :: if k in cleared then rows[k].(undo := None) else rows[k]
  }

  ghost function AfterSweep(s: State, g: nat, gone: set<Key>, cleared: set<Key>, lsn: nat): State {
    var rows2 := Swept(s.rows, gone, cleared);
    s.(rows := rows2, nextLsn := lsn, durable := lsn, led := s.led.(low := g, base := rows2))
  }

  lemma SweepBase(s: State, g: nat, gone: set<Key>, cleared: set<Key>)
    requires Inv(s) && s.writer == None && s.led.low <= g
    requires Collectable(s.rows, gone, cleared, g)
    ensures BaseOk(s.pages, s.led.own, g, Swept(s.rows, gone, cleared), s.led.hist)
  {
    hide Chain, SnapsOk, HistoryOk, HistsOk, Partitioned, OwnersOk, WriterOk;
    var rows2 := Swept(s.rows, gone, cleared);
    forall k | k in rows2 ensures CommittedOk(rows2[k], HistOf(s.led.hist, k), s.pages, s.led.own, g) {
      var (row, h) := (s.led.base[k], HistOf(s.led.hist, k));
      assert CommittedOk(row, h, s.pages, s.led.own, s.led.low);
      if row.commitLsn > g {
        ChainKept(s.pages, s.led.own, s.led.low, s.pages, s.led.own, g, row.undo, h[..|h| - 1],
                  row.commitLsn, row.commitLsn);
      }
    }
    forall k | k in s.led.hist && k !in rows2 ensures AbsentOk(s.led.hist[k], g) {
      if k in s.led.base {
        assert CommittedOk(s.led.base[k], HistOf(s.led.hist, k), s.pages, s.led.own, s.led.low);
      }
    }
  }

  /** Sweeping at any watermark no active snapshot is below keeps the invariant, whatever rows it skips. */
  lemma SweepKeeps(s: State, g: nat, gone: set<Key>, cleared: set<Key>, lsn: nat)
    requires Inv(s) && s.writer == None
    requires s.led.low <= g <= s.durable <= lsn && s.nextLsn <= lsn
    requires forall id :: id in s.active ==> g <= s.active[id]
    requires Collectable(s.rows, gone, cleared, g)
    ensures Inv(AfterSweep(s, g, gone, cleared, lsn))
  {
    hide BaseOk, HistoryOk, Partitioned, OwnersOk, Swept;
    SweepBase(s, g, gone, cleared);
    var s2 := AfterSweep(s, g, gone, cleared, lsn);
    assert OwnersOk(s2.led) by { SameOwners(s.led, s2.led); }
    forall id, p | id in s.caches && p in s.caches[id]
      ensures CachedOk(s.caches[id][p], p, s2.pages, s2.led, s.active[id])
    {
      assert CachedOk(s.caches[id][p], p, s.pages, s.led, s.active[id]);
    }
  }

  lemma SameOwners(led: Ledger, led2: Ledger)
    requires OwnersOk(led) && led2.segs == led.segs && led2.wpages == led.wpages && led2.own == led.own
    ensures OwnersOk(led2)
  {
  }

  // ---- Purge of the oldest segment ----

  /** The free list after freeing `ids` in order; pages past the cap are dropped. */
  function Push(free: seq<PageId>, ids: seq<PageId>): seq<PageId>
    requires |free| <= UNDO_FREE_CAP
  {
    if |free| + |ids| <= UNDO_FREE_CAP then free + ids else free + ids[..UNDO_FREE_CAP - |free|]
  }

  /** Freed pages are appended in order; only a full list drops any, and then the last ones. */
  lemma PushKeepsOrder(free: seq<PageId>, ids: seq<PageId>)
    requires |free| <= UNDO_FREE_CAP
    ensures var out := Push(free, ids);
            && free <= out && out[|free|..] <= ids && |out| <= UNDO_FREE_CAP
            && (|out| < UNDO_FREE_CAP ==> out == free + ids)
  {
  }

  lemma PushNone(free: seq<PageId>)
    requires |free| <= UNDO_FREE_CAP
    ensures Push(free, []) == free
  {
  }

  lemma PushOne(free: seq<PageId>, p: PageId)
    requires |free| <= UNDO_FREE_CAP
    ensures Push(free, [p]) == if |free| < UNDO_FREE_CAP then free + [p] else free
  {
  }

  lemma PushMore(free: seq<PageId>, ids: seq<PageId>, p: PageId)
    requires |free| <= UNDO_FREE_CAP
    ensures |Push(free, ids)| <= UNDO_FREE_CAP
    ensures Push(free, ids + [p]) == Push(Push(free, ids), [p])
  {
    if |free| + |ids| < UNDO_FREE_CAP {
      assert free + (ids + [p]) == free + ids + [p];
    } else {
      var n := UNDO_FREE_CAP - |free|;
      assert (ids + [p])[..n] == ids[..n];
      assert ids[..n] == if |ids| == n then ids else ids[..n];
    }
  }

  function Killed(image: UndoImage): UndoImage
    requires image.head.Some?
  {
    image.(head := Some(image.head.value.(state := Purged, prev := 0, next := 0)))
  }

  function AsFirst(image: UndoImage): UndoImage
    requires image.head.Some?
  {
    image.(head := Some(image.head.value.(prev := 0)))
  }

  function Purge(pages: Pages, first: PageId, next: PageId): Pages
    requires first in pages && pages[first].head.Some?
    requires next != 0 ==> next in pages && pages[next].head.Some?
  {
    var pages1 := if next == 0 then pages else pages[next := AsFirst(pages[next])];
    pages1[first := Killed(pages[first])]
  }

  ghost function MetaPurged(meta: Meta, next: PageId, ids: seq<PageId>): Meta
    requires |meta.free| <= UNDO_FREE_CAP
  {
    meta.(histHead := next, histTail := if next == 0 then 0 else meta.histTail, free := Push(meta.free, ids))
  }

  ghost function LedPurged(led: Ledger, free: seq<PageId>): Ledger
    requires led.segs != []
  {
    var ids := Ids(led.segs[0].ids);
    led.(segs := led.segs[1..], own := led.own - ids, dead := led.dead + (ids - Ids(free)))
  }

  lemma OldestSegment(s: State)
    requires Inv(s) && s.led.segs != []
    ensures HeadOk(s.pages, s.led.segs, 0) && Linked(s.pages, s.led.segs[0].ids)
    ensures FirstId(s.led.segs, 0) == s.led.segs[0].ids[0] == s.meta.histHead != 0
    ensures var next := FirstId(s.led.segs, 1);
            && (next == 0 <==> |s.led.segs| == 1)
            && (next != 0 ==> next in s.pages && s.pages[next].head.Some? && next !in s.led.segs[0].ids)
    ensures s.meta.histHead in s.pages && s.pages[s.meta.histHead].head.Some?
  {
    hide BaseOk, RowsOk, SnapsOk, HistsOk, HeadsOk, Linked;
    var segs := s.led.segs;
    HeadIn(s.pages, segs, 0);
    LinkedFirst(s.pages, segs[0].ids);
    SegPage(segs, s.led.own, 0, 0);
    if |segs| > 1 {
      HeadIn(s.pages, segs, 1);
      LinkedFirst(s.pages, segs[1].ids);
      SegPage(segs, s.led.own, 1, 0);
      assert forall p :: p in segs[0].ids ==> s.led.own[p] == segs[0].commit;
    }
  }

  ghost function AfterPurge(s: State): State
    requires Inv(s) && s.led.segs != []
  {
    OldestSegment(s);
    var next := FirstId(s.led.segs, 1);
    var meta2 := MetaPurged(s.meta, next, s.led.segs[0].ids);
    s.(pages := Purge(s.pages, s.meta.histHead, next), meta := meta2, led := LedPurged(s.led, meta2.free))
  }

  lemma PushPartitions(meta: Meta, own: Own, dead: set<PageId>, ids: seq<PageId>)
    requires Partitioned(meta, own, dead) && NoDup(ids)
    requires forall p :: p in ids ==> p in own
    ensures Partitioned(meta.(free := Push(meta.free, ids)), own - Ids(ids),
                        dead + (Ids(ids) - Ids(Push(meta.free, ids))))
  {
    var free2 := Push(meta.free, ids);
    var n := |free2| - |meta.free|;
    assert free2 == meta.free + ids[..n];
    forall i, j | 0 <= i < j < |free2| ensures free2[i] != free2[j] {
      if j >= |meta.free| {
        var p := ids[j - |meta.free|];
        assert p in ids && free2[j] == p;
        if i < |meta.free| {
          assert free2[i] == meta.free[i] && meta.free[i] in meta.free;
        } else {
          assert free2[i] == ids[i - |meta.free|];
        }
      }
    }
    forall p ensures p in free2 ==> p in meta.free || p in ids {
    }
    assert forall p :: p in meta.free ==> p in free2;
  }

  lemma PurgeHeads(s: State)
    requires Inv(s) && s.led.segs != []
    ensures HistoryOk(AfterPurge(s).pages, AfterPurge(s).meta, s.led.segs[1..])
  {
    hide BaseOk, RowsOk, SnapsOk, HistsOk, HeadsOk, Partitioned, LedPurged, WriterOk;
    OldestSegment(s);
    var segs := s.led.segs;
    var segs2, pages2 := segs[1..], AfterPurge(s).pages;
    forall i | 0 <= i < |segs2| ensures HeadOk(pages2, segs2, i) {
      PurgeHead(s, i);
    }
    HeadsFrom(pages2, segs2);
    assert FirstId(segs2, 0) == FirstId(segs, 1);
    assert segs2 != [] ==> FirstId(segs2, |segs2| - 1) == FirstId(segs, |segs| - 1);
  }

  lemma PurgeHead(s: State, i: int)
    requires Inv(s) && 0 <= i < |s.led.segs| - 1
    ensures HeadOk(AfterPurge(s).pages, s.led.segs[1..], i)
  {
    hide BaseOk, RowsOk, SnapsOk, HistsOk, HeadsOk, Partitioned, LedPurged, WriterOk, MetaPurged;
    OldestSegment(s);
    var segs := s.led.segs;
    var segs2, pages2 := segs[1..], AfterPurge(s).pages;
    HeadIn(s.pages, segs, i + 1);
    assert segs2[i] == segs[i + 1];
    var ids := segs[i + 1].ids;
    SegPage(segs, s.led.own, 0, 0);
    forall j | 0 <= j < |ids| ensures LinkOk(pages2, ids, j) {
      assert LinkOk(s.pages, ids, j);
      SegPage(segs, s.led.own, i + 1, j);
    }
    SegPage(segs, s.led.own, i + 1, 0);
    assert FirstId(segs2, i) == FirstId(segs, i + 1) && FirstId(segs2, i + 1) == FirstId(segs, i + 2);
    if i > 0 {
      assert FirstId(segs2, i - 1) == FirstId(segs, i);
      HeadIn(s.pages, segs, 1);
      SegPage(segs, s.led.own, 1, 0);
    }
  }

  lemma PurgeOwners(led: Ledger, free: seq<PageId>)
    requires OwnersOk(led) && led.segs != [] && Increasing(led.segs)
    ensures OwnersOk(LedPurged(led, free))
  {
    var (segs, own) := (led.segs, led.own);
    var segs2, own2 := segs[1..], own - Ids(segs[0].ids);
    forall i, p | 0 <= i < |segs2| && p in segs2[i].ids ensures p in own2 && own2[p] == segs2[i].commit {
      assert segs2[i] == segs[i + 1];
      assert own[p] == segs[i + 1].commit > segs[0].commit;
    }
    forall p | p in own2 && own2[p] != 0 ensures InSegs(segs2, p) {
      var i :| 0 <= i < |segs| && p in segs[i].ids;
      assert segs2[i - 1] == segs[i];
    }
    forall p | p in led.wpages ensures p in own2 {
      assert own[p] == 0;
    }
  }

  lemma PurgeSnaps(s: State)
    requires Inv(s) && s.led.segs != [] && s.led.segs[0].commit <= s.led.low
    ensures var s2 := AfterPurge(s); SnapsOk(s2.active, s2.caches, s2.pages, s2.led, s2.durable)
  {
    hide BaseOk, RowsOk, HistsOk, HeadsOk, Partitioned, WriterOk, MetaPurged, HistoryOk;
    OldestSegment(s);
    var s2 := AfterPurge(s);
    forall id, p | id in s.caches && p in s.caches[id]
      ensures CachedOk(s.caches[id][p], p, s2.pages, s2.led, s.active[id])
    {
      assert CachedOk(s.caches[id][p], p, s.pages, s.led, s.active[id]);
    }
  }

  lemma PurgeBase(s: State)
    requires Inv(s) && s.led.segs != [] && s.led.segs[0].commit <= s.led.low
    ensures var s2 := AfterPurge(s); BaseOk(s2.pages, s2.led.own, s2.led.low, s2.led.base, s2.led.hist)
  {
    hide Chain, RowsOk, HistsOk, HeadsOk, Partitioned, WriterOk, MetaPurged, SnapsOk;
    OldestSegment(s);
    var s2 := AfterPurge(s);
    var low := s.led.low;
    forall d | d > low ensures Kept(s.pages, s.led.own, s2.pages, s2.led.own, d, d) {
    }
    forall k | k in s.led.base
      ensures CommittedOk(s.led.base[k], HistOf(s.led.hist, k), s2.pages, s2.led.own, low)
    {
      var (row, h) := (s.led.base[k], HistOf(s.led.hist, k));
      assert CommittedOk(row, h, s.pages, s.led.own, low);
      if row.commitLsn > low {
        ChainKept(s.pages, s.led.own, low, s2.pages, s2.led.own, low, row.undo, h[..|h| - 1],
                  row.commitLsn, row.commitLsn);
      }
    }
  }

  /** Purging the oldest segment, once it is at or below the watermark, keeps the invariant. */
  lemma PurgeKeeps(s: State)
    requires Inv(s) && s.writer == None && s.led.segs != [] && s.led.segs[0].commit <= s.led.low
    ensures Inv(AfterPurge(s))
  {
    hide BaseOk, SnapsOk, HistsOk, HistoryOk, Partitioned, Push, OwnersOk;
    OldestSegment(s);
    var s2 := AfterPurge(s);
    PurgeHeads(s);
    OldestOwned(s);
    PushPartitions(s.meta, s.led.own, s.led.dead, s.led.segs[0].ids);
    SamePartition(s.meta.(free := s2.meta.free), s2.meta, s2.led.own, s2.led.dead);
    PurgeOwners(s.led, s2.meta.free);
    PurgeSnaps(s);
    PurgeBase(s);
  }

  lemma OldestOwned(s: State)
    requires Inv(s) && s.led.segs != []
    ensures NoDup(s.led.segs[0].ids) && Increasing(s.led.segs)
    ensures forall p :: p in s.led.segs[0].ids ==> p in s.led.own
    ensures 0 !in s.led.segs[0].ids
  {
    hide BaseOk, RowsOk, SnapsOk, HistsOk;
    OldestSegment(s);
  }

  /** While the free list is below its cap, no purged page is lost. */
  lemma PurgeLosesNothing(s: State)
    requires Inv(s) && s.led.segs != []
    ensures |AfterPurge(s).meta.free| >= |s.meta.free|
    ensures |AfterPurge(s).meta.free| < UNDO_FREE_CAP ==> AfterPurge(s).led.dead == s.led.dead
  {
    hide Inv, HeadOk, Linked, Purge;
    HeadMeansSegment(s);
    OldestSegment(s);
    var s2 := AfterPurge(s);
    assert |s2.meta.free| < UNDO_FREE_CAP ==> s2.meta.free == s.meta.free + s.led.segs[0].ids;
  }

  lemma SamePartition(meta: Meta, meta2: Meta, own: Own, dead: set<PageId>)
    requires Partitioned(meta, own, dead)
    requires meta2.free == meta.free && meta2.nextUndo == meta.nextUndo
    ensures Partitioned(meta2, own, dead)
  {
  }

  function KeySet(keys: seq<Key>): set<Key> {
    set k | k in keys
  }

  // The scanned keys whose row is a tombstone no snapshot can see past.
  ghost function Doomed(rows: Rows, keys: seq<Key>, g: nat): set<Key> {
    set k | k in keys && k in rows && 0 < rows[k].commitLsn <= g && rows[k].tombstone
  }

  // The scanned keys whose row is visible to every snapshot, so that none needs its undo chain.
  ghost function Unhooked(rows: Rows, keys: seq<Key>, g: nat): set<Key> {
    set k | k in keys && k in rows && 0 < rows[k].commitLsn <= g && !rows[k].tombstone && rows[k].undo.Some?
  }

  lemma NoneDoomed(rows: Rows, g: nat)
    ensures Doomed(rows, [], g) == {} && Unhooked(rows, [], g) == {}
  {
  }

  lemma ScanOne(rows: Rows, keys: seq<Key>, k: Key, g: nat)
    requires k in rows
    ensures Doomed(rows, keys + [k], g) == Doomed(rows, keys, g) + Doomed(rows, [k], g)
    ensures Unhooked(rows, keys + [k], g) == Unhooked(rows, keys, g) + Unhooked(rows, [k], g)
    ensures Doomed(rows, [k], g) ==
            if 0 < rows[k].commitLsn <= g && rows[k].tombstone then {k} else {}
    ensures Unhooked(rows, [k], g) ==
            if 0 < rows[k].commitLsn <= g && !rows[k].tombstone && rows[k].undo.Some? then {k} else {}
  {
  }

  lemma KeySetEmpty()
    ensures KeySet([]) == {}
    ensures forall rows, g :: Doomed(rows, [], g) == {} && Unhooked(rows, [], g) == {}
  {
  }

  lemma ScanSound(rows: Rows, keys: seq<Key>, g: nat)
    ensures Collectable(rows, Doomed(rows, keys, g), Unhooked(rows, keys, g), g)
    ensures forall k :: k in Unhooked(rows, keys, g) ==> k !in Doomed(rows, keys, g)
  {
  }

  lemma KeySetPush(keys: seq<Key>, k: Key)
    ensures KeySet(keys + [k]) == KeySet(keys) + {k}
  {
  }

  lemma SweptInTwo(rows: Rows, gone: set<Key>, cleared: set<Key>)
    requires forall k :: k in cleared ==> k in rows && k !in gone
    ensures Swept(rows, gone, cleared) == Swept(rows - gone, {}, cleared)
    ensures cleared <= (rows - gone).Keys
  {
  }

  /**
   * A sweep of the rows `seen`: a tombstone at or below the watermark goes, any other row at or
   * below it loses its undo pointer, and nothing else changes.
   */
  ghost predicate SweptTo(rows: Rows, rows2: Rows, seen: seq<Key>, g: nat) {
    && (forall k :: k in rows2 <==>
          k in rows && !(k in seen && 0 < rows[k].commitLsn <= g && rows[k].tombstone))
    && (forall k :: k in rows2 ==>
          rows2[k] == if k in seen && 0 < rows[k].commitLsn <= g then rows[k].(undo := None) else rows[k])
  }

  lemma SweptRows(rows: Rows, seen: seq<Key>, g: nat)
    ensures SweptTo(rows, Swept(rows, Doomed(rows, seen, g), Unhooked(rows, seen, g)), seen, g)
  {
    var rows2 := Swept(rows, Doomed(rows, seen, g), Unhooked(rows, seen, g));
    forall k | k in rows2
      ensures rows2[k] == if k in seen && 0 < rows[k].commitLsn <= g then rows[k].(undo := None) else rows[k]
    {
      assert rows[k].undo == None ==> rows[k] == rows[k].(undo := None);
    }
  }

  ghost predicate SweptAll(rows: Rows, rows2: Rows, g: nat) {
    && (forall k :: k in rows2 <==> k in rows && !(0 < rows[k].commitLsn <= g && rows[k].tombstone))
    && (forall k :: k in rows2 ==>
          rows2[k] == if 0 < rows[k].commitLsn <= g then rows[k].(undo := None) else rows[k])
  }

  lemma SweptWhole(rows: Rows, rows2: Rows, seen: seq<Key>, g: nat)
    requires forall k :: k in seen <==> k in rows
    ensures SweptTo(rows, rows2, seen, g) ==> SweptAll(rows, rows2, g)
  {
  }

  lemma SweepFinds(rows: Rows, seen: seq<Key>, g: nat, gone: seq<Key>, cleared: seq<Key>)
    requires KeySet(gone) == Doomed(rows, seen, g) && KeySet(cleared) == Unhooked(rows, seen, g)
    requires gone != [] || cleared != []
    ensures Swept(rows, KeySet(gone), KeySet(cleared)) != rows
  {
    hide Swept;
    var k := if gone != [] then gone[0] else cleared[0];
    assert k in KeySet(gone) || k in KeySet(cleared);
    SweptSomething(rows, KeySet(gone), KeySet(cleared), k);
  }

  lemma SweptSomething(rows: Rows, gone: set<Key>, cleared: set<Key>, k: Key)
    requires k in rows && (k in gone || (k in cleared && rows[k].undo.Some?))
    ensures Swept(rows, gone, cleared) != rows
  {
    if k !in gone {
      assert Swept(rows, gone, cleared)[k].undo == None;
    }
  }

  lemma SweptNothing(rows: Rows)
    ensures Swept(rows, {}, {}) == rows
  {
  }

  lemma InvClock(s: State)
    requires Inv(s)
    ensures s.led.low <= s.durable <= s.nextLsn
  {
    hide BaseOk, RowsOk, SnapsOk, HistoryOk, Partitioned, OwnersOk, WriterOk, HistsOk;
  }

  lemma RaiseLow(s: State, g: nat)
    requires Inv(s) && s.writer == None
    requires s.led.low <= g <= s.durable
    requires forall id :: id in s.active ==> g <= s.active[id]
    ensures Inv(s.(led := s.led.(low := g, base := s.rows)))
  {
    hide BaseOk, RowsOk, HistoryOk, Partitioned, OwnersOk, HistsOk, Swept;
    SweptNothing(s.rows);
    SweepBase(s, g, {}, {});
    var s2 := s.(led := s.led.(low := g, base := s.rows));
    SameOwners(s.led, s2.led);
    assert RowsOk(s2.rows, s2.pages, s2.led.own, s2.led.base, s2.writer) by { NoIntents(s2); }
    forall id, p | id in s.caches && p in s.caches[id]
      ensures CachedOk(s.caches[id][p], p, s2.pages, s2.led, s.active[id])
    {
      assert CachedOk(s.caches[id][p], p, s.pages, s.led, s.active[id]);
    }
  }

  lemma NoIntents(s: State)
    requires s.writer == None && s.led.base == s.rows
    ensures RowsOk(s.rows, s.pages, s.led.own, s.led.base, s.writer)
  {
  }

  // ---- A purge in progress ----

  ghost predicate Dropped(led: Ledger, led2: Ledger, j: nat) {
    && j <= |led.segs| && led2.segs == led.segs[j..]
    && led2 == led.(segs := led2.segs, own := led2.own, dead := led2.dead)
    && (forall i :: 0 <= i < j ==> led.segs[i].commit <= led.low)
    && led.dead <= led2.dead
  }

  /** The ledger after a purge that dropped the `j` oldest segments and stopped where it had to. */
  ghost predicate IsPurgeOf(led: Ledger, led2: Ledger, j: nat) {
    Dropped(led, led2, j) && (forall i :: j <= i < |led.segs| ==> led.segs[i].commit > led.low)
  }

  lemma PurgeFacts(led: Ledger, led2: Ledger, j: nat)
    requires IsPurgeOf(led, led2, j)
    ensures j <= |led.segs| && led2.segs == led.segs[j..]
    ensures led2 == led.(segs := led2.segs, own := led2.own, dead := led2.dead)
    ensures forall i :: 0 <= i < |led2.segs| ==> led2.segs[i].commit > led2.low
  {
  }

  /**
   * The purge loop reads the pages as they were before it started; up to the back link of the
   * oldest segment, that is how the list it has already shortened reads.
   */
  ghost predicate Shadows(pages: Pages, s: State) {
    && pages.Keys == s.pages.Keys
    && (forall p :: p in pages ==>
          pages[p].next == s.pages[p].next && (pages[p].head.Some? <==> s.pages[p].head.Some?))
    && (forall i :: 0 <= i < |s.led.segs| ==> SameHead(pages, s.pages, FirstId(s.led.segs, i)))
  }

  ghost predicate SameHead(pages: Pages, pages2: Pages, p: PageId) {
    && p in pages && p in pages2 && pages[p].head.Some? && pages2[p].head.Some?
    && AsFirst(pages[p]).head == AsFirst(pages2[p]).head
    && pages[p].recs == pages2[p].recs && pages[p].next == pages2[p].next
  }

  lemma ShadowsSelf(s: State)
    requires Inv(s)
    ensures Shadows(s.pages, s)
  {
    hide BaseOk, RowsOk, SnapsOk, HistsOk, HeadsOk, WriterOk, Partitioned;
    forall i | 0 <= i < |s.led.segs| ensures SameHead(s.pages, s.pages, FirstId(s.led.segs, i)) {
      HeadIn(s.pages, s.led.segs, i);
      LinkedFirst(s.pages, s.led.segs[i].ids);
    }
  }

  lemma PurgeReads(pages: Pages, s: State)
    requires Inv(s) && s.led.segs != [] && Shadows(pages, s)
    ensures s.meta.histHead in pages && pages[s.meta.histHead].head.Some?
    ensures var hdr := pages[s.meta.histHead].head.value;
            && hdr.state == Committed && hdr.commitLsn == s.led.segs[0].commit
            && hdr.first == FirstId(s.led.segs, 0) && hdr.next == FirstId(s.led.segs, 1)
    ensures Linked(pages, s.led.segs[0].ids) && 0 !in s.led.segs[0].ids
  {
    hide BaseOk, RowsOk, SnapsOk, HistsOk, HeadsOk, WriterOk, Partitioned;
    OldestSegment(s);
    OldestOwned(s);
    assert SameHead(pages, s.pages, FirstId(s.led.segs, 0));
    var ids := s.led.segs[0].ids;
    forall i | 0 <= i < |ids| ensures LinkOk(pages, ids, i) {
      assert LinkOk(s.pages, ids, i);
    }
  }

  function Marked(dirty: Pages, pages: Pages, head: PageId, next: PageId): Pages
    requires head in pages && pages[head].head.Some?
    requires next != 0 ==> next in pages && pages[next].head.Some?
  {
    (if next == 0 then dirty else dirty[next := AsFirst(pages[next])])[head := Killed(pages[head])]
  }

  lemma PurgeMarks(pages: Pages, dirty: Pages, s: State)
    requires Inv(s) && s.led.segs != [] && Shadows(pages, s) && s.pages == pages + dirty
    ensures var (head, next) := (s.meta.histHead, FirstId(s.led.segs, 1));
            && head in pages && pages[head].head.Some?
            && (next != 0 ==> next in pages && pages[next].head.Some?)
            && AfterPurge(s).pages == pages + Marked(dirty, pages, head, next)
  {
    hide BaseOk, RowsOk, SnapsOk, HistsOk, HistoryOk, WriterOk, Partitioned, MetaPurged, HeadOk, Linked,
         LedPurged, OwnersOk;
    OldestSegment(s);
    assert SameHead(pages, s.pages, FirstId(s.led.segs, 0));
    if FirstId(s.led.segs, 1) != 0 {
      assert SameHead(pages, s.pages, FirstId(s.led.segs, 1));
    }
  }

  lemma PurgeShadows(pages: Pages, s: State)
    requires Inv(s) && s.led.segs != [] && Shadows(pages, s)
    ensures Shadows(pages, AfterPurge(s))
  {
    hide BaseOk, RowsOk, SnapsOk, HistsOk, HistoryOk, WriterOk, Partitioned, MetaPurged, HeadOk, Linked, OwnersOk;
    OldestSegment(s);
    var segs, s2 := s.led.segs, AfterPurge(s);
    forall i | 0 <= i < |s2.led.segs| ensures SameHead(pages, s2.pages, FirstId(s2.led.segs, i)) {
      assert FirstId(s2.led.segs, i) == FirstId(segs, i + 1);
      assert SameHead(pages, s.pages, FirstId(segs, i + 1));
      FirstsDiffer(s, i + 1);
    }
  }

  lemma FirstsDiffer(s: State, i: int)
    requires Inv(s) && 0 < i < |s.led.segs|
    ensures FirstId(s.led.segs, i) != s.meta.histHead
  {
    hide BaseOk, RowsOk, SnapsOk, HistsOk, HeadsOk, WriterOk, Partitioned, HeadOk, Linked;
    OldestSegment(s);
    SegPage(s.led.segs, s.led.own, 0, 0);
    HeadsNonempty(s.pages, s.led.segs);
    SegPage(s.led.segs, s.led.own, i, 0);
  }

  lemma DropOne(led: Ledger, led1: Ledger, j: nat, free: seq<PageId>)
    requires Dropped(led, led1, j) && led1.segs != [] && led1.segs[0].commit <= led.low
    ensures Dropped(led, LedPurged(led1, free), j + 1)
    ensures |LedPurged(led1, free).segs| < |led1.segs|
  {
    assert led1.segs[0] == led.segs[j];
  }

  /** Where the purge stops, every remaining segment is above the watermark. */
  lemma PurgeStops(s: State, led: Ledger, j: nat)
    requires Inv(s) && Dropped(led, s.led, j)
    requires s.led.segs == [] || s.led.segs[0].commit > led.low
    ensures IsPurgeOf(led, s.led, j)
  {
    hide BaseOk, RowsOk, SnapsOk, HistsOk, HeadsOk, WriterOk, Partitioned;
    forall i | j <= i < |led.segs| ensures led.segs[i].commit > led.low {
      assert led.segs[i] == s.led.segs[i - j];
    }
  }

  lemma BumpKeeps(s: State, lsn: nat)
    requires Inv(s) && s.writer == None && s.nextLsn <= lsn
    ensures Inv(s.(nextLsn := lsn, durable := lsn))
  {
    hide BaseOk, RowsOk, HistoryOk, Partitioned, OwnersOk, CachedOk;
  }

  lemma DropNone(led: Ledger)
    ensures Dropped(led, led, 0)
  {
    assert led.segs[0..] == led.segs;
  }

  /** The history head is 0 exactly when no committed segment is left. */
  lemma HeadMeansSegment(s: State)
    requires Inv(s)
    ensures s.meta.histHead == 0 <==> s.led.segs == []
    ensures |s.meta.free| <= UNDO_FREE_CAP
  {
    hide BaseOk, RowsOk, SnapsOk, HistsOk, HeadsOk, WriterOk;
    if s.led.segs != [] {
      OldestSegment(s);
    }
  }
}
