/**
 * The embedded engine: rows in the primary tree (a map here), old versions in undo segments, one
 * read-write transaction or collection at a time, any number of read-only snapshots beside it.
 */
module Mvcc {
  import opened Bytes
  import opened UndoModel
  import opened MvccState
  import opened MvccWrite
  import opened MvccEnd
  import opened MvccGc

  // A read answers, or has to wait for the transaction in progress, or trips over a page image
  // it cached before the record it wants was appended.
  datatype ReadResult = Reply(value: Option<Value>) | MustWait | Stale

  ghost predicate AllLive(touched: set<PageId>, led: Ledger, readLsn: nat) {
    forall p :: p in touched ==> p in led.own && (led.own[p] == 0 || led.own[p] > readLsn)
  }

  ghost predicate Shows(rec: Rec, r: nat) {
    !rec.oldIntent && rec.oldCommitLsn <= r
  }

  /**
   * The pointer met after `n` records of the chain at `ptr`, none of which a reader at `r` may
   * see, is past the cached image of its page.
   */
  ghost predicate PastImage(cache: Pages, pages: Pages, ptr: Option<UndoPtr>, r: nat, n: nat)
    decreases n
  {
    && ptr.Some?
    && (if n == 0 then ptr.value.page in cache && ptr.value.slot >= |cache[ptr.value.page].recs|
        else
          && HasRec(pages, ptr.value) && !Shows(RecAt(pages, ptr.value), r)
          && PastImage(cache, pages, RecAt(pages, ptr.value).prev, r, n - 1))
  }

  /** Before its first version not after `r`, the chain leads past a cached image. */
  ghost predicate Trips(cache: Pages, pages: Pages, ptr: Option<UndoPtr>, r: nat) {
    exists n: nat :: PastImage(cache, pages, ptr, r, n)
  }

  lemma {:induction false} TripsOn(cache: Pages, pages: Pages, p: UndoPtr, r: nat)
    requires HasRec(pages, p) && !PastImage(cache, pages, Some(p), r, 0)
    ensures Trips(cache, pages, Some(p), r) <==>
            !Shows(RecAt(pages, p), r) && Trips(cache, pages, RecAt(pages, p).prev, r)
  {
    var prev := RecAt(pages, p).prev;
    if Trips(cache, pages, Some(p), r) {
      var n: nat :| PastImage(cache, pages, Some(p), r, n);
      assert PastImage(cache, pages, prev, r, n - 1);
    }
    if !Shows(RecAt(pages, p), r) && Trips(cache, pages, prev, r) {
      var n: nat :| PastImage(cache, pages, prev, r, n);
      assert PastImage(cache, pages, Some(p), r, n + 1);
    }
  }

  lemma Showing(rec: Rec, r: nat)
    ensures Shows(rec, r) <==> !rec.oldIntent && rec.oldCommitLsn <= r
  {
  }

  lemma TripsHere(cache: Pages, pages: Pages, p: UndoPtr, r: nat)
    requires p.page in cache && p.slot >= |cache[p.page].recs|
    ensures Trips(cache, pages, Some(p), r)
  {
    assert PastImage(cache, pages, Some(p), r, 0);
  }

  lemma NothingCached(cache: Pages, pages: Pages)
    ensures Caches(cache, cache, pages, {})
  {
  }

  lemma NoTrip(cache: Pages, pages: Pages, r: nat)
    ensures !Trips(cache, pages, None, r)
  {
  }

  /** The row is newer than `r`, so a reader there goes to its undo chain. */
  ghost predicate NeedsUndo(rows: Rows, key: Key, r: nat) {
    key in rows && (if rows[key].intent then rows[key].intentLsn else rows[key].commitLsn) > r
  }

  /** A cache gains the pages touched, as they are now, and keeps the images it had. */
  ghost predicate Caches(cache: Pages, cache2: Pages, pages: Pages, touched: set<PageId>) {
    && cache2.Keys == cache.Keys + touched
    && (forall p :: p in cache ==> cache2[p] == cache[p])
    && (forall p :: p in touched && p !in cache ==> p in pages && cache2[p] == pages[p])
  }

  /** Where a saved row goes: behind the last record of the transaction's segment, on a new page if that is full. */
  ghost predicate Saved(last: Option<PageId>, pages: Pages, last2: Option<PageId>, pages2: Pages, ptr: UndoPtr) {
    && ptr.page in pages2 && |pages2[ptr.page].recs| == ptr.slot + 1 && last2 == Some(ptr.page)
    && (last == None ==> ptr.slot == 0)
    && (last.Some? && last.value in pages ==>
          var n := |pages[last.value].recs|;
          if n < RECORDS_PER_PAGE then ptr == UndoPtr(last.value, n) else ptr.slot == 0)
  }

  lemma CachesOn(cache: Pages, cache1: Pages, pages: Pages, touched: set<PageId>, p: PageId, image: UndoImage)
    requires Caches(cache, cache1, pages, touched) && p in pages
    requires image == if p in cache1 then cache1[p] else pages[p]
    ensures Caches(cache, WithPage(cache1, p, image), pages, touched + {p})
    ensures image == if p in cache then cache[p] else pages[p]
  {
  }

  lemma {:induction false} AbsentReads(s: State, k: Key, r: nat)
    requires Inv(s) && k !in s.rows && r >= s.led.low
    ensures Visible(HistOf(s.led.hist, k), r) == None
  {
    hide SnapsOk, HistoryOk, Partitioned, OwnersOk, WriterOk, HistsOk;
    assert k in s.led.hist ==> AbsentOk(s.led.hist[k], s.led.low);
  }

  lemma InvLow(s: State)
    requires Inv(s)
    ensures s.led.low <= s.durable
  {
    hide BaseOk, RowsOk, SnapsOk, HistoryOk, Partitioned, OwnersOk, WriterOk, HistsOk;
  }

  lemma CommittedRow(s: State, k: Key)
    requires Inv(s) && s.writer.Some? && k in s.rows
    ensures s.rows[k].intent <==> k in s.writer.value.modified
    ensures s.rows[k].intent ==> s.rows[k].intentTxn == s.writer.value.txnId
    ensures !s.rows[k].intent ==> k in s.led.base && s.led.base[k] == s.rows[k]
  {
    hide Chain, SnapsOk, HistoryOk, Partitioned, OwnersOk, WriterOk, HistsOk;
    if k in s.led.base {
      assert CommittedOk(s.led.base[k], HistOf(s.led.hist, k), s.pages, s.led.own, s.led.low);
    }
  }

  ghost predicate IsIntent(row: Row, txnId: nat, undo: Option<UndoPtr>, intentLsn: nat) {
    && row.intent && row.intentTxn == txnId && row.commitLsn == 0
    && row.undo == undo && row.intentLsn == intentLsn
  }

  lemma AbsentIntent(s: State, k: Key)
    requires Inv(s) && s.writer.Some? && k !in s.rows
    ensures forall row :: IsIntent(row, s.writer.value.txnId, None, s.writer.value.readLsn) ==>
                          IntentOk(row, k, s.pages, s.led.own, s.led.base, s.writer.value)
  {
    hide Chain, SnapsOk, HistoryOk, Partitioned, OwnersOk, WriterOk, HistsOk, BaseOk;
  }

  lemma CommitReady(s: State)
    requires Inv(s) && s.writer.Some?
    ensures SameRecs(s.pages, s.led.own, s.led.dead, s.pages) && HistoryOk(s.pages, s.meta, s.led.segs)
    ensures s.durable <= s.nextLsn && s.writer.value.modified <= s.rows.Keys
    ensures s.writer.value.first.Some? <==> s.led.wpages != []
    ensures s.led.wpages != [] ==> s.writer.value.first == Some(s.led.wpages[0]) && s.writer.value.last.Some?
    ensures forall id :: id in s.active - {s.writer.value.readId} ==> id in s.active
  {
    hide BaseOk, SnapsOk, HistoryOk, Partitioned, OwnersOk, HistsOk, Linked, IntentOk;
  }

  lemma AbortReady(s: State)
    requires Inv(s) && s.writer.Some?
    ensures forall k :: k in s.writer.value.modified ==> k in s.rows
    ensures forall k :: k !in s.writer.value.modified ==> (k in s.rows <==> k in s.led.base)
    ensures forall k :: k !in s.writer.value.modified && k in s.rows ==> s.rows[k] == s.led.base[k]
  {
    hide BaseOk, SnapsOk, HistoryOk, Partitioned, OwnersOk, HistsOk, WriterOk, IntentOk;
  }

  lemma OpenSnapshot(s: State, id: nat)
    requires Inv(s) && id !in s.active
    ensures Inv(s.(active := s.active[id := s.durable], caches := s.caches[id := map[]]))
  {
    hide BaseOk, RowsOk, HistsOk, HistoryOk, Partitioned, OwnersOk, CachedOk, Linked;
  }

  lemma CloseSnapshot(s: State, id: nat)
    requires Inv(s) && id in s.caches
    ensures Inv(s.(active := s.active - {id}, caches := s.caches - {id}))
  {
    hide BaseOk, RowsOk, HistsOk, HistoryOk, Partitioned, OwnersOk, CachedOk, Linked;
  }

  lemma OpenWriter(s: State, id: nat, txnId: nat)
    requires Inv(s) && s.writer == None && id !in s.active
    ensures Inv(s.(active := s.active[id := s.durable],
                   writer := Some(Writer(txnId, s.durable, id, {}, None, None, None, 0))))
    ensures s.led.base == s.rows
  {
    hide BaseOk, HistsOk, HistoryOk, Partitioned, OwnersOk, CachedOk, Linked;
    assert s.led.base == s.rows;
  }

  lemma SnapshotAboveLow(s: State, id: nat)
    requires Inv(s) && id in s.active
    ensures s.led.low <= s.active[id] <= s.durable
  {
    hide BaseOk, RowsOk, HistsOk, HistoryOk, Partitioned, OwnersOk, CachedOk, WriterOk;
  }

  datatype Op = Open | Close(id: nat) | Query(id: nat, key: Key)
              | BeginTxn(txnId: nat) | PutKey(key: Key, value: Value) | DeleteKey(key: Key)
              | CommitTxn(pages: nat) | AbortTxn
              | Collect(budget: nat, sweepPages: nat, purgePages: nat)

  lemma SnapshotIds(s: State)
    requires Inv(s)
    ensures forall id :: id in s.caches ==> id in s.active
    ensures s.writer.Some? ==> s.writer.value.readId !in s.caches
  {
    hide BaseOk, RowsOk, HistsOk, HistoryOk, Partitioned, OwnersOk, CachedOk, Linked;
  }

  lemma WatermarkBounds(s: State, g: nat)
    requires Inv(s)
    requires s.active.Keys == {} ==> g == s.durable
    requires s.active.Keys != {} ==> exists id :: id in s.active && s.active[id] == g
    ensures s.led.low <= g <= s.durable
  {
    hide BaseOk, RowsOk, HistsOk, HistoryOk, Partitioned, OwnersOk, CachedOk, Linked, WriterOk;
  }

  lemma HistStays(hist: Hist, durable: nat)
    ensures HistGrows(hist, hist, durable)
  {
  }

  lemma HistGrowsOn(hist: Hist, hist1: Hist, hist2: Hist, durable: nat, durable1: nat)
    requires HistGrows(hist, hist1, durable) && HistGrows(hist1, hist2, durable1) && durable <= durable1
    ensures HistGrows(hist, hist2, durable)
  {
    forall k ensures Extends(HistOf(hist, k), HistOf(hist2, k), durable) {
      assert Extends(HistOf(hist, k), HistOf(hist1, k), durable);
      assert Extends(HistOf(hist1, k), HistOf(hist2, k), durable1);
    }
  }

  /** A snapshot taken at or before `durable` sees the same versions for ever after. */
  lemma {:induction false} SnapshotStable(hist: Hist, hist2: Hist, durable: nat, r: nat, k: Key)
    requires HistGrows(hist, hist2, durable) && r <= durable
    ensures Visible(HistOf(hist2, k), r) == Visible(HistOf(hist, k), r)
  {
    var h, h2 := HistOf(hist, k), HistOf(hist2, k);
    assert Extends(h, h2, durable);
    assert h2 == h + h2[|h|..];
    VisibleStable(h, h2[|h|..], r);
  }

  function WithPage(pages: Pages, p: PageId, image: UndoImage): Pages {
    pages[p := image]
  }

  class Engine {
    var rows: Rows
    var pages: Pages
    var meta: Meta
    var nextLsn: nat
    var durable: nat
    var active: map<nat, nat>
    var nextReadId: nat
    var caches: map<nat, Pages>
    var writer: Option<Writer>
    ghost var led: Ledger

    ghost function S(): State
      reads this
    {
      State(rows, pages, meta, nextLsn, durable, active, caches, writer, led)
    }

    ghost predicate Valid()
      reads this
    {
      Inv(S()) && (forall id :: id in active ==> id < nextReadId)
    }

    constructor ()
      ensures Valid() && rows == map[] && led.hist == map[] && writer == None && active == map[]
    {
      rows, pages, meta := map[], map[], Meta(UNDO_BASE, [], 0, 0);
      nextLsn, durable := 0, 0;
      active, nextReadId, caches, writer := map[], 1, map[], None;
      led := Ledger(map[], [], [], {}, map[], 0, map[]);
    }

    // ---- Read-only snapshots ----

    method BeginRo() returns (id: nat)
      requires Valid()
      modifies `active, `nextReadId, `caches
      ensures Valid()
      ensures id !in old(active)
      ensures active == old(active)[id := durable] && caches == old(caches)[id := map[]]
    {
      hide Inv;
      id := nextReadId;
      OpenSnapshot(S(), id);
      nextReadId := nextReadId + 1;
      active := active[id := durable];
      caches := caches[id := map[]];
    }

    method EndRo(id: nat)
      requires Valid() && id in caches
      modifies `active, `caches
      ensures Valid()
      ensures active == old(active) - {id} && caches == old(caches) - {id}
    {
      hide Inv;
      CloseSnapshot(S(), id);
      active := active - {id};
      caches := caches - {id};
    }

    method GetPageForRead(id: nat, p: PageId) returns (image: UndoImage)
      requires Valid() && id in caches
      requires p in led.own && (led.own[p] == 0 || led.own[p] > active[id])
      modifies `caches
      ensures Valid()
      ensures p in pages && image.recs <= pages[p].recs
      ensures p !in old(caches)[id] ==> image == pages[p]
      ensures p in old(caches)[id] ==> image == old(caches)[id][p]
      ensures caches == old(caches)[id := WithPage(old(caches)[id], p, image)]
    {
      hide BaseOk, RowsOk, HistsOk, HistoryOk, Partitioned, OwnersOk;
      if p in caches[id] {
        image := caches[id][p];
        assert CachedOk(image, p, pages, led, active[id]);
        assert caches[id] == WithPage(caches[id], p, image);
        assert caches == caches[id := caches[id]];
      } else {
        image := pages[p];
        caches := caches[id := WithPage(caches[id], p, image)];
        assert forall i, q :: i in caches && q in caches[i] && (i != id || q != p) ==>
          i in old(caches) && q in old(caches)[i] && caches[i][q] == old(caches)[i][q];
      }
    }

    /** Walks the undo chain down to the first version not after the snapshot. */
    method ReadFromUndo(id: nat, undo: Option<UndoPtr>, ghost h: seq<Version>, ghost c: nat)
      returns (r: ReadResult, ghost touched: set<PageId>)
      requires Valid() && id in caches && id in active
      requires Chain(pages, led.own, led.low, undo, h, c) && (c == 0 || c > active[id])
      modifies `caches
      ensures Valid()
      ensures id in caches && caches == old(caches)[id := caches[id]]
      ensures !r.MustWait?
      ensures r.Reply? ==> r.value == Visible(h, active[id])
      ensures r.Stale? <==> Trips(old(caches)[id], pages, undo, active[id])
      ensures AllLive(touched, led, active[id]) && (undo.Some? ==> undo.value.page in touched)
      ensures Caches(old(caches)[id], caches[id], pages, touched)
    {
      hide Inv, CachedOk, Trips, Caches, Shows;
      SnapshotAboveLow(S(), id);
      var ptr := undo;
      touched := {};
      ghost var t, d, cache := h, c, caches[id];
      NothingCached(cache, pages);
      while ptr.Some?
        invariant Valid() && id in caches
        invariant caches == old(caches)[id := caches[id]]
        invariant Caches(old(caches)[id], caches[id], pages, touched)
        invariant Trips(cache, pages, undo, active[id]) <==> Trips(cache, pages, ptr, active[id])
        invariant undo.Some? ==> ptr == undo || undo.value.page in touched
        invariant Chain(pages, led.own, led.low, ptr, t, d) && (d == 0 || d > active[id])
        invariant Visible(t, active[id]) == Visible(h, active[id])
        invariant AllLive(touched, led, active[id])
        decreases |t|
      {
        var p := ptr.value;
        ghost var cache1 := caches[id];
        var image := GetPageForRead(id, p.page);
        CachesOn(cache, cache1, pages, touched, p.page, image);
        touched := touched + {p.page};
        if p.slot >= |image.recs| {
          TripsHere(cache, pages, p, active[id]);
          return Stale, touched;
        }
        TripsOn(cache, pages, p, active[id]);
        var rec := image.recs[p.slot];
        assert rec == RecAt(pages, p);
        Showing(rec, active[id]);
        if !rec.oldIntent && rec.oldCommitLsn <= active[id] {
          return Reply(if rec.oldTombstone then None else Some(rec.oldValue)), touched;
        }
        t, d := t[..|t| - 1], t[|t| - 1].lsn;
        ptr := rec.prev;
      }
      NoTrip(cache, pages, active[id]);
      r := Reply(None);
    }

    /**
     * A snapshot read that answers gives exactly the newest version committed at or before the
     * snapshot, and follows undo pointers only into pages of segments committed after the
     * snapshot or still in progress, never into a purged one. It fails exactly when the chain
     * leads past an image the snapshot cached while the page was still filling.
     */
    method Read(id: nat, key: Key) returns (r: ReadResult, ghost touched: set<PageId>)
      requires Valid() && id in caches && id in active
      modifies `caches
      ensures Valid()
      ensures id in caches && caches == old(caches)[id := caches[id]]
      ensures r.Reply? ==> r.value == Visible(HistOf(led.hist, key), active[id])
      ensures r.MustWait? <==> key in rows && rows[key].intent && rows[key].intentLsn <= active[id]
      ensures r.Stale? <==>
                NeedsUndo(rows, key, active[id]) && Trips(old(caches)[id], pages, rows[key].undo, active[id])
      ensures AllLive(touched, led, active[id]) && Caches(old(caches)[id], caches[id], pages, touched)
      ensures NeedsUndo(rows, key, active[id]) && rows[key].undo.Some? ==> rows[key].undo.value.page in touched
    {
      hide Chain, Ordered, HistoryOk, Partitioned, OwnersOk, CachedOk, Trips;
      touched := {};
      ghost var h := HistOf(led.hist, key);
      if key !in rows {
        AbsentReads(S(), key, active[id]);
        r := Reply(None);
      } else if rows[key].intent {
        if rows[key].intentLsn > active[id] {
          IntentChain(key, rows[key], writer.value, pages, led.own, led.low, led.base, led.hist);
          r, touched := ReadFromUndo(id, rows[key].undo, h, 0);
        } else {
          r := MustWait;
        }
      } else {
        assert CommittedOk(rows[key], h, pages, led.own, led.low);
        if rows[key].commitLsn <= active[id] {
          r := Reply(if rows[key].tombstone then None else Some(rows[key].value));
        } else {
          r, touched := ReadFromUndo(id, rows[key].undo, h[..|h| - 1], rows[key].commitLsn);
        }
      }
    }

    // ---- The read-write transaction ----

    method BeginRw(txnId: nat)
      requires Valid() && writer == None
      modifies `active, `nextReadId, `writer
      ensures Valid()
      ensures writer.Some? && writer.value.txnId == txnId && writer.value.modified == {}
      ensures writer.value.readLsn == durable && writer.value.last == None
      ensures writer.value.readId !in old(active)
      ensures active == old(active)[writer.value.readId := durable]
      ensures forall k :: View(S(), k) == Visible(HistOf(led.hist, k), durable)
      ensures led.base == rows
    {
      hide Inv;
      var id := nextReadId;
      OpenWriter(S(), id, txnId);
      nextReadId := nextReadId + 1;
      active := active[id := durable];
      writer := Some(Writer(txnId, durable, id, {}, None, None, None, 0));
    }

    method OpenSegment()
      requires Valid() && writer.Some? && led.wpages == []
      modifies `pages, `meta, `writer, `led
      ensures Valid() && S() == AfterOpen(old(S()))
      ensures writer.Some? && writer.value.first.Some?
      ensures var (p, txnId) := (writer.value.first.value, old(writer).value.txnId);
              && pages == old(pages)[p := UndoImage(Some(SegHeader(txnId, 0, 0, InProgress, p, p, 0, 0, 0)), 0, [])]
              && (old(meta).free != [] ==> old(meta).free == meta.free + [p] && meta.nextUndo == old(meta).nextUndo)
              && (old(meta).free == [] ==> meta.free == [] && p == old(meta).nextUndo && meta.nextUndo == p + 1)
    {
      hide Inv, Alloc;
      TakesPage(S());
      OpenKeeps(S());
      var (p, m) := Alloc(meta);
      meta := m;
      pages := pages[p := NewSegmentImage(writer.value.txnId, p)];
      writer := Some(writer.value.(first := Some(p), last := Some(p)));
      led := led.(wpages := [p], own := led.own[p := 0]);
      assert S() == AfterOpen(old(S()));
    }

    method ExtendSegment()
      requires Valid() && writer.Some? && writer.value.last.Some?
      requires led.wpages != [] && writer.value.last.value == LastId(S()) && LastId(S()) in pages
      modifies `pages, `meta, `writer, `led
      ensures Valid() && S() == AfterExtend(old(S()))
      ensures writer.Some? && writer.value.last.Some?
      ensures var (p, was) := (writer.value.last.value, old(writer).value.last.value);
              && pages == old(pages)[was := old(pages)[was].(next := p)][p := UndoImage(None, 0, [])]
              && (old(meta).free != [] ==> old(meta).free == meta.free + [p] && meta.nextUndo == old(meta).nextUndo)
              && (old(meta).free == [] ==> meta.free == [] && p == old(meta).nextUndo && meta.nextUndo == p + 1)
    {
      hide Inv, Alloc;
      TakesPage(S());
      ExtendKeeps(S());
      var (p, m) := Alloc(meta);
      var last := writer.value.last.value;
      meta := m;
      pages := pages[last := pages[last].(next := p)];
      pages := pages[p := UndoImage(None, 0, [])];
      writer := Some(writer.value.(last := Some(p)));
      led := led.(wpages := led.wpages + [p], own := led.own[p := 0]);
      assert S() == AfterExtend(old(S()));
    }

    /** Saves a row's old version in the transaction's segment, opening or extending it as needed. */
    method AppendUndo(prev: Option<UndoPtr>, was: Row) returns (ptr: UndoPtr)
      requires Valid() && writer.Some?
      modifies `pages, `meta, `writer, `led
      ensures Valid() && writer.Some?
      ensures writer.value.(first := None, last := None, lastRec := None, count := 0)
              == old(writer).value.(first := None, last := None, lastRec := None, count := 0)
      ensures led == old(led).(wpages := led.wpages, own := led.own)
      ensures HasRec(pages, ptr) && ptr.page in led.own && led.own[ptr.page] == 0
      ensures writer.value.lastRec == Some(ptr) && writer.value.count == old(writer).value.count + 1
      ensures RecAt(pages, ptr) == Rec(prev, old(writer).value.txnId, old(writer).value.lastRec,
                                       was.commitLsn, was.tombstone, was.intent, was.value)
      ensures Saved(old(writer).value.last, old(pages), writer.value.last, pages, ptr)
    {
      hide BaseOk, RowsOk, HistsOk, HistoryOk, Partitioned, OwnersOk, SnapsOk, Linked, HasRec, RecAt;
      var rec := Rec(prev, writer.value.txnId, writer.value.lastRec,
                     was.commitLsn, was.tombstone, was.intent, was.value);
      if writer.value.last == None {
        OpenSegment();
      }
      InProgressSegment(S());
      if |pages[writer.value.last.value].recs| >= RECORDS_PER_PAGE {
        ExtendSegment();
        InProgressSegment(S());
      }
      AppendKeeps(S(), rec);
      ghost var s2 := AfterAppend(S(), rec);
      var last := writer.value.last.value;
      ptr := UndoPtr(last, |pages[last].recs|);
      pages := pages[last := pages[last].(recs := pages[last].recs + [rec])];
      writer := Some(writer.value.(lastRec := Some(ptr), count := writer.value.count + 1));
      assert S() == s2;
    }

    /** The undo pointer and intent LSN of the intent that replaces `was`, saving `was` when it is committed. */
    method Supersede(key: Key, was: Row) returns (undo: Option<UndoPtr>, intentLsn: nat)
      requires Valid() && writer.Some? && key in rows && was == rows[key]
      modifies `pages, `meta, `writer, `led
      ensures Valid() && writer.Some?
      ensures writer.value.(first := None, last := None, lastRec := None, count := 0)
              == old(writer).value.(first := None, last := None, lastRec := None, count := 0)
      ensures led == old(led).(wpages := led.wpages, own := led.own)
      ensures forall row :: IsIntent(row, writer.value.txnId, undo, intentLsn) ==>
                            IntentOk(row, key, pages, led.own, led.base, writer.value)
      ensures intentLsn == writer.value.readLsn
      ensures key !in old(writer).value.modified ==>
                undo.Some? && Saved(old(writer).value.last, old(pages), writer.value.last, pages, undo.value)
    {
      hide Saved, BaseOk, HistsOk, HistoryOk, Partitioned, OwnersOk, SnapsOk, HasRec, RecAt, WriterOk;
      if was.intent && was.intentTxn == writer.value.txnId {
        assert key in writer.value.modified by { CommittedRow(S(), key); }
        undo, intentLsn := was.undo, was.intentLsn;
      } else {
        CommittedRow(S(), key);
        var ptr := AppendUndo(was.undo, was);
        undo, intentLsn := Some(ptr), writer.value.readLsn;
      }
    }

    method Put(key: Key, value: Value)
      requires Valid() && writer.Some?
      modifies `rows, `pages, `meta, `writer, `led
      ensures Valid() && writer.Some? && writer.value.txnId == old(writer).value.txnId
      ensures led.hist == old(led).hist && led.low == old(led).low && led.base == old(led).base
      ensures forall k :: View(S(), k) == if k == key then Some(value) else View(old(S()), k)
      ensures writer.value.modified == old(writer).value.modified + {key}
      ensures writer.value.readLsn == old(writer).value.readLsn && writer.value.readId == old(writer).value.readId
      ensures key in rows && rows == old(rows)[key := rows[key]]
      ensures rows[key].intent && rows[key].intentLsn == writer.value.readLsn
      ensures key in old(rows) && key !in old(writer).value.modified ==>
                rows[key].undo.Some? && Saved(old(writer).value.last, old(pages), writer.value.last, pages,
                                              rows[key].undo.value)
    {
      hide Inv, IntentOk, Saved;
      var undo: Option<UndoPtr>, intentLsn := None, writer.value.readLsn;
      if key in rows {
        undo, intentLsn := Supersede(key, rows[key]);
      } else {
        AbsentIntent(S(), key);
      }
      var row := Row(value, 0, undo, false, true, writer.value.txnId, intentLsn);
      WriteKeeps(S(), key, row);
      ghost var s2 := AfterWrite(S(), key, row);
      rows := rows[key := row];
      writer := Some(writer.value.(modified := writer.value.modified + {key}));
      assert S() == s2;
    }

    method Delete(key: Key)
      requires Valid() && writer.Some?
      modifies `rows, `pages, `meta, `writer, `led
      ensures Valid() && writer.Some? && writer.value.txnId == old(writer).value.txnId
      ensures led.hist == old(led).hist && led.low == old(led).low && led.base == old(led).base
      ensures forall k :: View(S(), k) == if k == key then None else View(old(S()), k)
      ensures writer.value.readLsn == old(writer).value.readLsn && writer.value.readId == old(writer).value.readId
      ensures key !in old(rows) ==> rows == old(rows) && writer == old(writer) && pages == old(pages)
      ensures key in old(rows) ==>
                && writer.value.modified == old(writer).value.modified + {key}
                && key in rows && rows == old(rows)[key := rows[key]]
                && rows[key].tombstone && rows[key].value == old(rows)[key].value
                && rows[key].intent && rows[key].intentLsn == writer.value.readLsn
    {
      hide Inv, IntentOk;
      if key !in rows {
        assert View(S(), key) == None by { InvLow(S()); AbsentReads(S(), key, durable); }
        return;
      }
      var was := rows[key];
      var undo, intentLsn := Supersede(key, was);
      var row := Row(was.value, 0, undo, true, true, writer.value.txnId, intentLsn);
      WriteKeeps(S(), key, row);
      ghost var s2 := AfterWrite(S(), key, row);
      rows := rows[key := row];
      writer := Some(writer.value.(modified := writer.value.modified + {key}));
      assert S() == s2;
    }

    /** The transaction reads its own writes over its snapshot. */
    method ReadOwn(key: Key) returns (r: Option<Value>)
      requires Valid() && writer.Some?
      ensures r == View(S(), key)
    {
      hide Chain, SnapsOk, HistoryOk, Partitioned, OwnersOk;
      if key !in rows {
        AbsentReads(S(), key, durable);
        return None;
      }
      var row := rows[key];
      if !row.intent {
        assert CommittedOk(row, HistOf(led.hist, key), pages, led.own, led.low);
      }
      assert row.intent || row.commitLsn <= writer.value.readLsn;
      r := if row.tombstone then None else Some(row.value);
    }

    method StampRows(keys: set<Key>, c: nat)
      requires keys <= rows.Keys
      modifies `rows
      ensures rows == StampAll(old(rows), keys, c)
    {
      var todo := keys;
      while todo != {}
        invariant todo <= keys <= rows.Keys && rows == StampAll(old(rows), keys - todo, c)
      {
        var k :| k in todo;
        rows := rows[k := Stamped(rows[k], c)];
        todo := todo - {k};
        assert rows == StampAll(old(rows), keys - todo, c);
      }
      assert keys - todo == keys;
    }

    /** Gives the transaction's segment its final header and hooks it onto the history list. */
    method RetireSegment(start: nat, c: nat)
      requires Valid() && writer.Some? && writer.value.first.Some? && writer.value.last.Some?
      requires c > durable && led.wpages != [] && writer.value.first.value == led.wpages[0]
      modifies `pages, `meta
      ensures meta.free == old(meta).free && meta.nextUndo == old(meta).nextUndo
      ensures HistoryOk(pages, meta, led.segs + [Segment(led.wpages, c)])
      ensures led.wpages[0] in pages
              && pages[led.wpages[0]].head == Some(SegHeader(writer.value.txnId, start, c, Committed, led.wpages[0],
                                                             writer.value.last.value, writer.value.count,
                                                             old(meta).histTail, 0))
      ensures SameRecs(old(pages), led.own, led.dead, pages)
    {
      hide Inv, HistoryOk, SameRecs;
      var first, tail := writer.value.first.value, meta.histTail;
      var hdr := SegHeader(writer.value.txnId, start, c, Committed, first, writer.value.last.value,
                           writer.value.count, tail, 0);
      HistoryAppends(S(), hdr);
      pages := pages[first := pages[first].(head := Some(hdr))];
      if tail != 0 {
        pages := pages[tail := pages[tail].(head := Some(pages[tail].head.value.(next := first)))];
      } else {
        meta := meta.(histHead := first);
      }
      meta := meta.(histTail := first);
      assert pages == Retire(old(pages), led.wpages, hdr, tail);
      assert meta == MetaAfter(old(meta), first);
    }

    /**
     * Commits with `n` pages to log. Every key the transaction changed gains one version at the
     * commit LSN, and readers at that LSN see exactly what the transaction saw.
     */
    method Commit(n: nat) returns (lsn: nat)
      requires Valid() && writer.Some? && n >= 1
      modifies `rows, `pages, `meta, `nextLsn, `durable, `active, `writer, `led
      ensures Valid() && writer == None
      ensures lsn == old(nextLsn) + n && durable == nextLsn == lsn > old(durable)
      ensures active == old(active) - {old(writer).value.readId}
      ensures forall k :: Visible(HistOf(led.hist, k), lsn) == View(old(S()), k)
      ensures HistGrows(old(led).hist, led.hist, old(durable))
      ensures led.low == old(led).low
      ensures StampedTo(old(rows), rows, old(writer).value.modified, lsn)
    {
      hide StampedTo, Inv, HistoryOk, HistAfter, Promote, SameRecs, StampAll, Visible, View, HistGrows;
      ghost var s := S();
      CommitReady(s);
      var start, w := nextLsn, writer.value;
      lsn := start + n;
      if w.first.Some? {
        RetireSegment(start, lsn);
      }
      StampRows(w.modified, lsn);
      StampAllStamps(s.rows, w.modified, lsn);
      nextLsn, durable := lsn, lsn;
      active := active - {w.readId};
      writer := None;
      led := AfterCommit(s, pages, meta, lsn).led;
      assert S() == AfterCommit(s, pages, meta, lsn);
      CommitKeeps(s, pages, meta, lsn);
      forall k ensures Visible(HistOf(led.hist, k), lsn) == View(s, k) {
        CommitPublishesView(s, pages, meta, lsn, k);
      }
    }

    /** Puts one key back to the row it had when the transaction began, or removes it. */
    method Restore(key: Key, ghost s: State)
      requires Inv(s) && s.writer == writer && s.pages == pages
      requires key in Modified(writer) && key in s.rows && key in rows && rows[key] == s.rows[key]
      modifies `rows
      ensures rows == if key in s.led.base then old(rows)[key := s.led.base[key]] else old(rows) - {key}
    {
      hide Inv;
      RestoredIsBase(s, key);
      var row := rows[key];
      match row.undo
      case None =>
        rows := rows - {key};
      case Some(p) =>
        var rec := pages[p.page].recs[p.slot];
        var vacant := rec.oldCommitLsn == 0 && rec.prev == None;
        var restored := Row(rec.oldValue, rec.oldCommitLsn, rec.prev, rec.oldTombstone, false, 0, 0);
        rows := if vacant then rows - {key} else rows[key := restored];
    }

    /** Aborts: every row is exactly what it was when the transaction began. */
    method Abort()
      requires Valid() && writer.Some?
      modifies `rows, `active, `writer, `led
      ensures Valid() && writer == None
      ensures rows == old(led).base
      ensures active == old(active) - {old(writer).value.readId}
      ensures led.hist == old(led).hist && led.low == old(led).low
      ensures pages == old(pages) && durable == old(durable)
    {
      hide Inv;
      ghost var s := S();
      AbortReady(s);
      var todo := writer.value.modified;
      while todo != {}
        invariant unchanged(`writer, `led, `active)
        invariant todo <= writer.value.modified
        invariant forall k :: k in todo ==> k in rows && rows[k] == s.rows[k]
        invariant forall k :: k !in todo ==> (k in rows <==> k in led.base)
        invariant forall k :: k !in todo && k in rows ==> rows[k] == led.base[k]
      {
        var k :| k in todo;
        Restore(k, s);
        todo := todo - {k};
      }
      assert rows == led.base;
      active := active - {writer.value.readId};
      writer := None;
      led := AfterAbort(s).led;
      AbortKeeps(s);
      assert S() == AfterAbort(s);
    }

    // ---- Collection ----

    /** The watermark: the oldest active snapshot, or the durable LSN when there is none. */
    method GcLsn() returns (g: nat)
      ensures active.Keys == {} ==> g == durable
      ensures active.Keys != {} ==> exists id :: id in active && active[id] == g
      ensures forall id :: id in active ==> g <= active[id]
    {
      g := durable;
      var todo := active.Keys;
      if todo != {} {
        var id :| id in todo;
        g := active[id];
      }
      while todo != {}
        invariant todo <= active.Keys
        invariant active.Keys == {} ==> g == durable
        invariant active.Keys != {} ==> exists id :: id in active && active[id] == g
        invariant forall id :: id in active && id !in todo ==> g <= active[id]
      {
        var id :| id in todo;
        if active[id] < g {
          g := active[id];
        }
        todo := todo - {id};
      }
    }

    method RemoveRows(keys: seq<Key>)
      modifies `rows
      ensures rows == old(rows) - KeySet(keys)
    {
      var i := 0;
      while i < |keys|
        invariant i <= |keys| && rows == old(rows) - KeySet(keys[..i])
      {
        rows := rows - {keys[i]};
        assert keys[..i + 1] == keys[..i] + [keys[i]];
        i := i + 1;
      }
      assert keys[..i] == keys;
    }

    method ClearUndo(keys: seq<Key>)
      requires KeySet(keys) <= rows.Keys
      modifies `rows
      ensures rows == Swept(old(rows), {}, KeySet(keys))
    {
      var i := 0;
      while i < |keys|
        invariant i <= |keys| && KeySet(keys) <= rows.Keys
        invariant rows == Swept(old(rows), {}, KeySet(keys[..i]))
      {
        assert keys[i] in KeySet(keys);
        rows := rows[keys[i] := rows[keys[i]].(undo := None)];
        assert keys[..i + 1] == keys[..i] + [keys[i]];
        i := i + 1;
      }
      assert keys[..i] == keys;
    }

    /** Looks at up to `budget` rows of the scan for dead tombstones and for dead undo chains. */
    method FindGarbage(scan: seq<Key>, budget: nat, g: nat) returns (scanned: nat, gone: seq<Key>, cleared: seq<Key>)
      requires forall i :: 0 <= i < |scan| ==> scan[i] in rows
      ensures scanned == if |scan| < budget then |scan| else budget
      ensures KeySet(gone) == Doomed(rows, scan[..scanned], g)
      ensures KeySet(cleared) == Unhooked(rows, scan[..scanned], g)
    {
      hide Doomed, Unhooked, KeySet;
      KeySetEmpty();
      assert scan[..0] == [];
      NoneDoomed(rows, g);
      gone, cleared, scanned := [], [], 0;
      while scanned < |scan| && scanned < budget
        invariant scanned <= |scan| && scanned <= budget
        invariant KeySet(gone) == Doomed(rows, scan[..scanned], g)
        invariant KeySet(cleared) == Unhooked(rows, scan[..scanned], g)
      {
        var k := scan[scanned];
        var row := rows[k];
        assert scan[..scanned + 1] == scan[..scanned] + [k];
        ScanOne(rows, scan[..scanned], k, g);
        scanned := scanned + 1;
        if row.commitLsn != 0 && row.commitLsn <= g {
          if row.tombstone {
            KeySetPush(gone, k);
            gone := gone + [k];
          } else if row.undo.Some? {
            KeySetPush(cleared, k);
            cleared := cleared + [k];
          }
        }
      }
    }

    /** Removes dead tombstones and unhooks dead undo chains among the rows looked at; says if it `wrote` any. */
    method Sweep(scan: seq<Key>, budget: nat, g: nat, n: nat) returns (scanned: nat, ghost wrote: bool)
      requires Valid() && writer == None && n >= 1
      requires forall i :: 0 <= i < |scan| ==> scan[i] in rows
      requires led.low <= g <= durable && forall id :: id in active ==> g <= active[id]
      modifies `rows, `nextLsn, `durable, `led
      ensures Valid()
      ensures scanned == if |scan| < budget then |scan| else budget
      ensures led == old(led).(low := g, base := rows)
      ensures SweptTo(old(rows), rows, scan[..scanned], g) && (wrote <==> rows != old(rows))
      ensures durable == if wrote then nextLsn else old(durable)
      ensures nextLsn == old(nextLsn) + (if wrote then n else 0)
    {
      hide Inv, Swept, SweptTo, Doomed, Unhooked, KeySet;
      var gone, cleared;
      scanned, gone, cleared := FindGarbage(scan, budget, g);
      ScanSound(rows, scan[..scanned], g);
      SweptRows(rows, scan[..scanned], g);
      InvClock(S());
      KeySetEmpty();
      wrote := gone != [] || cleared != [];
      if gone != [] || cleared != [] {
        SweepKeeps(S(), g, KeySet(gone), KeySet(cleared), nextLsn + n);
        ghost var s2 := AfterSweep(S(), g, KeySet(gone), KeySet(cleared), nextLsn + n);
        SweptInTwo(rows, KeySet(gone), KeySet(cleared));
        SweepFinds(rows, scan[..scanned], g, gone, cleared);
        RemoveRows(gone);
        ClearUndo(cleared);
        nextLsn := nextLsn + n;
        durable := nextLsn;
        led := led.(low := g, base := rows);
        assert S() == s2;
      } else {
        SweptNothing(rows);
        RaiseLow(S(), g);
        led := led.(low := g, base := rows);
      }
    }

    /** Pushes every page of a segment onto the free list, following the page links. */
    method FreeChain(first: PageId, free: seq<PageId>, ghost ids: seq<PageId>) returns (free2: seq<PageId>)
      requires Linked(pages, ids) && first == ids[0] && |free| <= UNDO_FREE_CAP
      requires 0 !in ids
      ensures free2 == Push(free, ids)
      ensures free <= free2 && free2[|free|..] <= ids && |free2| <= UNDO_FREE_CAP
      ensures |free2| < UNDO_FREE_CAP ==> free2 == free + ids
    {
      hide Push;
      PushNone(free);
      PushKeepsOrder(free, ids);
      free2 := free;
      var pid := first;
      ghost var i := 0;
      assert ids[..0] == [] && forall t :: 0 <= t < |ids| ==> ids[t] != 0;
      while pid != 0
        invariant 0 <= i <= |ids| && pid == IdAt(ids, i)
        invariant |free2| <= UNDO_FREE_CAP && free2 == Push(free, ids[..i])
        decreases |ids| - i
      {
        assert LinkOk(pages, ids, i);
        PushMore(free, ids[..i], pid);
        PushOne(free2, pid);
        assert ids[..i + 1] == ids[..i] + [pid];
        if |free2| < UNDO_FREE_CAP {
          free2 := free2 + [pid];
        }
        pid := pages[pid].next;
        i := i + 1;
      }
      assert ids[..i] == ids;
    }

    /** Takes the oldest segment off the history list and frees its pages, on copies of the pages. */
    method PurgeOldest(m: Meta, dirty: Pages, ghost s: State) returns (m2: Meta, dirty2: Pages)
      requires Inv(s) && s.led.segs != [] && s.meta == m
      requires Shadows(pages, s) && s.pages == pages + dirty
      ensures AfterPurge(s).meta == m2 && AfterPurge(s).pages == pages + dirty2 && dirty2 != map[]
      ensures m.histHead in pages && pages[m.histHead].head.Some?
      ensures var hdr := pages[m.histHead].head.value;
              && m2.histHead == hdr.next
              && m.histHead in dirty2
              && dirty2[m.histHead] == pages[m.histHead].(head := Some(hdr.(state := Purged, prev := 0, next := 0)))
              && (forall p :: p in dirty2 ==> p in dirty || p == m.histHead || p == hdr.next)
    {
      hide Inv, Purge, LedPurged, Shadows, Linked, HeadOk, Push;
      HeadMeansSegment(s);
      OldestSegment(s);
      PurgeReads(pages, s);
      PurgeMarks(pages, dirty, s);
      var head := m.histHead;
      var hdr := pages[head].head.value;
      m2, dirty2 := m, dirty;
      if hdr.next == 0 {
        m2 := m2.(histHead := 0, histTail := 0);
      } else {
        m2 := m2.(histHead := hdr.next);
        dirty2 := dirty2[hdr.next := AsFirst(pages[hdr.next])];
      }
      var free := FreeChain(hdr.first, m2.free, s.led.segs[0].ids);
      m2 := m2.(free := free);
      dirty2 := dirty2[head := Killed(pages[head])];
    }

    /** Shortens the history list from its old end, on copies, for as long as segments are at or below `g`. */
    method PurgeCopies(g: nat) returns (m: Meta, dirty: Pages, ghost s: State, ghost j: nat)
      requires Valid() && writer == None && g == led.low
      ensures Inv(s) && s == S().(pages := pages + dirty, meta := m, led := s.led)
      ensures dirty == map[] <==> j == 0
      ensures dirty == map[] ==> s == S()
      ensures IsPurgeOf(led, s.led, j)
      ensures |m.free| < UNDO_FREE_CAP ==> s.led.dead == led.dead
    {
      hide Inv, Purge, LedPurged, MetaPurged, Shadows, Dropped, Linked, HeadOk, Push, FirstId;
      ShadowsSelf(S());
      m, dirty, s, j := meta, map[], S(), 0;
      assert pages + dirty == pages;
      DropNone(led);
      while m.histHead != 0
        invariant Inv(s) && s == S().(pages := pages + dirty, meta := m, led := s.led)
        invariant Shadows(pages, s) && Dropped(led, s.led, j) && s.led.low == g
        invariant (dirty == map[] <==> j == 0) && (dirty == map[] ==> s == S())
        invariant |m.free| < UNDO_FREE_CAP ==> s.led.dead == led.dead
        decreases |s.led.segs|
      {
        HeadMeansSegment(s);
        OldestSegment(s);
        PurgeReads(pages, s);
        var hdr := pages[m.histHead].head.value;
        if hdr.state != Committed || hdr.commitLsn > g {
          break;
        }
        PurgeKeeps(s);
        PurgeShadows(pages, s);
        PurgeLosesNothing(s);
        m, dirty := PurgeOldest(m, dirty, s);
        DropOne(led, s.led, j, m.free);
        s, j := AfterPurge(s), j + 1;
      }
      HeadMeansSegment(s);
      PurgeStops(s, led, j);
    }

    /**
     * Purges segments from the old end of the history list for as long as they are at or below
     * the watermark; a freed page goes to the free list or, past its cap, out of use for good.
     */
    method PurgeSegments(g: nat, n: nat) returns (ghost j: nat)
      requires Valid() && writer == None && n >= 1 && g == led.low
      modifies `pages, `meta, `nextLsn, `durable, `led
      ensures Valid()
      ensures IsPurgeOf(old(led), led, j)
      ensures |meta.free| < UNDO_FREE_CAP ==> led.dead == old(led).dead
      ensures durable == if j > 0 then nextLsn else old(durable)
      ensures nextLsn == old(nextLsn) + (if j > 0 then n else 0)
    {
      hide Inv, IsPurgeOf;
      InvClock(S());
      ghost var was := led;
      var m, dirty;
      ghost var s;
      m, dirty, s, j := PurgeCopies(g);
      if dirty != map[] {
        BumpKeeps(s, nextLsn + n);
        pages, meta, led := pages + dirty, m, s.led;
        nextLsn := nextLsn + n;
        durable := nextLsn;
        assert S() == s.(nextLsn := nextLsn, durable := nextLsn);
      }
      assert IsPurgeOf(was, led, j);
    }

    /**
     * One collection pass: sweeps rows, if it `wrote` any, and purges the `j` oldest segments. It
     * changes what is stored, never what any snapshot sees.
     */
    method GcOnce(scan: seq<Key>, budget: nat, n: nat, purgeN: nat)
      returns (scanned: nat, ghost wrote: bool, ghost j: nat)
      requires Valid() && writer == None && n >= 1 && purgeN >= 1
      requires forall i :: 0 <= i < |scan| ==> scan[i] in rows
      modifies `rows, `pages, `meta, `nextLsn, `durable, `led
      ensures Valid()
      ensures led.hist == old(led).hist && durable >= old(durable)
      ensures scanned == if |scan| < budget then |scan| else budget
      ensures budget == 0 ==> rows == old(rows) && led == old(led) && !wrote && j == 0
      ensures nextLsn == old(nextLsn) + (if wrote then n else 0) + (if j > 0 then purgeN else 0)
      ensures budget > 0 ==>
                && SweptTo(old(rows), rows, scan[..scanned], led.low)
                && (wrote <==> rows != old(rows))
                && (|meta.free| < UNDO_FREE_CAP ==> led.dead == old(led).dead)
                && (forall i :: 0 <= i < |led.segs| ==> led.segs[i].commit > led.low)
                && j <= |old(led).segs| && led.segs == old(led).segs[j..]
                && (active == map[] ==> led.low == old(durable))
                && (active != map[] ==> exists id :: id in active && led.low == active[id])
    {
      hide Inv, SweptTo, IsPurgeOf;
      assert scan[..0] == [];
      if budget == 0 {
        return 0, false, 0;
      }
      var g := GcLsn();
      WatermarkBounds(S(), g);
      InvClock(S());
      scanned, wrote := Sweep(scan, budget, g, n);
      ghost var mid := led;
      InvClock(S());
      j := PurgeSegments(g, purgeN);
      PurgeFacts(mid, led, j);
    }

    /** The scan a collection pass makes: every row, once. */
    method ListRows() returns (keys: seq<Key>)
      ensures forall k :: k in keys <==> k in rows
      ensures |keys| == |rows|
    {
      var todo := rows.Keys;
      keys := [];
      while todo != {}
        invariant todo <= rows.Keys && forall k :: k in keys <==> k in rows && k !in todo
        invariant |keys| + |todo| == |rows|
      {
        var k :| k in todo;
        keys, todo := keys + [k], todo - {k};
      }
    }

    // ---- Runs ----

    /** Takes one step if it is possible now, else none. Histories only gain versions after `durable`. */
    method Step(op: Op)
      requires Valid()
      modifies this
      ensures Valid() && durable >= old(durable)
      ensures HistGrows(old(led).hist, led.hist, old(durable))
      ensures forall id :: id in old(caches) && id in old(active) && op != Close(id) ==>
                id in caches && id in active && active[id] == old(active)[id]
      ensures op.Open? ==> exists id: nat :: id !in old(active) && active == old(active)[id := durable]
      ensures op.Close? && op.id in old(caches) ==> active == old(active) - {op.id} && caches == old(caches) - {op.id}
      ensures op.BeginTxn? && old(writer) == None ==>
                writer.Some? && writer.value.txnId == op.txnId && writer.value.readLsn == durable
      ensures op.PutKey? && old(writer).Some? ==>
                writer.Some? && forall k :: View(S(), k) == if k == op.key then Some(op.value) else View(old(S()), k)
      ensures op.DeleteKey? && old(writer).Some? ==>
                writer.Some? && forall k :: View(S(), k) == if k == op.key then None else View(old(S()), k)
      ensures op.CommitTxn? && old(writer).Some? && op.pages >= 1 ==>
                writer == None && forall k :: Visible(HistOf(led.hist, k), durable) == View(old(S()), k)
      ensures op.AbortTxn? && old(writer).Some? ==> writer == None && rows == old(led).base
      ensures op.Collect? && old(writer) == None && op.sweepPages >= 1 && op.purgePages >= 1 && 0 < op.budget ==>
                && (forall i :: 0 <= i < |led.segs| ==> led.segs[i].commit > led.low)
                && (op.budget >= |old(rows)| ==> SweptAll(old(rows), rows, led.low))
    {
      hide Inv, Visible, View, SweptTo, SweptAll;
      SnapshotIds(S());
      match op
      case Open => var _ := BeginRo();
      case Close(id) => if id in caches { EndRo(id); }
      case Query(id, key) => if id in caches { var _, _ := Read(id, key); }
      case BeginTxn(txnId) => if writer == None { BeginRw(txnId); }
      case PutKey(key, value) => if writer.Some? { Put(key, value); }
      case DeleteKey(key) => if writer.Some? { Delete(key); }
      case CommitTxn(n) => if writer.Some? && n >= 1 { var _ := Commit(n); }
      case AbortTxn => if writer.Some? { Abort(); }
      case Collect(budget, n, purgeN) =>
        if writer == None && n >= 1 && purgeN >= 1 {
          var scan := ListRows();
          var _, _, _ := GcOnce(scan, budget, n, purgeN);
          assert scan[..|scan|] == scan;
          if 0 < budget {
            SweptWhole(old(rows), rows, scan, led.low);
          }
        }
    }

    /**
     * Repeatable reads: whatever happens between two reads of one key by one open snapshot, if
     * both answer they answer the same.
     */
    method ReadTwice(id: nat, key: Key, ops: seq<Op>) returns (first: ReadResult, second: ReadResult)
      requires Valid() && id in caches && id in active
      requires Close(id) !in ops
      modifies this
      ensures Valid()
      ensures first.Reply? && second.Reply? ==> first == second
    {
      hide Inv, Visible, HistGrows;
      ghost var touched;
      first, touched := Read(id, key);
      SnapshotAboveLow(S(), id);
      ghost var hist, at, r := led.hist, durable, active[id];
      HistStays(hist, at);
      var i := 0;
      while i < |ops|
        invariant i <= |ops| && Valid() && id in caches && id in active && active[id] == r
        invariant durable >= at >= r && HistGrows(hist, led.hist, at)
      {
        ghost var hist1, at1 := led.hist, durable;
        Step(ops[i]);
        HistGrowsOn(hist, hist1, led.hist, at, at1);
        i := i + 1;
      }
      second, touched := Read(id, key);
      SnapshotStable(hist, led.hist, at, r, key);
    }
  }

  lemma TakesPage(s: State)
    requires Inv(s)
    ensures var (p, m) := Alloc(s.meta);
            && (s.meta.free != [] ==> s.meta.free == m.free + [p] && m.nextUndo == s.meta.nextUndo)
            && (s.meta.free == [] ==> m.free == [] && p == s.meta.nextUndo && m.nextUndo == p + 1)
  {
    hide BaseOk, RowsOk, SnapsOk, HistoryOk, OwnersOk, WriterOk, HistsOk, Partitioned;
    AllocFresh(s.meta, s.led.own, s.led.dead, 0);
  }

  // ---- A read that fails ----

  lemma SeenIsThere(s: State, k: Key)
    requires Inv(s) && s.writer.Some? && s.writer.value.modified == {} && View(s, k).Some?
    ensures k in s.rows
  {
    hide Inv;
    if k !in s.rows {
      InvLow(s);
      AbsentReads(s, k, s.durable);
    }
  }

  method Commits(k1: Key, k2: Key, value: Value) returns (e: Engine)
    requires k1 != k2
    ensures fresh(e) && e.Valid() && e.writer == None
    ensures Visible(HistOf(e.led.hist, k1), e.durable) == Visible(HistOf(e.led.hist, k2), e.durable) == Some(value)
  {
    hide Inv, Visible, HistGrows, Saved, HistOf;
    e := new Engine();
    e.BeginRw(1);
    e.Put(k1, value);
    e.Put(k2, value);
    assert View(e.S(), k1) == View(e.S(), k2) == Some(value);
    var _ := e.Commit(1);
  }

  // An engine with `k1` and `k2` committed, a snapshot, a later commit and a transaction begun after it.
  method BehindSnapshot(k1: Key, k2: Key, value: Value) returns (e: Engine, id: nat)
    requires k1 != k2
    ensures fresh(e) && e.Valid() && e.writer.Some? && e.writer.value.modified == {} && e.writer.value.last == None
    ensures e.writer.value.readLsn == e.durable && k1 in e.rows && k2 in e.rows
    ensures id in e.caches && id in e.active && e.active[id] < e.durable && e.caches[id] == map[]
  {
    hide Inv, Visible, HistGrows, Saved, HistOf, View;
    e := Commits(k1, k2, value);
    id := e.BeginRo();
    e.BeginRw(2);
    e.Put(k1, value);
    assert View(e.S(), k1) == View(e.S(), k2) == Some(value);
    var _ := e.Commit(1);
    e.BeginRw(3);
    SeenIsThere(e.S(), k1);
    SeenIsThere(e.S(), k2);
  }

  /**
   * A snapshot read that fails: the snapshot reads one key and so caches the undo page the
   * transaction in progress is filling; the transaction then saves a second key on that page.
   */
  method StaleRead(k1: Key, k2: Key, value: Value) returns (first: ReadResult, second: ReadResult)
    requires k1 != k2
    ensures first != Stale && second == Stale
  {
    hide Inv, Trips, AllLive;
    var e, id := BehindSnapshot(k1, k2, value);
    ghost var touched;
    e.Put(k1, value);
    EmptyCache(e.pages, e.rows[k1].undo, e.active[id]);
    first, touched := e.Read(id, k1);
    e.Put(k2, value);
    TripsHere(e.caches[id], e.pages, e.rows[k2].undo.value, e.active[id]);
    second, touched := e.Read(id, k2);
  }

  lemma {:induction false} EmptyCache(pages: Pages, ptr: Option<UndoPtr>, r: nat)
    ensures !Trips(map[], pages, ptr, r)
  {
    forall n: nat ensures !PastImage(map[], pages, ptr, r, n) {
      NeverPast(pages, ptr, r, n);
    }
  }

  lemma {:induction false} NeverPast(pages: Pages, ptr: Option<UndoPtr>, r: nat, n: nat)
    ensures !PastImage(map[], pages, ptr, r, n)
    decreases n
  {
    if n > 0 && ptr.Some? && HasRec(pages, ptr.value) {
      NeverPast(pages, RecAt(pages, ptr.value).prev, r, n - 1);
    }
  }
}
