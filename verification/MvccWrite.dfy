/** The steps of a read-write transaction before it ends: growing its undo segment and writing rows. */
module MvccWrite {
  import opened Bytes
  import opened UndoModel
  import opened MvccState

  function Alloc(meta: Meta): (PageId, Meta) {
    var next := if meta.nextUndo < UNDO_BASE then UNDO_BASE else meta.nextUndo;
    if meta.free != [] then
      (meta.free[|meta.free| - 1], meta.(free := meta.free[..|meta.free| - 1], nextUndo := next))
    else
      (next, meta.(nextUndo := next + 1))
  }

  /**
   * An allocated page belonged to nobody, and afterwards belongs to its taker alone: it is the page
   * freed last, or a page never used before when none is free.
   */
  lemma AllocFresh(meta: Meta, own: Own, dead: set<PageId>, c: nat)
    requires Partitioned(meta, own, dead)
    ensures var (p, m) := Alloc(meta);
            && p >= UNDO_BASE && p !in own && p !in dead
            && Partitioned(m, own[p := c], dead)
            && m.histHead == meta.histHead && m.histTail == meta.histTail
            && (meta.free != [] ==> meta.free == m.free + [p] && m.nextUndo == meta.nextUndo)
            && (meta.free == [] ==> m.free == [] && p == meta.nextUndo && m.nextUndo == p + 1)
  {
    var (p, m) := Alloc(meta);
    if meta.free != [] {
      var n := |meta.free| - 1;
      assert meta.free == m.free + [p] && p in meta.free;
      forall i | 0 <= i < |m.free| ensures m.free[i] != p {
        assert meta.free[i] != meta.free[n];
      }
      assert forall q :: q in meta.free <==> q in m.free || q == p;
    }
  }

  // ---- Pages of the segment in progress may grow; all other live and dead pages stay ----

  ghost predicate Grown(pages: Pages, own: Own, dead: set<PageId>, pages2: Pages, own2: Own) {
    && (forall p :: p in own ==>
          && p in own2 && own2[p] == own[p]
          && p in pages && p in pages2 && pages[p].recs <= pages2[p].recs
          && (own[p] != 0 ==> pages2[p] == pages[p]))
    && (forall p :: p in dead ==> p in pages && p in pages2 && pages2[p] == pages[p])
  }

  lemma BaseGrows(pages: Pages, own: Own, dead: set<PageId>, pages2: Pages, own2: Own,
                  low: nat, base: Rows, hist: Hist)
    requires BaseOk(pages, own, low, base, hist) && Grown(pages, own, dead, pages2, own2)
    ensures BaseOk(pages2, own2, low, base, hist)
  {
    hide Chain;
    forall k | k in base
      ensures CommittedOk(base[k], HistOf(hist, k), pages2, own2, low)
    {
      var h := HistOf(hist, k);
      assert CommittedOk(base[k], h, pages, own, low);
      if base[k].commitLsn > low {
        ChainKept(pages, own, low, pages2, own2, low, base[k].undo, h[..|h| - 1],
                  base[k].commitLsn, base[k].commitLsn);
      }
    }
  }

  lemma RowsGrow(rows: Rows, pages: Pages, own: Own, dead: set<PageId>, pages2: Pages, own2: Own,
                 base: Rows, writer: Option<Writer>, writer2: Option<Writer>)
    requires RowsOk(rows, pages, own, base, writer) && Grown(pages, own, dead, pages2, own2)
    requires writer.Some? && writer2.Some?
    requires writer2.value.modified == writer.value.modified
    requires writer2.value.txnId == writer.value.txnId && writer2.value.readLsn == writer.value.readLsn
    ensures RowsOk(rows, pages2, own2, base, writer2)
  {
    forall k | k in Modified(writer2)
      ensures k in rows && IntentOk(rows[k], k, pages2, own2, base, writer2.value)
    {
      assert IntentOk(rows[k], k, pages, own, base, writer.value);
      if k in base {
        assert RecAt(pages2, rows[k].undo.value) == RecAt(pages, rows[k].undo.value);
      }
    }
  }

  lemma SnapsGrow(active: map<nat, nat>, caches: map<nat, Pages>, pages: Pages, led: Ledger,
                  durable: nat, pages2: Pages, led2: Ledger)
    requires SnapsOk(active, caches, pages, led, durable)
    requires Grown(pages, led.own, led.dead, pages2, led2.own)
    requires led2.low == led.low && led2.dead == led.dead
    ensures SnapsOk(active, caches, pages2, led2, durable)
  {
    forall id, p | id in caches && p in caches[id]
      ensures CachedOk(caches[id][p], p, pages2, led2, active[id])
    {
      assert CachedOk(caches[id][p], p, pages, led, active[id]);
    }
  }

  lemma SegPage(segs: seq<Segment>, own: Own, i: int, j: int)
    requires SegsOwned(segs, own) && 0 <= i < |segs| && 0 <= j < |segs[i].ids|
    ensures segs[i].ids[j] in own && own[segs[i].ids[j]] == segs[i].commit
  {
    assert segs[i].ids[j] in segs[i].ids;
  }

  lemma HeadsStay(pages: Pages, led: Ledger, pages2: Pages, own2: Own)
    requires HeadsOk(pages, led.segs) && OwnersOk(led)
    requires Grown(pages, led.own, led.dead, pages2, own2)
    ensures HeadsOk(pages2, led.segs)
  {
    var segs := led.segs;
    forall i | 0 <= i < |segs| ensures HeadOk(pages2, segs, i) {
      assert HeadOk(pages, segs, i);
      forall j | 0 <= j < |segs[i].ids| ensures LinkOk(pages2, segs[i].ids, j) {
        SegPage(segs, led.own, i, j);
        assert LinkOk(pages, segs[i].ids, j);
      }
      SegPage(segs, led.own, i, 0);
    }
  }

  /** A step that only grows the segment in progress keeps everything but the facts about that segment. */
  lemma GrowthKeeps(s: State, s2: State)
    requires Inv(s) && s.writer.Some? && s2.writer.Some?
    requires Grown(s.pages, s.led.own, s.led.dead, s2.pages, s2.led.own)
    requires s2 == s.(pages := s2.pages, meta := s2.meta, writer := s2.writer, led := s2.led)
    requires s2.led == s.led.(wpages := s2.led.wpages, own := s2.led.own)
    requires s2.meta.histHead == s.meta.histHead && s2.meta.histTail == s.meta.histTail
    requires s2.writer.value.modified == s.writer.value.modified
    requires s2.writer.value.txnId == s.writer.value.txnId
    requires s2.writer.value.readLsn == s.writer.value.readLsn
    ensures HistoryOk(s2.pages, s2.meta, s2.led.segs)
    ensures BaseOk(s2.pages, s2.led.own, s2.led.low, s2.led.base, s2.led.hist)
    ensures RowsOk(s2.rows, s2.pages, s2.led.own, s2.led.base, s2.writer)
    ensures HistsOk(s2.led.hist, s2.durable) && ClockOk(s2)
    ensures SnapsOk(s2.active, s2.caches, s2.pages, s2.led, s2.durable)
  {
    hide BaseOk, RowsOk, SnapsOk, HeadsOk, Grown, OwnersOk, Partitioned, WriterOk;
    BaseGrows(s.pages, s.led.own, s.led.dead, s2.pages, s2.led.own, s.led.low, s.led.base, s.led.hist);
    RowsGrow(s.rows, s.pages, s.led.own, s.led.dead, s2.pages, s2.led.own, s.led.base, s.writer, s2.writer);
    SnapsGrow(s.active, s.caches, s.pages, s.led, s.durable, s2.pages, s2.led);
    HeadsStay(s.pages, s.led, s2.pages, s2.led.own);
  }

  // ---- Growing the segment ----

  function NewSegmentImage(txnId: nat, p: PageId): UndoImage {
    UndoImage(Some(SegHeader(txnId, 0, 0, InProgress, p, p, 0, 0, 0)), 0, [])
  }

  ghost function AfterOpen(s: State): State
    requires s.writer.Some? && s.led.wpages == []
  {
    var (p, m) := Alloc(s.meta);
    var w := s.writer.value;
    s.(meta := m,
       pages := s.pages[p := NewSegmentImage(w.txnId, p)],
       writer := Some(w.(first := Some(p), last := Some(p))),
       led := s.led.(wpages := [p], own := s.led.own[p := 0]))
  }

  lemma OwnersGrow(led: Ledger, p: PageId)
    requires OwnersOk(led) && p !in led.own
    ensures OwnersOk(led.(wpages := led.wpages + [p], own := led.own[p := 0]))
  {
    var own2 := led.own[p := 0];
    forall q | q in own2 && own2[q] != 0 ensures InSegs(led.segs, q) {
      assert q in led.own;
    }
  }

  lemma OpenKeeps(s: State)
    requires Inv(s) && s.writer.Some? && s.led.wpages == []
    ensures Inv(AfterOpen(s))
  {
    hide BaseOk, RowsOk, SnapsOk, HeadsOk, OwnersOk, Partitioned, HistsOk;
    var s2 := AfterOpen(s);
    var (p, m) := Alloc(s.meta);
    AllocFresh(s.meta, s.led.own, s.led.dead, 0);
    assert s.led.wpages + [p] == [p];
    OwnersGrow(s.led, p);
    GrowthKeeps(s, s2);
    assert LinkOk(s2.pages, [p], 0);
    assert Linked(s2.pages, [p]);
  }

  ghost function LastId(s: State): PageId
    requires s.led.wpages != []
  {
    s.led.wpages[|s.led.wpages| - 1]
  }

  ghost function AfterExtend(s: State): State
    requires s.writer.Some? && s.led.wpages != [] && LastId(s) in s.pages
  {
    var (p, m) := Alloc(s.meta);
    var last := LastId(s);
    s.(meta := m,
       pages := s.pages[last := s.pages[last].(next := p)][p := UndoImage(None, 0, [])],
       writer := Some(s.writer.value.(last := Some(p))),
       led := s.led.(wpages := s.led.wpages + [p], own := s.led.own[p := 0]))
  }

  lemma LinkedExtend(pages: Pages, ids: seq<PageId>, p: PageId)
    requires Linked(pages, ids) && p !in ids
    ensures ids[|ids| - 1] in pages
    ensures var last := ids[|ids| - 1];
            Linked(pages[last := pages[last].(next := p)][p := UndoImage(None, 0, [])], ids + [p])
  {
    var last := ids[|ids| - 1];
    assert LinkOk(pages, ids, |ids| - 1);
    var pages2 := pages[last := pages[last].(next := p)][p := UndoImage(None, 0, [])];
    var ids2 := ids + [p];
    forall i | 0 <= i < |ids2| ensures LinkOk(pages2, ids2, i) {
      if i < |ids| {
        assert LinkOk(pages, ids, i);
      }
    }
  }

  lemma InProgressSegment(s: State)
    requires Inv(s) && s.writer.Some? && s.led.wpages != []
    ensures Linked(s.pages, s.led.wpages)
    ensures LastId(s) in s.pages && LastId(s) in s.led.own && s.led.own[LastId(s)] == 0
    ensures LastId(s) !in s.led.dead
    ensures forall p :: p in s.led.wpages ==> p in s.led.own
  {
    hide BaseOk, RowsOk, SnapsOk, HeadsOk, HistsOk, Linked;
  }

  lemma ExtendGrows(s: State)
    requires Inv(s) && s.writer.Some? && s.led.wpages != [] && LastId(s) in s.pages
    ensures var s2 := AfterExtend(s); Grown(s.pages, s.led.own, s.led.dead, s2.pages, s2.led.own)
  {
    hide BaseOk, RowsOk, SnapsOk, HeadsOk, HistsOk, Linked, Partitioned, HistoryOk, WriterOk;
    AllocFresh(s.meta, s.led.own, s.led.dead, 0);
    InProgressSegment(s);
  }

  lemma ExtendKeeps(s: State)
    requires Inv(s) && s.writer.Some? && s.led.wpages != []
    ensures LastId(s) in s.pages && Inv(AfterExtend(s))
  {
    hide BaseOk, RowsOk, SnapsOk, HeadsOk, Linked, HistsOk, OwnersOk, Partitioned, Grown, HistoryOk;
    var (p, m) := Alloc(s.meta);
    AllocFresh(s.meta, s.led.own, s.led.dead, 0);
    InProgressSegment(s);
    OwnersGrow(s.led, p);
    LinkedExtend(s.pages, s.led.wpages, p);
    ExtendGrows(s);
    GrowthKeeps(s, AfterExtend(s));
  }

  ghost function AfterAppend(s: State, rec: Rec): State
    requires s.writer.Some? && s.led.wpages != [] && LastId(s) in s.pages
  {
    var last := LastId(s);
    var w := s.writer.value;
    s.(pages := s.pages[last := s.pages[last].(recs := s.pages[last].recs + [rec])],
       writer := Some(w.(lastRec := Some(UndoPtr(last, |s.pages[last].recs|)), count := w.count + 1)))
  }

  lemma AppendKeeps(s: State, rec: Rec)
    requires Inv(s) && s.writer.Some? && s.led.wpages != []
    ensures LastId(s) in s.pages && Inv(AfterAppend(s, rec))
    ensures var s2 := AfterAppend(s, rec);
            var p := s2.writer.value.lastRec.value;
            && HasRec(s2.pages, p) && RecAt(s2.pages, p) == rec
            && p.page in s2.led.own && s2.led.own[p.page] == 0
  {
    hide BaseOk, RowsOk, SnapsOk, HeadsOk, HistsOk, OwnersOk, Partitioned, HistoryOk;
    InProgressSegment(s);
    var s2 := AfterAppend(s, rec);
    forall i | 0 <= i < |s.led.wpages| ensures LinkOk(s2.pages, s.led.wpages, i) {
      assert LinkOk(s.pages, s.led.wpages, i);
    }
    GrowthKeeps(s, s2);
  }

  // ---- Writing rows ----

  ghost function AfterWrite(s: State, k: Key, row: Row): State
    requires s.writer.Some?
  {
    var w := s.writer.value;
    s.(rows := s.rows[k := row], writer := Some(w.(modified := w.modified + {k})))
  }

  /** A write of one row changes the transaction's view at that key only. */
  lemma WriteKeeps(s: State, k: Key, row: Row)
    requires Inv(s) && s.writer.Some?
    requires IntentOk(row, k, s.pages, s.led.own, s.led.base, s.writer.value)
    ensures Inv(AfterWrite(s, k, row))
    ensures forall j :: View(AfterWrite(s, k, row), j) ==
                        (if j == k then Answer(VersionOf(row)) else View(s, j))
  {
    hide BaseOk, SnapsOk, HistoryOk, HistsOk, Partitioned, OwnersOk;
    var s2 := AfterWrite(s, k, row);
    forall j | j in Modified(s2.writer)
      ensures j in s2.rows && IntentOk(s2.rows[j], j, s.pages, s.led.own, s.led.base, s2.writer.value)
    {
      if j != k {
        assert IntentOk(s.rows[j], j, s.pages, s.led.own, s.led.base, s.writer.value);
      }
    }
  }
}
