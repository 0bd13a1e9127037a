/** Commit and abort of the read-write transaction. */
module MvccEnd {
  import opened Bytes
  import opened UndoModel
  import opened MvccState
  import opened MvccWrite

  // ---- Commit: rows and histories ----

  function Stamped(row: Row, c: nat): Row {
    row.(commitLsn := c, intent := false, intentTxn := 0, intentLsn := 0)
  }

  ghost function StampAll(rows: Rows, keys: set<Key>, c: nat): Rows {
    map k | k in rows :: if k in keys then Stamped(rows[k], c) else rows[k]
  }

  /** The rows of `keys` are committed at `c` as they stand, their intents gone; the others are as they were. */
  ghost predicate StampedTo(rows: Rows, rows2: Rows, keys: set<Key>, c: nat) {
    && rows2.Keys == rows.Keys
    && forall k :: k in rows ==>
         rows2[k] == if k in keys then Row(rows[k].value, c, rows[k].undo, rows[k].tombstone, false, 0, 0) else rows[k]
  }

  lemma StampAllStamps(rows: Rows, keys: set<Key>, c: nat)
    ensures StampedTo(rows, StampAll(rows, keys, c), keys, c)
  {
  }

  ghost function HistAfter(hist: Hist, rows: Rows, keys: set<Key>, c: nat): Hist {
    map k | k in hist.Keys + keys ::
      if k in keys && k in rows then HistOf(hist, k) + [VersionOf(Stamped(rows[k], c))] else HistOf(hist, k)
  }

  // The segment in progress takes its commit LSN.
  ghost function Promote(own: Own, c: nat): Own {
    map p | p in own :: if own[p] == 0 then c else own[p]
  }

  ghost predicate SameRecs(pages: Pages, own: Own, dead: set<PageId>, pages2: Pages) {
    && (forall p :: p in own ==> p in pages && p in pages2 && pages2[p].recs == pages[p].recs)
    && (forall p :: p in dead ==> p in pages && p in pages2 && pages2[p] == pages[p])
  }

  /** Behind an intent hangs the whole committed history of its key. */
  lemma {:induction false} IntentChain(k: Key, row: Row, w: Writer, pages: Pages, own: Own, low: nat, base: Rows,
                                       hist: Hist)
    requires BaseOk(pages, own, low, base, hist) && IntentOk(row, k, pages, own, base, w)
    ensures Chain(pages, own, low, row.undo, HistOf(hist, k), 0)
  {
    if k in base {
      assert CommittedOk(base[k], HistOf(hist, k), pages, own, low);
    }
  }

  lemma CommitModified(s: State, pages2: Pages, c: nat, k: Key)
    requires Inv(s) && s.writer.Some? && c > s.durable
    requires SameRecs(s.pages, s.led.own, s.led.dead, pages2)
    requires k in s.writer.value.modified && k in s.rows
    ensures CommittedOk(Stamped(s.rows[k], c),
                        HistOf(s.led.hist, k) + [VersionOf(Stamped(s.rows[k], c))],
                        pages2, Promote(s.led.own, c), s.led.low)
  {
    hide Chain, SnapsOk, HistoryOk, HistsOk, Partitioned, OwnersOk, IntentOk, WriterOk, BaseOk, HistOf;
    var (row, h, own, low) := (s.rows[k], HistOf(s.led.hist, k), s.led.own, s.led.low);
    IntentChain(k, row, s.writer.value, s.pages, own, low, s.led.base, s.led.hist);
    ChainKept(s.pages, own, low, pages2, Promote(own, c), low, row.undo, h, 0, c);
    assert (h + [VersionOf(Stamped(row, c))])[..|h|] == h;
  }

  lemma CommitOther(s: State, pages2: Pages, c: nat, k: Key)
    requires Inv(s) && s.writer.Some? && c > s.durable
    requires SameRecs(s.pages, s.led.own, s.led.dead, pages2)
    requires k !in s.writer.value.modified && k in s.rows
    ensures CommittedOk(s.rows[k], HistOf(s.led.hist, k), pages2, Promote(s.led.own, c), s.led.low)
  {
    hide Chain, SnapsOk, HistoryOk, HistsOk, Partitioned, OwnersOk, IntentOk, WriterOk, HistOf;
    var (row, h, own, low) := (s.rows[k], HistOf(s.led.hist, k), s.led.own, s.led.low);
    assert CommittedOk(s.led.base[k], h, s.pages, own, low);
    if row.commitLsn > low {
      ChainKept(s.pages, own, low, pages2, Promote(own, c), low, row.undo, h[..|h| - 1],
                row.commitLsn, row.commitLsn);
    }
  }

  lemma CommitBase(s: State, pages2: Pages, c: nat)
    requires Inv(s) && s.writer.Some? && c > s.durable
    requires SameRecs(s.pages, s.led.own, s.led.dead, pages2)
    ensures BaseOk(pages2, Promote(s.led.own, c), s.led.low,
                   StampAll(s.rows, s.writer.value.modified, c),
                   HistAfter(s.led.hist, s.rows, s.writer.value.modified, c))
  {
    hide CommittedOk, SnapsOk, HistoryOk, HistsOk, Partitioned, OwnersOk, IntentOk, WriterOk, Promote;
    var w := s.writer.value;
    var rows2, hist2 := StampAll(s.rows, w.modified, c), HistAfter(s.led.hist, s.rows, w.modified, c);
    forall k | k in rows2
      ensures CommittedOk(rows2[k], HistOf(hist2, k), pages2, Promote(s.led.own, c), s.led.low)
    {
      if k in w.modified {
        CommitModified(s, pages2, c, k);
      } else {
        CommitOther(s, pages2, c, k);
        assert HistOf(hist2, k) == HistOf(s.led.hist, k);
      }
    }
  }

  lemma OrderedPush(h: seq<Version>, v: Version)
    requires Ordered(h) && v.lsn >= 1 && forall i :: 0 <= i < |h| ==> h[i].lsn < v.lsn
    ensures Ordered(h + [v])
  {
  }

  lemma CommitHists(hist: Hist, rows: Rows, keys: set<Key>, c: nat, durable: nat)
    requires HistsOk(hist, durable) && c > durable
    ensures HistsOk(HistAfter(hist, rows, keys, c), c)
    ensures HistGrows(hist, HistAfter(hist, rows, keys, c), durable)
  {
    hide Ordered;
    var hist2 := HistAfter(hist, rows, keys, c);
    forall k | k in hist2
      ensures Ordered(hist2[k]) && forall i :: 0 <= i < |hist2[k]| ==> hist2[k][i].lsn <= c
    {
      var h := HistOf(hist, k);
      assert Ordered(h) by { if k !in hist { OrderedEmpty(); } }
      if k in keys && k in rows {
        OrderedPush(h, VersionOf(Stamped(rows[k], c)));
      }
    }
  }

  lemma OrderedEmpty()
    ensures Ordered([])
  {
  }

  lemma CommitSnaps(s: State, pages2: Pages, led2: Ledger, c: nat)
    requires Inv(s) && s.writer.Some? && c > s.durable
    requires SameRecs(s.pages, s.led.own, s.led.dead, pages2)
    requires led2.own == Promote(s.led.own, c) && led2.low == s.led.low && led2.dead == s.led.dead
    ensures SnapsOk(s.active - {s.writer.value.readId}, s.caches, pages2, led2, c)
  {
    hide BaseOk, RowsOk, HistoryOk, HistsOk, Partitioned, OwnersOk;
    forall id, p | id in s.caches && p in s.caches[id]
      ensures CachedOk(s.caches[id][p], p, pages2, led2, s.active[id])
    {
      assert CachedOk(s.caches[id][p], p, s.pages, s.led, s.active[id]);
    }
  }

  // ---- Commit: the segment joins the history list ----

  /** The pages after the header of the segment `ids` is final and the old tail points to it. */
  function Retire(pages: Pages, ids: seq<PageId>, hdr: SegHeader, tail: PageId): Pages
    requires ids != [] && ids[0] in pages && ids[0] != tail
    requires tail != 0 ==> tail in pages && pages[tail].head.Some?
  {
    var pages1 := pages[ids[0] := pages[ids[0]].(head := Some(hdr))];
    if tail == 0 then pages1
    else pages1[tail := pages1[tail].(head := Some(pages1[tail].head.value.(next := ids[0])))]
  }

  ghost predicate Final(hdr: SegHeader, ids: seq<PageId>, c: nat, tail: PageId) {
    && hdr.state == Committed && hdr.commitLsn == c && hdr.first == IdAt(ids, 0)
    && hdr.prev == tail && hdr.next == 0
  }

  lemma TailPage(segs: seq<Segment>, own: Own, i: int, p: PageId)
    requires SegsOwned(segs, own) && Increasing(segs) && 0 <= i < |segs| && p in segs[i].ids
    requires forall j :: 0 <= j < |segs| ==> segs[j].ids != []
    ensures segs != [] ==> (p == FirstId(segs, |segs| - 1) ==> i == |segs| - 1)
  {
    if segs != [] && p == FirstId(segs, |segs| - 1) {
      var ids := segs[|segs| - 1].ids;
      assert ids[0] in ids;
      assert own[p] == segs[|segs| - 1].commit == segs[i].commit;
    }
  }

  lemma OldHead(pages: Pages, segs: seq<Segment>, own: Own, ids: seq<PageId>, hdr: SegHeader, tail: PageId, i: int)
    requires HeadsOk(pages, segs) && Increasing(segs) && SegsOwned(segs, own) && Linked(pages, ids)
    requires forall j :: 0 <= j < |segs| ==> segs[j].commit >= 1
    requires forall p :: p in ids ==> p in own && own[p] == 0
    requires 0 <= i < |segs| && tail == FirstId(segs, |segs| - 1) && tail != 0
    requires ids[0] in pages && ids[0] != tail && tail in pages && pages[tail].head.Some?
    ensures HeadOk(Retire(pages, ids, hdr, tail), segs + [Segment(ids, hdr.commitLsn)], i)
  {
    hide HeadsOk;
    assert HeadOk(pages, segs, i) by { assert HeadsOk(pages, segs); HeadIn(pages, segs, i); }
    var pages2, segs2 := Retire(pages, ids, hdr, tail), segs + [Segment(ids, hdr.commitLsn)];
    assert ids[0] in ids;
    forall j | 0 <= j < |segs[i].ids| ensures LinkOk(pages2, segs[i].ids, j) {
      assert LinkOk(pages, segs[i].ids, j);
      SegPage(segs, own, i, j);
    }
    SegPage(segs, own, i, 0);
    HeadsNonempty(pages, segs);
    TailPage(segs, own, i, segs[i].ids[0]);
    assert segs2[i] == segs[i];
    assert FirstId(segs2, i) == FirstId(segs, i) && FirstId(segs2, i - 1) == FirstId(segs, i - 1);
  }

  lemma HeadIn(pages: Pages, segs: seq<Segment>, i: int)
    requires HeadsOk(pages, segs) && 0 <= i < |segs|
    ensures HeadOk(pages, segs, i)
  {
  }

  lemma HeadsNonempty(pages: Pages, segs: seq<Segment>)
    requires HeadsOk(pages, segs)
    ensures forall j :: 0 <= j < |segs| ==> segs[j].ids != []
  {
    forall j | 0 <= j < |segs| ensures segs[j].ids != [] {
      assert HeadOk(pages, segs, j);
    }
  }

  lemma NewHead(pages: Pages, segs: seq<Segment>, own: Own, ids: seq<PageId>, hdr: SegHeader, tail: PageId)
    requires Linked(pages, ids) && ids[0] in pages
    requires tail == FirstId(segs, |segs| - 1) && tail !in ids
    requires tail != 0 ==> tail in pages && pages[tail].head.Some?
    requires Final(hdr, ids, hdr.commitLsn, tail)
    ensures HeadOk(Retire(pages, ids, hdr, tail), segs + [Segment(ids, hdr.commitLsn)], |segs|)
  {
    var pages2, segs2 := Retire(pages, ids, hdr, tail), segs + [Segment(ids, hdr.commitLsn)];
    forall j | 0 <= j < |ids| ensures LinkOk(pages2, ids, j) {
      assert LinkOk(pages, ids, j);
    }
    assert segs2[|segs|].ids == ids;
    assert FirstId(segs2, |segs|) == ids[0];
    assert FirstId(segs2, |segs| - 1) == tail;
  }

  lemma RetireFits(s: State)
    requires Inv(s) && s.writer.Some? && s.led.wpages != []
    ensures s.led.wpages[0] in s.pages && s.led.wpages[0] != s.meta.histTail
    ensures s.meta.histTail !in s.led.wpages
    ensures s.meta.histTail != 0 ==> s.meta.histTail in s.pages && s.pages[s.meta.histTail].head.Some?
    ensures s.meta.histTail == 0 <==> s.led.segs == []
    ensures Linked(s.pages, s.led.wpages)
    ensures s.meta.histTail != 0 ==> s.meta.histTail in s.led.own && s.led.own[s.meta.histTail] != 0
  {
    hide BaseOk, RowsOk, SnapsOk, HistsOk, HeadsOk, Linked;
    var segs := s.led.segs;
    InProgressSegment(s);
    LinkedFirst(s.pages, s.led.wpages);
    assert forall p :: p in s.led.wpages ==> s.led.own[p] == 0;
    if segs != [] {
      HeadIn(s.pages, segs, |segs| - 1);
      LinkedFirst(s.pages, segs[|segs| - 1].ids);
      SegPage(segs, s.led.own, |segs| - 1, 0);
    }
  }

  lemma LinkedFirst(pages: Pages, ids: seq<PageId>)
    requires Linked(pages, ids)
    ensures ids != [] && LinkOk(pages, ids, 0) && ids[0] in ids
  {
  }

  ghost function MetaAfter(meta: Meta, first: PageId): Meta {
    meta.(histHead := if meta.histTail == 0 then first else meta.histHead, histTail := first)
  }

  lemma HistoryAppends(s: State, hdr: SegHeader)
    requires Inv(s) && s.writer.Some? && s.led.wpages != []
    requires Final(hdr, s.led.wpages, hdr.commitLsn, s.meta.histTail) && hdr.commitLsn > s.durable
    ensures s.led.wpages[0] in s.pages && s.led.wpages[0] != s.meta.histTail
    ensures s.meta.histTail != 0 ==> s.meta.histTail in s.pages && s.pages[s.meta.histTail].head.Some?
    ensures HistoryOk(Retire(s.pages, s.led.wpages, hdr, s.meta.histTail),
                      MetaAfter(s.meta, s.led.wpages[0]),
                      s.led.segs + [Segment(s.led.wpages, hdr.commitLsn)])
    ensures SameRecs(s.pages, s.led.own, s.led.dead, Retire(s.pages, s.led.wpages, hdr, s.meta.histTail))
  {
    hide BaseOk, RowsOk, SnapsOk, HistsOk, HeadsOk, Linked, WriterOk, HeadOk;
    RetireFits(s);
    InProgressSegment(s);
    var (segs, ids, tail) := (s.led.segs, s.led.wpages, s.meta.histTail);
    assert ids[0] in ids;
    var pages2, segs2 := Retire(s.pages, ids, hdr, tail), segs + [Segment(ids, hdr.commitLsn)];
    NewHead(s.pages, segs, s.led.own, ids, hdr, tail);
    forall i | 0 <= i < |segs| ensures HeadOk(pages2, segs2, i) {
      OldHead(s.pages, segs, s.led.own, ids, hdr, tail, i);
    }
    HeadsFrom(pages2, segs2);
    assert FirstId(segs2, |segs|) == ids[0];
    assert segs != [] ==> FirstId(segs2, 0) == FirstId(segs, 0);
  }

  lemma HeadsFrom(pages: Pages, segs: seq<Segment>)
    requires forall i :: 0 <= i < |segs| ==> HeadOk(pages, segs, i)
    ensures HeadsOk(pages, segs)
  {
  }

  lemma PromoteOwners(led: Ledger, led2: Ledger, c: nat)
    requires OwnersOk(led) && c >= 1
    requires led2.segs == if led.wpages == [] then led.segs else led.segs + [Segment(led.wpages, c)]
    requires led2.wpages == [] && led2.own == Promote(led.own, c)
    ensures OwnersOk(led2)
  {
    var (segs2, own2) := (led2.segs, led2.own);
    forall i, p | 0 <= i < |segs2| && p in segs2[i].ids ensures p in own2 && own2[p] == segs2[i].commit {
      if i < |led.segs| {
        assert p in led.segs[i].ids;
      }
    }
    forall p | p in own2 && own2[p] != 0 ensures InSegs(segs2, p) {
      if led.own[p] == 0 {
        assert p in segs2[|led.segs|].ids;
      } else {
        var i :| 0 <= i < |led.segs| && p in led.segs[i].ids;
        assert p in segs2[i].ids;
      }
    }
  }

  ghost function AfterCommit(s: State, pages2: Pages, meta2: Meta, c: nat): State
    requires s.writer.Some?
  {
    var w := s.writer.value;
    s.(rows := StampAll(s.rows, w.modified, c), pages := pages2, meta := meta2,
       nextLsn := c, durable := c, active := s.active - {w.readId}, writer := None,
       led := s.led.(hist := HistAfter(s.led.hist, s.rows, w.modified, c),
                     segs := if s.led.wpages == [] then s.led.segs
                             else s.led.segs + [Segment(s.led.wpages, c)],
                     wpages := [], own := Promote(s.led.own, c),
                     base := StampAll(s.rows, w.modified, c)))
  }

  lemma CommitKeeps(s: State, pages2: Pages, meta2: Meta, c: nat)
    requires Inv(s) && s.writer.Some? && c > s.durable
    requires SameRecs(s.pages, s.led.own, s.led.dead, pages2)
    requires meta2.free == s.meta.free && meta2.nextUndo == s.meta.nextUndo
    requires HistoryOk(pages2, meta2, AfterCommit(s, pages2, meta2, c).led.segs)
    ensures Inv(AfterCommit(s, pages2, meta2, c))
    ensures HistGrows(s.led.hist, AfterCommit(s, pages2, meta2, c).led.hist, s.durable)
  {
    hide BaseOk, SnapsOk, HistsOk, HistoryOk, OwnersOk, HistAfter;
    var s2 := AfterCommit(s, pages2, meta2, c);
    CommitBase(s, pages2, c);
    CommitHists(s.led.hist, s.rows, s.writer.value.modified, c, s.durable);
    CommitSnaps(s, pages2, s2.led, c);
    PromoteOwners(s.led, s2.led, c);
  }

  /** A commit publishes, at its LSN, exactly the transaction's view of every key. */
  lemma {:induction false} CommitPublishesView(s: State, pages2: Pages, meta2: Meta, c: nat, k: Key)
    requires Inv(s) && s.writer.Some? && c > s.durable
    ensures Visible(HistOf(AfterCommit(s, pages2, meta2, c).led.hist, k), c) == View(s, k)
  {
    hide BaseOk, SnapsOk, HistoryOk, OwnersOk, Partitioned, WriterOk, IntentOk;
    var h, h2 := HistOf(s.led.hist, k), HistOf(AfterCommit(s, pages2, meta2, c).led.hist, k);
    if k in Modified(s.writer) {
      assert h2[|h2| - 1] == VersionOf(Stamped(s.rows[k], c));
    } else {
      assert h2 == h;
    }
  }

  // ---- Abort ----

  /** What abort writes back over an intent, from the record behind it; nothing when there is none. */
  ghost function Restored(row: Row, pages: Pages): Option<Row>
    requires row.undo.Some? ==> HasRec(pages, row.undo.value)
  {
    if row.undo == None then None
    else
      var rec := RecAt(pages, row.undo.value);
      Some(Row(rec.oldValue, rec.oldCommitLsn, rec.prev, rec.oldTombstone, false, 0, 0))
  }

  /** The record behind an intent holds the key's row as it was when the transaction began. */
  lemma RestoredIsBase(s: State, k: Key)
    requires Inv(s) && k in Modified(s.writer) && k in s.rows
    ensures s.rows[k].undo.Some? ==> HasRec(s.pages, s.rows[k].undo.value)
    ensures Restored(s.rows[k], s.pages) == (if k in s.led.base then Some(s.led.base[k]) else None)
    ensures k in s.led.base ==> s.led.base[k].commitLsn >= 1
    ensures s.rows[k].intent && s.rows[k].intentTxn == s.writer.value.txnId
    ensures s.rows[k].undo.Some? ==> !RecAt(s.pages, s.rows[k].undo.value).oldIntent
  {
    hide Chain, SnapsOk, HistoryOk, OwnersOk, Partitioned, WriterOk;
    assert IntentOk(s.rows[k], k, s.pages, s.led.own, s.led.base, s.writer.value);
    if k in s.led.base {
      assert CommittedOk(s.led.base[k], HistOf(s.led.hist, k), s.pages, s.led.own, s.led.low);
    }
  }

  ghost function Ids(s: seq<PageId>): set<PageId> { set p | p in s }

  ghost function AfterAbort(s: State): State
    requires s.writer.Some?
  {
    s.(rows := s.led.base, active := s.active - {s.writer.value.readId}, writer := None,
       led := s.led.(wpages := [], dead := s.led.dead + Ids(s.led.wpages),
                     own := s.led.own - Ids(s.led.wpages)))
  }

  lemma AbortSnaps(s: State)
    requires Inv(s) && s.writer.Some?
    ensures var s2 := AfterAbort(s); SnapsOk(s2.active, s2.caches, s2.pages, s2.led, s2.durable)
  {
    hide BaseOk, RowsOk, HistoryOk, HistsOk, Partitioned;
    var s2 := AfterAbort(s);
    forall id, p | id in s.caches && p in s.caches[id]
      ensures CachedOk(s.caches[id][p], p, s2.pages, s2.led, s2.active[id])
    {
      assert CachedOk(s.caches[id][p], p, s.pages, s.led, s.active[id]);
    }
  }

  lemma AbortBase(s: State)
    requires Inv(s) && s.writer.Some?
    ensures var s2 := AfterAbort(s); BaseOk(s2.pages, s2.led.own, s2.led.low, s2.led.base, s2.led.hist)
  {
    hide Chain, RowsOk, HistoryOk, HistsOk, Partitioned, SnapsOk, WriterOk;
    var (own, own2, low) := (s.led.own, AfterAbort(s).led.own, s.led.low);
    forall k | k in s.led.base
      ensures CommittedOk(s.led.base[k], HistOf(s.led.hist, k), s.pages, own2, low)
    {
      var (row, h) := (s.led.base[k], HistOf(s.led.hist, k));
      assert CommittedOk(row, h, s.pages, own, low);
      if row.commitLsn > low {
        ChainKept(s.pages, own, low, s.pages, own2, low, row.undo, h[..|h| - 1], row.commitLsn, row.commitLsn);
      }
    }
  }

  lemma AbortOwners(led: Ledger)
    requires OwnersOk(led)
    ensures OwnersOk(led.(wpages := [], dead := led.dead + Ids(led.wpages), own := led.own - Ids(led.wpages)))
  {
    var own2 := led.own - Ids(led.wpages);
    forall i, p | 0 <= i < |led.segs| && p in led.segs[i].ids
      ensures p in own2 && own2[p] == led.segs[i].commit
    {
      assert led.own[p] == led.segs[i].commit;
    }
  }

  lemma AbortKeeps(s: State)
    requires Inv(s) && s.writer.Some?
    ensures Inv(AfterAbort(s))
  {
    hide BaseOk, SnapsOk, HistsOk, HistoryOk, OwnersOk;
    AbortSnaps(s);
    AbortBase(s);
    AbortOwners(s.led);
    assert forall p :: p in s.led.wpages ==> p in s.led.own by { WpagesOwned(s.led); }
  }

  lemma WpagesOwned(led: Ledger)
    requires OwnersOk(led)
    ensures forall p :: p in led.wpages ==> p in led.own
  {
  }
}
