/** The state of the embedded engine between steps, and the invariant every step keeps. */
module MvccState {
  import opened Bytes
  import opened UndoModel

  type Own = map<PageId, nat>
  type Rows = map<Key, Row>
  type Hist = map<Key, seq<Version>>

  datatype Writer = Writer(txnId: nat, readLsn: nat, readId: nat, modified: set<Key>,
                           first: Option<PageId>, last: Option<PageId>,
                           lastRec: Option<UndoPtr>, count: nat)

  // A committed undo segment that has not been purged.
  datatype Segment = Segment(ids: seq<PageId>, commit: nat)

  /**
   * What the engine does not store: all committed versions of each key, the live segments in
   * history order, the pages of the segment in progress, the pages nothing will reuse, the owner
   * of each live page, the highest watermark a collection has used, and the rows as of the start
   * of the transaction in progress.
   */
  datatype Ledger = Ledger(hist: Hist, segs: seq<Segment>, wpages: seq<PageId>, dead: set<PageId>,
                           own: Own, low: nat, base: Rows)

  datatype State = State(rows: Rows, pages: Pages, meta: Meta, nextLsn: nat, durable: nat,
                         active: map<nat, nat>, caches: map<nat, Pages>,
                         writer: Option<Writer>, led: Ledger)

  ghost function HistOf(hist: Hist, k: Key): seq<Version> {
    if k in hist then hist[k] else []
  }

  function VersionOf(row: Row): Version {
    Version(row.commitLsn, row.tombstone, row.value)
  }

  function Modified(writer: Option<Writer>): set<Key> {
    if writer.Some? then writer.value.modified else {}
  }

  // ---- Ownership ----

  ghost predicate NoDup(s: seq<PageId>) {
    forall i, j :: 0 <= i < j < |s| ==> s[i] != s[j]
  }

  ghost predicate SegsOwned(segs: seq<Segment>, own: Own) {
    forall i, p :: 0 <= i < |segs| && p in segs[i].ids ==> p in own && own[p] == segs[i].commit
  }

  ghost predicate InSegs(segs: seq<Segment>, p: PageId) {
    exists i :: 0 <= i < |segs| && p in segs[i].ids
  }

  /** Every allocated undo page is on the free list, or owned by one segment, or dead: never two of these. */
  ghost predicate Partitioned(meta: Meta, own: Own, dead: set<PageId>) {
    && UNDO_BASE <= meta.nextUndo
    && NoDup(meta.free)
    && |meta.free| <= UNDO_FREE_CAP
    && (forall p :: UNDO_BASE <= p < meta.nextUndo <==> p in own || p in dead || p in meta.free)
    && (forall p :: p in own ==> p !in dead && p !in meta.free)
    && (forall p :: p in dead ==> p !in meta.free)
  }

  ghost predicate OwnersOk(led: Ledger) {
    && SegsOwned(led.segs, led.own)
    && (forall i :: 0 <= i < |led.segs| ==> led.segs[i].commit >= 1)
    && (forall p :: p in led.wpages ==> p in led.own && led.own[p] == 0)
    && (forall p :: p in led.own && led.own[p] == 0 ==> p in led.wpages)
    && (forall p :: p in led.own && led.own[p] != 0 ==> InSegs(led.segs, p))
  }

  // ---- Segments and their history list ----

  ghost function IdAt(ids: seq<PageId>, i: int): PageId {
    if 0 <= i < |ids| then ids[i] else 0
  }

  ghost function FirstId(segs: seq<Segment>, i: int): PageId {
    if 0 <= i < |segs| then IdAt(segs[i].ids, 0) else 0
  }

  ghost predicate LinkOk(pages: Pages, ids: seq<PageId>, i: int)
    requires 0 <= i < |ids|
  {
    ids[i] in pages && pages[ids[i]].next == IdAt(ids, i + 1) && (pages[ids[i]].head.Some? <==> i == 0)
  }

  ghost predicate Linked(pages: Pages, ids: seq<PageId>) {
    && ids != []
    && NoDup(ids)
    && (forall i :: 0 <= i < |ids| ==> LinkOk(pages, ids, i))
  }

  ghost predicate HeadOk(pages: Pages, segs: seq<Segment>, i: int)
    requires 0 <= i < |segs|
  {
    var first := FirstId(segs, i);
    && Linked(pages, segs[i].ids)
    && LinkOk(pages, segs[i].ids, 0)
    && pages[first].head.value.state == Committed
    && pages[first].head.value.commitLsn == segs[i].commit
    && pages[first].head.value.first == first
    && pages[first].head.value.prev == FirstId(segs, i - 1)
    && pages[first].head.value.next == FirstId(segs, i + 1)
  }

  ghost predicate HeadsOk(pages: Pages, segs: seq<Segment>) {
    forall i :: 0 <= i < |segs| ==> HeadOk(pages, segs, i)
  }

  ghost predicate Increasing(segs: seq<Segment>) {
    forall i, j :: 0 <= i < j < |segs| ==> segs[i].commit < segs[j].commit
  }

  /** The committed segments form a doubly linked list, oldest first, with strictly increasing commit LSNs. */
  ghost predicate HistoryOk(pages: Pages, meta: Meta, segs: seq<Segment>) {
    && HeadsOk(pages, segs)
    && Increasing(segs)
    && meta.histHead == FirstId(segs, 0)
    && meta.histTail == FirstId(segs, |segs| - 1)
  }

  // ---- Rows and histories ----

  ghost predicate CommittedOk(row: Row, h: seq<Version>, pages: Pages, own: Own, low: nat) {
    && !row.intent && row.intentTxn == 0 && row.intentLsn == 0
    && h != [] && h[|h| - 1] == VersionOf(row)
    && (row.commitLsn > low ==> Chain(pages, own, low, row.undo, h[..|h| - 1], row.commitLsn))
  }

  ghost predicate AbsentOk(h: seq<Version>, low: nat) {
    h == [] || (h[|h| - 1].tombstone && h[|h| - 1].lsn <= low)
  }

  ghost predicate BaseOk(pages: Pages, own: Own, low: nat, base: Rows, hist: Hist) {
    && (forall k :: k in base ==> CommittedOk(base[k], HistOf(hist, k), pages, own, low))
    && (forall k :: k in hist && k !in base ==> AbsentOk(hist[k], low))
  }

  ghost predicate SavedOk(row: Row, was: Row, pages: Pages, own: Own) {
    && row.undo.Some?
    && row.undo.value.page in own && own[row.undo.value.page] == 0
    && HasRec(pages, row.undo.value)
    && Records(RecAt(pages, row.undo.value), VersionOf(was))
    && RecAt(pages, row.undo.value).prev == was.undo
  }

  ghost predicate IntentOk(row: Row, k: Key, pages: Pages, own: Own, base: Rows, w: Writer) {
    && row.intent && row.intentTxn == w.txnId && row.intentLsn == w.readLsn && row.commitLsn == 0
    && (if k in base then SavedOk(row, base[k], pages, own) else row.undo == None)
  }

  ghost predicate RowsOk(rows: Rows, pages: Pages, own: Own, base: Rows, writer: Option<Writer>) {
    && (forall k :: k in Modified(writer) ==>
          k in rows && IntentOk(rows[k], k, pages, own, base, writer.value))
    && (forall k :: k in rows && k !in Modified(writer) ==> k in base && rows[k] == base[k])
    && (forall k :: k in base && k !in Modified(writer) ==> k in rows)
  }

  ghost predicate HistsOk(hist: Hist, durable: nat) {
    forall k :: k in hist ==>
      Ordered(hist[k]) && (forall i :: 0 <= i < |hist[k]| ==> hist[k][i].lsn <= durable)
  }

  // ---- Snapshots ----

  ghost predicate CachedOk(image: UndoImage, p: PageId, pages: Pages, led: Ledger, readLsn: nat) {
    && p in pages && image.recs <= pages[p].recs
    && ((p in led.own && (led.own[p] == 0 || led.own[p] > readLsn)) || p in led.dead)
  }

  ghost predicate SnapsOk(active: map<nat, nat>, caches: map<nat, Pages>, pages: Pages, led: Ledger,
                          durable: nat)
  {
    && (forall id :: id in active ==> led.low <= active[id] <= durable)
    && (forall id :: id in caches ==> id in active)
    && (forall id, p :: id in caches && p in caches[id] ==>
          CachedOk(caches[id][p], p, pages, led, active[id]))
  }

  ghost predicate WriterOk(s: State) {
    match s.writer
    case None => s.led.wpages == []
    case Some(w) =>
      && w.readLsn == s.durable
      && w.readId in s.active && s.active[w.readId] == w.readLsn && w.readId !in s.caches
      && (s.led.wpages == [] ==> w.first == None && w.last == None)
      && (s.led.wpages != [] ==>
            && Linked(s.pages, s.led.wpages)
            && w.first == Some(s.led.wpages[0])
            && w.last == Some(s.led.wpages[|s.led.wpages| - 1]))
  }

  ghost predicate ClockOk(s: State) {
    && s.led.low <= s.durable <= s.nextLsn
    && (forall i :: 0 <= i < |s.led.segs| ==> s.led.segs[i].commit <= s.durable)
  }

  ghost predicate Inv(s: State) {
    && Partitioned(s.meta, s.led.own, s.led.dead)
    && OwnersOk(s.led)
    && (forall p :: p in s.led.own || p in s.led.dead ==> p in s.pages)
    && HistoryOk(s.pages, s.meta, s.led.segs)
    && BaseOk(s.pages, s.led.own, s.led.low, s.led.base, s.led.hist)
    && RowsOk(s.rows, s.pages, s.led.own, s.led.base, s.writer)
    && HistsOk(s.led.hist, s.durable)
    && SnapsOk(s.active, s.caches, s.pages, s.led, s.durable)
    && WriterOk(s)
    && ClockOk(s)
  }

  ghost predicate Extends(h: seq<Version>, h2: seq<Version>, durable: nat) {
    h <= h2 && (forall i :: |h| <= i < |h2| ==> h2[i].lsn > durable)
  }

  /** What every step does to the histories: it may only append versions committed after `durable`. */
  ghost predicate HistGrows(hist: Hist, hist2: Hist, durable: nat) {
    forall k :: Extends(HistOf(hist, k), HistOf(hist2, k), durable)
  }

  // ---- What the transaction in progress sees ----

  /** The transaction's own last write of `k`, else the version visible at its snapshot. */
  ghost function View(s: State, k: Key): Option<Value> {
    if k in Modified(s.writer) && k in s.rows then Answer(VersionOf(s.rows[k]))
    else Visible(HistOf(s.led.hist, k), s.durable)
  }
}
