/** Undo pages, version histories, and what it means for an undo chain to spell out a history. */
module UndoModel {
  import opened Bytes

  type Key = nat
  type Value = seq<Byte>
  type PageId = nat

  const UNDO_BASE: PageId := 2_000_000
  const UNDO_FREE_CAP := 1024
  // Records an undo page holds, with either header: see UndoPage.RecordCapacity.
  const RECORDS_PER_PAGE := 15

  datatype UndoPtr = UndoPtr(page: PageId, slot: nat)

  datatype Row = Row(value: Value, commitLsn: nat, undo: Option<UndoPtr>,
                     tombstone: bool, intent: bool, intentTxn: nat, intentLsn: nat)

  datatype Rec = Rec(prev: Option<UndoPtr>, txnId: nat, txnNext: Option<UndoPtr>,
                     oldCommitLsn: nat, oldTombstone: bool, oldIntent: bool, oldValue: Value)

  datatype SegState = InProgress | Committed | Aborted | Purged

  datatype SegHeader = SegHeader(txnId: nat, beginLsn: nat, commitLsn: nat, state: SegState,
                                 first: PageId, last: PageId, count: nat,
                                 prev: PageId, next: PageId)

  // `head` is present on the first page of a segment only; `next` is 0 on its last page.
  datatype UndoImage = UndoImage(head: Option<SegHeader>, next: PageId, recs: seq<Rec>)

  type Pages = map<PageId, UndoImage>

  datatype Meta = Meta(nextUndo: PageId, free: seq<PageId>, histHead: PageId, histTail: PageId)

  // ---- Histories ----

  datatype Version = Version(lsn: nat, tombstone: bool, value: Value)

  function Answer(v: Version): Option<Value> {
    if v.tombstone then None else Some(v.value)
  }

  ghost predicate Ordered(h: seq<Version>) {
    && (forall i :: 0 <= i < |h| ==> h[i].lsn >= 1)
    && (forall i, j :: 0 <= i < j < |h| ==> h[i].lsn < h[j].lsn)
  }

  /** What a reader at LSN `r` must see of a key with committed history `h`, oldest version first. */
  ghost function Visible(h: seq<Version>, r: nat): Option<Value> {
    if h == [] then None
    else if h[|h| - 1].lsn <= r then Answer(h[|h| - 1])
    else Visible(h[..|h| - 1], r)
  }

  /** `Visible` is the newest version not after `r`, and nothing when every version is after `r`. */
  lemma {:induction false} VisibleIsNewest(h: seq<Version>, r: nat)
    requires Ordered(h)
    ensures (forall i :: 0 <= i < |h| ==> h[i].lsn > r) ==> Visible(h, r) == None
    ensures forall i :: 0 <= i < |h| && h[i].lsn <= r && (i + 1 < |h| ==> h[i + 1].lsn > r)
                        ==> Visible(h, r) == Answer(h[i])
  {
    if h != [] && h[|h| - 1].lsn > r {
      var t := h[..|h| - 1];
      VisibleIsNewest(t, r);
      forall i | 0 <= i < |h| && h[i].lsn <= r && (i + 1 < |h| ==> h[i + 1].lsn > r)
        ensures Visible(h, r) == Answer(h[i])
      {
        assert t[i] == h[i];
        assert i + 1 < |t| ==> t[i + 1] == h[i + 1];
      }
    }
  }

  /** Versions committed after `r` do not change what a reader at `r` sees. */
  lemma {:induction false} VisibleStable(h: seq<Version>, more: seq<Version>, r: nat)
    requires forall i :: 0 <= i < |more| ==> more[i].lsn > r
    ensures Visible(h + more, r) == Visible(h, r)
    decreases |more|
  {
    if more == [] {
      assert h + more == h;
    } else {
      var less := more[..|more| - 1];
      VisibleStable(h, less, r);
      assert (h + more)[..|h + more| - 1] == h + less;
      assert (h + more)[|h + more| - 1] == more[|more| - 1];
    }
  }

  // ---- Chains ----

  ghost predicate HasRec(pages: Pages, p: UndoPtr) {
    p.page in pages && p.slot < |pages[p.page].recs|
  }

  ghost function RecAt(pages: Pages, p: UndoPtr): Rec
    requires HasRec(pages, p)
  {
    pages[p.page].recs[p.slot]
  }

  ghost predicate Records(rec: Rec, v: Version) {
    rec.oldCommitLsn == v.lsn && rec.oldTombstone == v.tombstone && rec.oldValue == v.value && !rec.oldIntent
  }

  /**
   * The chain at `ptr`, hanging off a version committed at `c` (0 for a version still in
   * progress), spells out `h` newest first for as long as versions are later than `low`.
   * `own` gives the commit LSN of the segment that owns each live undo page, 0 for the segment
   * of the transaction in progress; the record superseded at `c` is in the segment of `c`.
   * Past the first version not later than `low` nothing is promised: links there may dangle.
   */
  ghost predicate Chain(pages: Pages, own: map<PageId, nat>, low: nat,
                        ptr: Option<UndoPtr>, h: seq<Version>, c: nat)
    decreases |h|
  {
    match ptr
    case None => h == [] || (h[|h| - 1].lsn <= low && h[|h| - 1].tombstone)
    case Some(p) =>
      && h != []
      && p.page in own && own[p.page] == c
      && HasRec(pages, p)
      && Records(RecAt(pages, p), h[|h| - 1])
      && (h[|h| - 1].lsn > low ==>
            Chain(pages, own, low, RecAt(pages, p).prev, h[..|h| - 1], h[|h| - 1].lsn))
  }

  /** Pages owned at `c` keep their records, and their owner becomes `c2`. */
  ghost predicate Kept(pages: Pages, own: map<PageId, nat>, pages2: Pages, own2: map<PageId, nat>,
                       c: nat, c2: nat)
  {
    forall p :: p in own && own[p] == c && p in pages ==>
      p in own2 && own2[p] == c2 && p in pages2 && pages[p].recs <= pages2[p].recs
  }

  /**
   * A chain survives growth of pages, a rise of the watermark, the release of segments at or
   * below the watermark, and the commit of the segment in progress.
   */
  lemma {:induction false} ChainKept(pages: Pages, own: map<PageId, nat>, low: nat,
                                     pages2: Pages, own2: map<PageId, nat>, low2: nat,
                                     ptr: Option<UndoPtr>, h: seq<Version>, c: nat, c2: nat)
    requires low <= low2
    requires Chain(pages, own, low, ptr, h, c)
    requires Kept(pages, own, pages2, own2, c, c2)
    requires forall d :: d > low2 ==> Kept(pages, own, pages2, own2, d, d)
    ensures Chain(pages2, own2, low2, ptr, h, c2)
    decreases |h|
  {
    match ptr
    case None =>
    case Some(p) =>
      assert RecAt(pages2, p) == RecAt(pages, p);
      var v := h[|h| - 1];
      if v.lsn > low2 {
        assert Kept(pages, own, pages2, own2, v.lsn, v.lsn);
        ChainKept(pages, own, low, pages2, own2, low2, RecAt(pages, p).prev, h[..|h| - 1], v.lsn, v.lsn);
      }
  }
}
