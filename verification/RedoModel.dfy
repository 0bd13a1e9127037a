/**
 * What a storage node keeps on disk and in memory: a buffer pool over a page file
 * (src/page_store.rs) and a segmented log (src/node_wal_files.rs), and when the two together
 * still determine every page.
 */
module RedoModel {
  import opened Bytes
  import opened Params

  type PageId = nat
  type Image = seq<Byte>

  datatype BufferPage = BufferPage(data: Image, dirty: bool, lsn: nat)

  datatype WalRecord = WalRecord(lsn: nat, page: PageId, image: Image)

  datatype WalBatch = WalBatch(start: nat, end: nat, recs: seq<WalRecord>)

  type Segment = seq<WalBatch>
  type Pool = map<PageId, BufferPage>
  type File = map<PageId, Image>

  // ---- The page file ----

  predicate IsZero(image: Image) {
    forall i :: 0 <= i < |image| ==> image[i] == 0
  }

  // A page of zeros cannot be told from one that was never written.
  function Seen(image: Image): Option<Image> {
    if IsZero(image) then None else Some(image)
  }

  function FileRead(file: File, p: PageId): Option<Image> {
    if p in file then Seen(file[p]) else None
  }

  // ---- The logged history: record `i` has LSN `i + 1` ----

  ghost predicate LogOk(log: seq<WalRecord>) {
    forall i :: 0 <= i < |log| ==> log[i].lsn == i + 1 && |log[i].image| == PAGE_SIZE
  }

  /** One more than the position of the last record of `p` among the first `n`; 0 if there is none. */
  ghost function LastLsn(log: seq<WalRecord>, n: nat, p: PageId): (r: nat)
    requires n <= |log|
    ensures r <= n
    ensures r > 0 ==> log[r - 1].page == p
    ensures forall i :: r <= i < n ==> log[i].page != p
  {
    if n == 0 then 0
    else if log[n - 1].page == p then n
    else LastLsn(log, n - 1, p)
  }

  /** The page as of the first `n` records: its last image, absent if there is none. */
  ghost function PageAt(log: seq<WalRecord>, n: nat, p: PageId): Option<Image>
    requires n <= |log|
  {
    var l := LastLsn(log, n, p);
    if l == 0 then None else Seen(log[l - 1].image)
  }

  lemma {:induction false} LastLsnExtends(log: seq<WalRecord>, more: seq<WalRecord>, n: nat, p: PageId)
    requires n <= |log|
    ensures LastLsn(log + more, n, p) == LastLsn(log, n, p)
  {
    if n > 0 {
      LastLsnExtends(log, more, n - 1, p);
    }
  }

  lemma {:induction false} LastLsnStable(log: seq<WalRecord>, n: nat, m: nat, p: PageId)
    requires n <= m <= |log| && LastLsn(log, m, p) <= n
    ensures LastLsn(log, n, p) == LastLsn(log, m, p)
    decreases m
  {
    if n < m {
      LastLsnStable(log, n, m - 1, p);
    }
  }

  // ---- Pool and file against the log ----

  ghost predicate PageOk(p: PageId, pool: Pool, file: File, log: seq<WalRecord>, applied: nat, ckpt: nat)
    requires applied <= |log|
  {
    var l := LastLsn(log, applied, p);
    if p in pool then
      && l > 0 && pool[p].data == log[l - 1].image
      && (if pool[p].dirty then pool[p].lsn == l > ckpt else FileRead(file, p) == PageAt(log, applied, p))
    else
      FileRead(file, p) == PageAt(log, applied, p)
  }

  /** Every page's last applied image is in the pool, or in the file; only pages newer than the checkpoint are dirty. */
  ghost predicate PagesOk(pool: Pool, file: File, log: seq<WalRecord>, applied: nat, ckpt: nat) {
    && ckpt <= applied <= |log|
    && (forall p :: PageOk(p, pool, file, log, applied, ckpt))
    && (forall p :: p in pool ==> |pool[p].data| == PAGE_SIZE && pool[p].lsn <= applied)
  }

  // ---- Segments against the log ----

  ghost predicate BatchOk(b: WalBatch) {
    b.end == b.start + |b.recs| && forall i :: 0 <= i < |b.recs| ==> b.recs[i].lsn == b.start + i
  }

  function SegmentRecords(seg: Segment): seq<WalRecord> {
    if seg == [] then [] else SegmentRecords(seg[..|seg| - 1]) + seg[|seg| - 1].recs
  }

  function AllRecords(segs: seq<Segment>): seq<WalRecord> {
    if segs == [] then [] else AllRecords(segs[..|segs| - 1]) + SegmentRecords(segs[|segs| - 1])
  }

  ghost predicate FromLog(recs: seq<WalRecord>, log: seq<WalRecord>) {
    && (forall i :: 0 <= i < |recs| ==> 1 <= recs[i].lsn <= |log| && recs[i] == log[recs[i].lsn - 1])
    && (forall i, j :: 0 <= i < j < |recs| ==> recs[i].lsn < recs[j].lsn)
  }

  ghost predicate HasAllAfter(recs: seq<WalRecord>, log: seq<WalRecord>, ckpt: nat) {
    forall i :: ckpt <= i < |log| ==> log[i] in recs
  }

  /** The surviving segments hold, in order, part of the log, and all of it after the checkpoint. */
  ghost predicate SegmentsOk(segs: seq<Segment>, log: seq<WalRecord>, ckpt: nat) {
    && (forall i, j :: 0 <= i < |segs| && 0 <= j < |segs[i]| ==> BatchOk(segs[i][j]))
    && FromLog(AllRecords(segs), log)
    && HasAllAfter(AllRecords(segs), log, ckpt)
  }

  // ---- Replay ----

  datatype Replayed = Replayed(pool: Pool, applied: nat)

  function ReplayOne(r: Replayed, rec: WalRecord): Replayed {
    if rec.lsn <= r.applied then r
    else Replayed(r.pool[rec.page := BufferPage(rec.image, true, rec.lsn)], rec.lsn)
  }

  function ReplayAll(r: Replayed, recs: seq<WalRecord>): Replayed {
    if recs == [] then r else ReplayOne(ReplayAll(r, recs[..|recs| - 1]), recs[|recs| - 1])
  }

  lemma {:induction false} ReplayConcat(r: Replayed, a: seq<WalRecord>, b: seq<WalRecord>)
    ensures ReplayAll(r, a + b) == ReplayAll(ReplayAll(r, a), b)
    decreases |b|
  {
    if b == [] {
      assert a + b == a;
    } else {
      ReplayConcat(r, a, b[..|b| - 1]);
      assert (a + b)[..|a + b| - 1] == a + b[..|b| - 1];
    }
  }

  /** The pool that holds exactly what records `from`..`to` wrote, all of it dirty. */
  ghost function PoolOf(log: seq<WalRecord>, from: nat, to: nat): Pool
    requires to <= |log|
  {
    if to <= from then map[]
    else PoolOf(log, from, to - 1)[log[to - 1].page := BufferPage(log[to - 1].image, true, to)]
  }

  lemma {:induction false} PoolOfLast(log: seq<WalRecord>, from: nat, to: nat, p: PageId)
    requires from <= to <= |log|
    ensures p in PoolOf(log, from, to) <==> LastLsn(log, to, p) > from
    ensures p in PoolOf(log, from, to) ==>
              var l := LastLsn(log, to, p); PoolOf(log, from, to)[p] == BufferPage(log[l - 1].image, true, l)
  {
    if to > from {
      PoolOfLast(log, from, to - 1, p);
    }
  }

  /**
   * Replaying what the segments still hold, from the checkpoint on, applies every record after it once
   * and in order.
   */
  lemma {:induction false} ReplayIsPool(recs: seq<WalRecord>, log: seq<WalRecord>, ckpt: nat, n: nat)
    requires LogOk(log) && FromLog(recs, log) && HasAllAfter(recs, log, ckpt) && ckpt <= |log| && n <= |recs|
    ensures var r := ReplayAll(Replayed(map[], ckpt), recs[..n]);
            && ckpt <= r.applied <= |log| && r.pool == PoolOf(log, ckpt, r.applied)
            && (forall i :: 0 <= i < n ==> recs[i].lsn <= r.applied)
            && (r.applied > ckpt ==> n > 0 && r.applied == recs[n - 1].lsn)
  {
    if n > 0 {
      ReplayIsPool(recs, log, ckpt, n - 1);
      assert recs[..n][..n - 1] == recs[..n - 1];
      var (r, rec) := (ReplayAll(Replayed(map[], ckpt), recs[..n - 1]), recs[n - 1]);
      if rec.lsn > r.applied {
        NextToApply(recs, log, ckpt, n - 1, r.applied);
      }
    }
  }

  lemma NextToApply(recs: seq<WalRecord>, log: seq<WalRecord>, ckpt: nat, k: nat, applied: nat)
    requires LogOk(log) && FromLog(recs, log) && HasAllAfter(recs, log, ckpt)
    requires k < |recs| && ckpt <= applied < recs[k].lsn
    requires forall i :: 0 <= i < k ==> recs[i].lsn <= applied
    ensures recs[k].lsn == applied + 1
  {
    assert log[applied] in recs;
    var m :| 0 <= m < |recs| && recs[m] == log[applied];
    assert recs[m].lsn == applied + 1;
  }

  /**
   * Recovery: replaying the surviving segments over the page file gives every page its last logged
   * image, for any page file that is right about the pages not touched after the checkpoint.
   */
  lemma {:induction false} RecoveryRestores(segs: seq<Segment>, log: seq<WalRecord>, ckpt: nat, file: File)
    requires LogOk(log) && SegmentsOk(segs, log, ckpt) && ckpt <= |log|
    requires forall p :: LastLsn(log, |log|, p) <= ckpt ==> FileRead(file, p) == PageAt(log, |log|, p)
    ensures var r := ReplayAll(Replayed(map[], ckpt), AllRecords(segs));
            r.applied == |log| && PagesOk(r.pool, file, log, |log|, ckpt)
  {
    hide PagesOk, SegmentsOk, PoolOf, ReplayAll, AllRecords, PageAt;
    ReplayToEnd(segs, log, ckpt);
    ReplayedPages(log, ckpt, file);
  }

  lemma {:induction false} ReplayToEnd(segs: seq<Segment>, log: seq<WalRecord>, ckpt: nat)
    requires LogOk(log) && SegmentsOk(segs, log, ckpt) && ckpt <= |log|
    ensures ReplayAll(Replayed(map[], ckpt), AllRecords(segs)) == Replayed(PoolOf(log, ckpt, |log|), |log|)
  {
    hide PoolOf, ReplayAll, AllRecords;
    var recs := AllRecords(segs);
    ReplayIsPool(recs, log, ckpt, |recs|);
    assert recs[..|recs|] == recs;
    if ckpt < |log| {
      assert log[|log| - 1] in recs;
    }
  }

  lemma {:induction false} ReplayedPages(log: seq<WalRecord>, ckpt: nat, file: File)
    requires LogOk(log) && ckpt <= |log|
    requires forall p :: LastLsn(log, |log|, p) <= ckpt ==> FileRead(file, p) == PageAt(log, |log|, p)
    ensures PagesOk(PoolOf(log, ckpt, |log|), file, log, |log|, ckpt)
  {
    hide PageAt, PoolOf, LastLsn, FileRead;
    var pool := PoolOf(log, ckpt, |log|);
    forall p ensures PageOk(p, pool, file, log, |log|, ckpt) {
      PoolOfLast(log, ckpt, |log|, p);
    }
    forall p | p in pool ensures |pool[p].data| == PAGE_SIZE && pool[p].lsn <= |log| {
      PoolOfLast(log, ckpt, |log|, p);
    }
  }
}
