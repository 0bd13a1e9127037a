/** A storage node's page store and log, as executed, with a crash possible at any point. */
module PageStore {
  import opened Bytes
  import opened Params
  import opened RedoModel

  ghost function DirtyPages(pool: Pool): set<PageId> {
    set p | p in pool && pool[p].dirty
  }

  /** `file2` is `file` with some pages of `pages` overwritten, wholly or in part, by anything. */
  ghost predicate Torn(file: File, file2: File, pages: set<PageId>) {
    forall p :: p !in pages ==> (p in file <==> p in file2) && (p in file ==> file2[p] == file[p])
  }

  /** However the page file is torn on dirty pages, what is left determines every page. */
  lemma {:induction false} TornStillRecovers(segs: seq<Segment>, pool: Pool, file: File, file2: File,
                                             log: seq<WalRecord>,
                                             applied: nat, ckpt: nat)
    requires LogOk(log) && SegmentsOk(segs, log, ckpt) && PagesOk(pool, file, log, applied, ckpt)
    requires Torn(file, file2, DirtyPages(pool))
    ensures var r := ReplayAll(Replayed(map[], ckpt), AllRecords(segs));
            r.applied == |log| && PagesOk(r.pool, file2, log, |log|, ckpt)
  {
    hide SegmentsOk, LogOk;
    forall p | LastLsn(log, |log|, p) <= ckpt ensures FileRead(file2, p) == PageAt(log, |log|, p) {
      assert PageOk(p, pool, file, log, applied, ckpt);
      LastLsnStable(log, applied, |log|, p);
    }
    RecoveryRestores(segs, log, ckpt, file2);
  }

  // ---- Opening from a persisted applied LSN ----

  /** What a read of `p` finds, a page of zeros counting as absent. */
  ghost function Reads(pool: Pool, file: File, p: PageId): Option<Image> {
    if p in pool then Seen(pool[p].data) else FileRead(file, p)
  }

  /** Replaying the segments over `file` from `base` on gives every page its last logged image. */
  ghost predicate Restores(segs: seq<Segment>, log: seq<WalRecord>, base: nat, file: File) {
    forall p :: Reads(ReplayAll(Replayed(map[], base), AllRecords(segs)).pool, file, p) == PageAt(log, |log|, p)
  }

  /** Every page not yet in the file is logged again after `base`. */
  ghost predicate DirtyAfter(pool: Pool, log: seq<WalRecord>, base: nat) {
    forall p :: p in DirtyPages(pool) ==> LastLsn(log, |log|, p) > base
  }

  lemma {:induction false} ReplayFromBase(segs: seq<Segment>, log: seq<WalRecord>, ckpt: nat, base: nat)
    requires LogOk(log) && SegmentsOk(segs, log, ckpt) && ckpt <= base <= |log|
    ensures ReplayAll(Replayed(map[], base), AllRecords(segs)) == Replayed(PoolOf(log, base, |log|), |log|)
  {
    hide SegmentsOk, LogOk, PoolOf, ReplayAll, AllRecords;
    NewerCheckpoint(segs, log, ckpt, base);
    ReplayToEnd(segs, log, base);
  }

  lemma OlderCheckpoint(pool: Pool, file: File, log: seq<WalRecord>, applied: nat, ckpt: nat, ckpt2: nat)
    requires PagesOk(pool, file, log, applied, ckpt2) && ckpt <= ckpt2
    ensures PagesOk(pool, file, log, applied, ckpt)
  {
    hide LastLsn, FileRead, PageAt;
    forall p ensures PageOk(p, pool, file, log, applied, ckpt) {
      assert PageOk(p, pool, file, log, applied, ckpt2);
    }
  }

  /**
   * If no dirty page depends on a record up to `base`, a torn file and a replay from `base` give back
   * every page.
   */
  lemma {:induction false} OpensWhole(segs: seq<Segment>, pool: Pool, file: File, file2: File, log: seq<WalRecord>,
                                      applied: nat, ckpt: nat, base: nat)
    requires LogOk(log) && SegmentsOk(segs, log, ckpt) && PagesOk(pool, file, log, applied, ckpt)
    requires ckpt <= base <= applied && DirtyAfter(pool, log, base) && Torn(file, file2, DirtyPages(pool))
    ensures PagesOk(PoolOf(log, base, |log|), file2, log, |log|, ckpt)
  {
    hide SegmentsOk, LogOk, PoolOf, PageAt;
    forall p | LastLsn(log, |log|, p) <= base ensures FileRead(file2, p) == PageAt(log, |log|, p) {
      assert PageOk(p, pool, file, log, applied, ckpt);
      LastLsnStable(log, applied, |log|, p);
      SamePage(log, applied, p);
    }
    ReplayedPages(log, base, file2);
    OlderCheckpoint(PoolOf(log, base, |log|), file2, log, |log|, ckpt, base);
  }

  lemma {:induction false} SamePage(log: seq<WalRecord>, n: nat, p: PageId)
    requires n <= |log| && LastLsn(log, n, p) == LastLsn(log, |log|, p)
    ensures PageAt(log, n, p) == PageAt(log, |log|, p)
  {
  }

  lemma PageReads(pool: Pool, file: File, log: seq<WalRecord>, n: nat, ckpt: nat, p: PageId)
    requires PagesOk(pool, file, log, n, ckpt)
    ensures Reads(pool, file, p) == PageAt(log, n, p)
  {
    assert PageOk(p, pool, file, log, n, ckpt);
  }

  /** A page file like `file` but wrong about `p`. */
  lemma WrongFile(file: File, p: PageId, right: Option<Image>) returns (file2: File)
    ensures Torn(file, file2, {p}) && FileRead(file2, p) != right
  {
    if right == None {
      var image: Image := [1];
      assert image[0] == 1 && !IsZero(image);
      file2 := file[p := image];
    } else {
      file2 := file - {p};
    }
  }

  lemma {:induction false} LostPage(segs: seq<Segment>, pool: Pool, file: File, log: seq<WalRecord>, ckpt: nat,
                                    base: nat, p: PageId)
    requires LogOk(log) && SegmentsOk(segs, log, ckpt) && ckpt <= base <= |log|
    requires p in DirtyPages(pool) && LastLsn(log, |log|, p) <= base
    ensures exists file2 :: Torn(file, file2, DirtyPages(pool)) && !Restores(segs, log, base, file2)
  {
    hide SegmentsOk, LogOk, PoolOf, ReplayAll, AllRecords, PageAt, LastLsn, FileRead;
    ReplayFromBase(segs, log, ckpt, base);
    PoolOfLast(log, base, |log|, p);
    var file2 := WrongFile(file, p, PageAt(log, |log|, p));
    assert Reads(PoolOf(log, base, |log|), file2, p) == FileRead(file2, p);
    assert Torn(file, file2, DirtyPages(pool));
  }

  /**
   * Opening from `base`: however the crash tears pages being written, every page is restored, if and
   * only if no page that was still dirty has its last record at or before `base`.
   */
  lemma {:induction false} OpenRestoresExactly(segs: seq<Segment>, pool: Pool, file: File, log: seq<WalRecord>,
                                               applied: nat, ckpt: nat, base: nat)
    requires LogOk(log) && SegmentsOk(segs, log, ckpt) && PagesOk(pool, file, log, applied, ckpt)
    requires ckpt <= base <= applied
    ensures (forall file2 :: Torn(file, file2, DirtyPages(pool)) ==> Restores(segs, log, base, file2))
            <==> DirtyAfter(pool, log, base)
  {
    hide SegmentsOk, LogOk, PoolOf, ReplayAll, AllRecords, PageAt, LastLsn, FileRead, Torn, Reads, PageOk;
    if DirtyAfter(pool, log, base) {
      ReplayFromBase(segs, log, ckpt, base);
      forall file2, p | Torn(file, file2, DirtyPages(pool))
        ensures Reads(PoolOf(log, base, |log|), file2, p) == PageAt(log, |log|, p)
      {
        OpensWhole(segs, pool, file, file2, log, applied, ckpt, base);
        PageReads(PoolOf(log, base, |log|), file2, log, |log|, ckpt, p);
      }
    } else {
      var p :| p in DirtyPages(pool) && LastLsn(log, |log|, p) <= base;
      LostPage(segs, pool, file, log, ckpt, base, p);
    }
  }

  // ---- Logging ----

  function Numbered(writes: seq<(PageId, Image)>, start: nat): (recs: seq<WalRecord>)
    ensures |recs| == |writes|
    ensures forall i :: 0 <= i < |writes| ==> recs[i] == WalRecord(start + i, writes[i].0, writes[i].1)
  {
    seq(|writes|, i requires 0 <= i < |writes| => WalRecord(start + i, writes[i].0, writes[i].1))
  }

  function WithBatch(segs: seq<Segment>, b: WalBatch, rotate: bool): seq<Segment> {
    if segs == [] || rotate then segs + [[b]] else segs[|segs| - 1 := segs[|segs| - 1] + [b]]
  }

  lemma {:induction false} WithBatchRecords(segs: seq<Segment>, b: WalBatch, rotate: bool)
    ensures AllRecords(WithBatch(segs, b, rotate)) == AllRecords(segs) + b.recs
  {
    var segs2 := WithBatch(segs, b, rotate);
    if segs == [] || rotate {
      assert segs2[..|segs2| - 1] == segs;
      assert SegmentRecords([b]) == b.recs by { assert [b][..0] == []; }
    } else {
      var (n, last) := (|segs| - 1, segs[|segs| - 1]);
      assert segs2[..n] == segs[..n];
      assert (last + [b])[..|last|] == last;
      assert SegmentRecords(last + [b]) == SegmentRecords(last) + b.recs;
      assert AllRecords(segs2) == AllRecords(segs[..n]) + (SegmentRecords(last) + b.recs);
    }
  }

  lemma LoggedSegments(segs: seq<Segment>, log: seq<WalRecord>, ckpt: nat, b: WalBatch, rotate: bool)
    requires LogOk(log) && SegmentsOk(segs, log, ckpt) && BatchOk(b) && b.start == |log| + 1
    requires forall i :: 0 <= i < |b.recs| ==> |b.recs[i].image| == PAGE_SIZE
    ensures SegmentsOk(WithBatch(segs, b, rotate), log + b.recs, ckpt) && LogOk(log + b.recs)
  {
    hide AllRecords;
    WithBatchRecords(segs, b, rotate);
    var (had, recs, log2) := (AllRecords(segs), AllRecords(segs) + b.recs, log + b.recs);
    forall i | 0 <= i < |recs| ensures 1 <= recs[i].lsn <= |log2| && recs[i] == log2[recs[i].lsn - 1] {
      if i >= |had| {
        assert recs[i] == b.recs[i - |had|];
      }
    }
    forall i | ckpt <= i < |log2| ensures log2[i] in recs {
      if i < |log| {
        assert log[i] in had;
      } else {
        assert log2[i] == b.recs[i - |log|];
      }
    }
  }

  lemma LoggedPages(pool: Pool, file: File, log: seq<WalRecord>, more: seq<WalRecord>, applied: nat, ckpt: nat)
    requires PagesOk(pool, file, log, applied, ckpt)
    ensures PagesOk(pool, file, log + more, applied, ckpt)
  {
    hide LastLsn, FileRead;
    forall p ensures PageOk(p, pool, file, log + more, applied, ckpt) {
      assert PageOk(p, pool, file, log, applied, ckpt);
      LastLsnExtends(log, more, applied, p);
    }
  }

  // ---- Applying ----

  lemma AppliedPages(pool: Pool, file: File, log: seq<WalRecord>, applied: nat, ckpt: nat)
    requires LogOk(log) && PagesOk(pool, file, log, applied, ckpt) && applied < |log|
    ensures var rec := log[applied];
            PagesOk(pool[rec.page := BufferPage(rec.image, true, rec.lsn)], file, log, applied + 1, ckpt)
  {
    var (rec, n) := (log[applied], applied + 1);
    var pool2 := pool[rec.page := BufferPage(rec.image, true, rec.lsn)];
    forall p ensures PageOk(p, pool2, file, log, n, ckpt) {
      assert PageOk(p, pool, file, log, applied, ckpt);
    }
  }

  /** The persisted applied LSN after LSNs `from + 1` to `to` were applied: the last one whose write succeeded. */
  ghost function Saved(was: nat, from: nat, upto: nat, saves: set<nat>): nat {
    if upto <= from then was else if upto in saves then upto else Saved(was, from, upto - 1, saves)
  }

  lemma {:induction false} SavedBound(was: nat, from: nat, upto: nat, saves: set<nat>)
    requires was <= from <= upto
    ensures Saved(was, from, upto, saves) <= upto
    ensures from < upto ==> (Saved(was, from, upto, saves) == upto <==> upto in saves)
    ensures forall l :: from < l <= upto && l in saves ==> l <= Saved(was, from, upto, saves)
    ensures var w := Saved(was, from, upto, saves); w == was || (from < w && w in saves)
    decreases upto
  {
    if from < upto {
      SavedBound(was, from, upto - 1, saves);
    }
  }

  // ---- Checkpoint and eviction ----

  function IdSet(ids: seq<PageId>): set<PageId> {
    set p | p in ids
  }

  lemma IdSetPush(ids: seq<PageId>, p: PageId)
    ensures IdSet(ids + [p]) == IdSet(ids) + {p}
  {
  }

  ghost function Flushed(file: File, pool: Pool, ids: set<PageId>): File {
    map p | p in file.Keys + (ids * pool.Keys) :: if p in ids && p in pool then pool[p].data else file[p]
  }

  lemma IdIn(ids: seq<PageId>, i: nat)
    requires i < |ids|
    ensures ids[i] in IdSet(ids) && IdSet(ids[..i]) <= IdSet(ids)
  {
  }

  lemma NothingFlushed(file: File, pool: Pool, ids: seq<PageId>)
    ensures IdSet(ids[..0]) == {} && Flushed(file, pool, {}) == file && Torn(file, file, {})
  {
  }

  lemma FlushedPush(file: File, pool: Pool, ids: set<PageId>, p: PageId)
    requires p in pool
    ensures Flushed(file, pool, ids + {p}) == Flushed(file, pool, ids)[p := pool[p].data]
    ensures Torn(file, Flushed(file, pool, ids + {p}), ids + {p})
  {
  }

  ghost function Cleaned(pool: Pool, ids: set<PageId>): Pool {
    map p | p in pool :: if p in ids then pool[p].(dirty := false) else pool[p]
  }

  lemma CleanedPages(pool: Pool)
    ensures var pool2 := Cleaned(pool, DirtyPages(pool));
            pool2.Keys == pool.Keys && forall p :: p in pool2 ==> pool2[p] == pool[p].(dirty := false)
  {
  }

  lemma NothingDirty(pool: Pool, ids: seq<PageId>)
    requires IdSet(ids) == DirtyPages(pool) && ids == []
    ensures DirtyPages(pool) == {} && Cleaned(pool, DirtyPages(pool)) == pool
  {
  }

  lemma CheckpointPages(pool: Pool, file: File, log: seq<WalRecord>, applied: nat, ckpt: nat, maxLsn: nat)
    requires PagesOk(pool, file, log, applied, ckpt)
    requires maxLsn == 0 || exists p :: p in DirtyPages(pool) && pool[p].lsn == maxLsn
    ensures var (pool2, file2) := (Cleaned(pool, DirtyPages(pool)), Flushed(file, pool, DirtyPages(pool)));
            && PagesOk(pool2, file2, log, applied, ckpt)
            && (maxLsn > ckpt ==> PagesOk(pool2, file2, log, applied, maxLsn))
            && DirtyPages(pool2) == {}
            && Torn(file, file2, DirtyPages(pool))
  {
    hide LastLsn;
    var (pool2, file2) := (Cleaned(pool, DirtyPages(pool)), Flushed(file, pool, DirtyPages(pool)));
    var top := if maxLsn > ckpt then maxLsn else ckpt;
    forall p ensures PageOk(p, pool2, file2, log, applied, ckpt) && PageOk(p, pool2, file2, log, applied, top) {
      assert PageOk(p, pool, file, log, applied, ckpt);
    }
  }

  lemma NewerCheckpoint(segs: seq<Segment>, log: seq<WalRecord>, ckpt: nat, ckpt2: nat)
    requires SegmentsOk(segs, log, ckpt) && ckpt <= ckpt2
    ensures SegmentsOk(segs, log, ckpt2)
  {
    hide AllRecords;
  }

  lemma EvictedPages(pool: Pool, file: File, log: seq<WalRecord>, applied: nat, ckpt: nat, victims: set<PageId>)
    requires PagesOk(pool, file, log, applied, ckpt) && victims <= pool.Keys
    ensures var file2 := Flushed(file, pool, victims * DirtyPages(pool));
            && PagesOk(pool - victims, file2, log, applied, ckpt)
            && Torn(file, file2, DirtyPages(pool))
  {
    hide LastLsn;
    var file2 := Flushed(file, pool, victims * DirtyPages(pool));
    forall p ensures PageOk(p, pool - victims, file2, log, applied, ckpt) {
      assert PageOk(p, pool, file, log, applied, ckpt);
    }
  }

  // ---- Truncation ----

  /** The segment has a batch that ends after LSN 0, and every batch of it ends by the checkpoint. */
  ghost predicate Covered(seg: Segment, ckpt: nat) {
    && (exists j :: 0 <= j < |seg| && seg[j].end > 0)
    && (forall j :: 0 <= j < |seg| ==> seg[j].end <= ckpt)
  }

  /** The segments left of the first `n`: the last one always, others unless deleted as covered by the checkpoint. */
  ghost function Surviving(segs: seq<Segment>, deletes: seq<bool>, ckpt: nat, n: nat): seq<Segment>
    requires n <= |segs| == |deletes|
  {
    if n == 0 then []
    else
      var rest := Surviving(segs, deletes, ckpt, n - 1);
      if n < |segs| && Covered(segs[n - 1], ckpt) && deletes[n - 1] then rest else rest + [segs[n - 1]]
  }

  /**
   * `left` is the segments numbered `ids`, in order, and of the first `n` segments exactly those
   * are not among them that are covered, are not the last one and could be deleted.
   */
  ghost predicate LeftOf(segs: seq<Segment>, deletes: seq<bool>, ckpt: nat, n: nat, left: seq<Segment>,
                         ids: seq<nat>)
  {
    && n <= |segs| == |deletes| && |ids| == |left| && (forall s, t :: 0 <= s < t < |ids| ==> ids[s] < ids[t])
    && (forall t :: 0 <= t < |ids| ==> ids[t] < n && left[t] == segs[ids[t]])
    && (forall i :: 0 <= i < n ==> (i !in ids <==> i < |segs| - 1 && deletes[i] && Covered(segs[i], ckpt)))
  }

  lemma LeftNext(segs: seq<Segment>, deletes: seq<bool>, ckpt: nat, n: nat, left: seq<Segment>, ids: seq<nat>)
    requires LeftOf(segs, deletes, ckpt, n, left, ids) && n < |segs|
    ensures if n < |segs| - 1 && deletes[n] && Covered(segs[n], ckpt)
            then LeftOf(segs, deletes, ckpt, n + 1, left, ids)
            else LeftOf(segs, deletes, ckpt, n + 1, left + [segs[n]], ids + [n])
  {
    hide Covered;
    assert n !in ids && forall i :: i != n ==> (i in ids <==> i in ids + [n]);
    assert n in ids + [n] by { assert (ids + [n])[|ids|] == n; }
  }

  lemma NoneLeft(segs: seq<Segment>, deletes: seq<bool>, ckpt: nat)
    requires |deletes| == |segs|
    ensures LeftOf(segs, deletes, ckpt, 0, [], [])
  {
  }

  /** A segment is covered exactly when the largest end of its batches is not 0 and not past the checkpoint. */
  lemma CoveredByMax(seg: Segment, ckpt: nat, m: nat)
    requires forall j :: 0 <= j < |seg| ==> seg[j].end <= m
    requires m == 0 || exists j :: 0 <= j < |seg| && seg[j].end == m
    ensures Covered(seg, ckpt) <==> 0 < m <= ckpt
  {
  }

  lemma {:induction false} CoveredSegment(seg: Segment, i: nat, ckpt: nat)
    requires i < |SegmentRecords(seg)| && forall j :: 0 <= j < |seg| ==> BatchOk(seg[j]) && seg[j].end <= ckpt
    ensures SegmentRecords(seg)[i].lsn < ckpt
  {
    var less := seg[..|seg| - 1];
    if i < |SegmentRecords(less)| {
      CoveredSegment(less, i, ckpt);
    } else {
      assert SegmentRecords(seg)[i] == seg[|seg| - 1].recs[i - |SegmentRecords(less)|];
    }
  }

  // `a` is what is left of `b` after dropping records up to the checkpoint.
  ghost predicate Trimmed(a: seq<WalRecord>, b: seq<WalRecord>, ckpt: nat) {
    && (forall i :: 0 <= i < |a| ==> a[i] in b)
    && (forall i :: 0 <= i < |b| && b[i].lsn > ckpt ==> b[i] in a)
    && (Sorted(b) ==> Sorted(a))
  }

  ghost predicate Sorted(a: seq<WalRecord>) {
    forall i, j :: 0 <= i < j < |a| ==> a[i].lsn < a[j].lsn
  }

  lemma SortedPush(a: seq<WalRecord>, b: seq<WalRecord>, more: seq<WalRecord>)
    requires (forall i :: 0 <= i < |a| ==> a[i] in b) && (Sorted(b) ==> Sorted(a)) && Sorted(b + more)
    ensures Sorted(a) && Sorted(a + more)
  {
    var (c, d) := (a + more, b + more);
    forall i, j | 0 <= i < j < |b| ensures b[i].lsn < b[j].lsn {
      assert d[i] == b[i] && d[j] == b[j];
    }
    forall i, j | 0 <= i < j < |c| ensures c[i].lsn < c[j].lsn {
      if j >= |a| {
        assert c[j] == d[|b| + (j - |a|)];
        if i < |a| {
          var k :| 0 <= k < |b| && b[k] == a[i];
          assert d[k] == c[i];
        } else {
          assert c[i] == d[|b| + (i - |a|)];
        }
      }
    }
  }

  lemma TrimmedPush(a: seq<WalRecord>, b: seq<WalRecord>, more: seq<WalRecord>, ckpt: nat)
    requires Trimmed(a, b, ckpt)
    ensures Trimmed(a + more, b + more, ckpt)
    ensures (forall i :: 0 <= i < |more| ==> more[i].lsn <= ckpt) ==> Trimmed(a, b + more, ckpt)
  {
    if Sorted(b + more) {
      SortedPush(a, b, more);
    }
  }

  lemma {:induction false} SurvivingTrims(segs: seq<Segment>, deletes: seq<bool>, ckpt: nat, n: nat)
    requires n <= |segs| == |deletes|
    requires forall i, j :: 0 <= i < |segs| && 0 <= j < |segs[i]| ==> BatchOk(segs[i][j])
    ensures Trimmed(AllRecords(Surviving(segs, deletes, ckpt, n)), AllRecords(segs[..n]), ckpt)
  {
    if n > 0 {
      SurvivingTrims(segs, deletes, ckpt, n - 1);
      var (rest, seg) := (Surviving(segs, deletes, ckpt, n - 1), segs[n - 1]);
      assert segs[..n][..n - 1] == segs[..n - 1];
      var recs := SegmentRecords(seg);
      if n < |segs| && Covered(seg, ckpt) && deletes[n - 1] {
        forall i | 0 <= i < |recs| ensures recs[i].lsn <= ckpt {
          CoveredSegment(seg, i, ckpt);
        }
      } else {
        assert (rest + [seg])[..|rest|] == rest;
      }
      TrimmedPush(AllRecords(rest), AllRecords(segs[..n - 1]), recs, ckpt);
    }
  }

  lemma {:induction false} SurvivingFrom(segs: seq<Segment>, deletes: seq<bool>, ckpt: nat, n: nat)
    requires n <= |segs| == |deletes|
    ensures forall i :: 0 <= i < |Surviving(segs, deletes, ckpt, n)| ==> Surviving(segs, deletes, ckpt, n)[i] in segs
  {
    if n > 0 {
      SurvivingFrom(segs, deletes, ckpt, n - 1);
    }
  }

  /** Truncation deletes no record after the checkpoint. */
  lemma {:induction false} SurvivingKeeps(segs: seq<Segment>, log: seq<WalRecord>, deletes: seq<bool>, ckpt: nat)
    requires |deletes| == |segs| && LogOk(log) && SegmentsOk(segs, log, ckpt)
    ensures SegmentsOk(Surviving(segs, deletes, ckpt, |segs|), log, ckpt)
  {
    hide AllRecords, Surviving;
    SurvivingTrims(segs, deletes, ckpt, |segs|);
    SurvivingFrom(segs, deletes, ckpt, |segs|);
    assert segs[..|segs|] == segs;
    TrimmedKeeps(AllRecords(Surviving(segs, deletes, ckpt, |segs|)), AllRecords(segs), log, ckpt);
  }

  lemma TrimmedKeeps(a: seq<WalRecord>, b: seq<WalRecord>, log: seq<WalRecord>, ckpt: nat)
    requires Trimmed(a, b, ckpt) && LogOk(log) && FromLog(b, log) && HasAllAfter(b, log, ckpt)
    ensures FromLog(a, log) && HasAllAfter(a, log, ckpt)
  {
    assert Sorted(b) && Sorted(a);
  }

  class NodeStore {
    var pool: Pool
    var file: File
    var checkpointLsn: nat
    var segments: seq<Segment>
    var durableLsn: nat
    var lastApplied: nat
    var walState: nat
    ghost var log: seq<WalRecord>

    ghost predicate Valid()
      reads this
    {
      && LogOk(log) && durableLsn == |log| + 1 && walState <= lastApplied
      && SegmentsOk(segments, log, checkpointLsn)
      && PagesOk(pool, file, log, lastApplied, checkpointLsn)
    }

    constructor ()
      ensures Valid() && log == [] && segments == [] && pool == map[] && file == map[]
      ensures checkpointLsn == 0 && lastApplied == 0 && walState == 0 && durableLsn == 1
    {
      pool, file, checkpointLsn, segments, durableLsn, lastApplied := map[], map[], 0, [], 1, 0;
      walState, log := 0, [];
    }

    /** Reads a page wherever it lives; a page of zeros may read as absent. */
    method Get(p: PageId) returns (r: Option<Image>)
      ensures (if r.Some? then Seen(r.value) else None) == Reads(pool, file, p)
      ensures p in pool ==> r == Some(pool[p].data)
      ensures p !in pool ==> (r == None <==> p !in file || forall i :: 0 <= i < |file[p]| ==> file[p][i] == 0)
      ensures p !in pool && r.Some? ==> r.value == file[p]
      ensures Valid() ==> Reads(pool, file, p) == PageAt(log, lastApplied, p)
      ensures Valid() && PageAt(log, lastApplied, p).Some? ==> r == PageAt(log, lastApplied, p)
    {
      hide SegmentsOk, LogOk;
      assert Valid() ==> PageOk(p, pool, file, log, lastApplied, checkpointLsn);
      if p in pool {
        return Some(pool[p].data);
      }
      r := FileRead(file, p);
    }

    // ---- The log ----

    /** The log writer appends a validated batch, in a new segment when the current one is full. */
    method LogBatch(writes: seq<(PageId, Image)>, rotate: bool)
      requires Valid() && forall i :: 0 <= i < |writes| ==> |writes[i].1| == PAGE_SIZE
      modifies `segments, `log, `durableLsn
      ensures Valid()
      ensures log == old(log) + Numbered(writes, |old(log)| + 1) && durableLsn == |log| + 1
      ensures segments == WithBatch(old(segments), WalBatch(old(durableLsn), durableLsn,
                                                            Numbered(writes, old(durableLsn))), rotate)
      ensures segments != []
      ensures old(segments) == [] || rotate ==>
                segments[..|segments| - 1] == old(segments) && |segments[|segments| - 1]| == 1
      ensures old(segments) != [] && !rotate ==>
                && |segments| == |old(segments)| && segments[..|segments| - 1] == old(segments)[..|segments| - 1]
                && |segments[|segments| - 1]| == |old(segments)[|segments| - 1]| + 1
                && old(segments)[|segments| - 1] <= segments[|segments| - 1]
    {
      hide PagesOk, SegmentsOk;
      var start := durableLsn;
      var recs := Numbered(writes, start);
      var batch := WalBatch(start, start + |writes|, recs);
      LoggedSegments(segments, log, checkpointLsn, batch, rotate);
      LoggedPages(pool, file, log, recs, lastApplied, checkpointLsn);
      segments := WithBatch(segments, batch, rotate);
      durableLsn := start + |writes|;
      log := log + recs;
    }

    // ---- Applying ----

    /**
     * The live replay loop on one batch from the log: applies its records in LSN order, skipping
     * those already applied and stopping at a gap, and persists each applied LSN; `saves` has the
     * LSNs for which that succeeds.
     */
    method ApplyBatch(batch: WalBatch, saves: set<nat>)
      requires Valid() && BatchOk(batch) && FromLog(batch.recs, log)
      modifies `pool, `lastApplied, `walState
      ensures Valid()
      ensures batch.start > old(lastApplied) + 1 ==> lastApplied == old(lastApplied)
      ensures batch.start <= old(lastApplied) + 1 ==>
                lastApplied == if batch.end > old(lastApplied) + 1 then batch.end - 1 else old(lastApplied)
      ensures walState == Saved(old(walState), old(lastApplied), lastApplied, saves)
    {
      hide SegmentsOk, PagesOk;
      var i := 0;
      while i < |batch.recs|
        invariant i <= |batch.recs| && Valid()
        invariant batch.start > old(lastApplied) + 1 ==> lastApplied == old(lastApplied)
        invariant batch.start <= old(lastApplied) + 1 ==>
                    lastApplied == if batch.start + i > old(lastApplied) + 1 then batch.start + i - 1
                                   else old(lastApplied)
        invariant walState == Saved(old(walState), old(lastApplied), lastApplied, saves)
      {
        var rec := batch.recs[i];
        if rec.lsn > lastApplied {
          if rec.lsn != lastApplied + 1 {
            break;
          }
          AppliedPages(pool, file, log, lastApplied, checkpointLsn);
          pool := pool[rec.page := BufferPage(rec.image, true, rec.lsn)];
          lastApplied := rec.lsn;
          if rec.lsn in saves {
            walState := rec.lsn;
          }
        }
        i := i + 1;
      }
    }

    // ---- Checkpoint and eviction ----

    method DirtyIds() returns (ids: seq<PageId>)
      ensures IdSet(ids) == DirtyPages(pool)
    {
      var todo := pool.Keys;
      ids := [];
      while todo != {}
        invariant todo <= pool.Keys && IdSet(ids) == DirtyPages(pool) - todo
      {
        var p :| p in todo;
        if pool[p].dirty {
          IdSetPush(ids, p);
          ids := ids + [p];
        }
        todo := todo - {p};
      }
    }

    /**
     * Writes pages of the pool to the page file. Whenever it stops, in the middle of a page or
     * between two, the file differs from what it was on dirty pages only.
     */
    method Flush(ids: seq<PageId>) returns (maxLsn: nat)
      requires IdSet(ids) <= pool.Keys
      modifies `file
      ensures Torn(old(file), file, IdSet(ids))
      ensures file == Flushed(old(file), pool, IdSet(ids))
      ensures forall p :: p in IdSet(ids) ==> pool[p].lsn <= maxLsn
      ensures maxLsn == 0 || exists p :: p in IdSet(ids) && pool[p].lsn == maxLsn
    {
      hide Flushed, IdSet, Torn;
      var i := 0;
      maxLsn := 0;
      NothingFlushed(file, pool, ids);
      while i < |ids|
        invariant i <= |ids| && file == Flushed(old(file), pool, IdSet(ids[..i]))
        invariant Torn(old(file), file, IdSet(ids[..i])) && IdSet(ids[..i]) <= pool.Keys
        invariant forall p :: p in IdSet(ids[..i]) ==> pool[p].lsn <= maxLsn
        invariant maxLsn == 0 || exists p :: p in IdSet(ids[..i]) && pool[p].lsn == maxLsn
      {
        var p := ids[i];
        IdIn(ids, i);
        assert ids[..i + 1] == ids[..i] + [p];
        IdSetPush(ids[..i], p);
        FlushedPush(old(file), pool, IdSet(ids[..i]), p);
        file := file[p := pool[p].data];
        if pool[p].lsn > maxLsn {
          maxLsn := pool[p].lsn;
        }
        i := i + 1;
      }
      assert ids[..i] == ids;
    }

    method MarkClean(ids: seq<PageId>)
      requires IdSet(ids) <= pool.Keys
      modifies `pool
      ensures pool == Cleaned(old(pool), IdSet(ids))
    {
      var i := 0;
      assert ids[..0] == [];
      while i < |ids|
        invariant i <= |ids| && IdSet(ids) <= pool.Keys && pool == Cleaned(old(pool), IdSet(ids[..i]))
      {
        var p := ids[i];
        assert p in IdSet(ids);
        assert ids[..i + 1] == ids[..i] + [p];
        IdSetPush(ids[..i], p);
        pool := pool[p := pool[p].(dirty := false)];
        i := i + 1;
      }
      assert ids[..i] == ids;
    }

    /**
     * Writes all dirty pages, marks them clean, and only then moves the persisted checkpoint to
     * the newest of them.
     */
    method Checkpoint()
      requires Valid()
      modifies `pool, `file, `checkpointLsn
      ensures Valid() && DirtyPages(pool) == {}
      ensures pool.Keys == old(pool).Keys && forall p :: p in pool ==> pool[p] == old(pool)[p].(dirty := false)
      ensures checkpointLsn >= old(checkpointLsn)
      ensures checkpointLsn == old(checkpointLsn)
              || exists p :: p in DirtyPages(old(pool)) && old(pool)[p].lsn == checkpointLsn
      ensures forall p :: p in DirtyPages(old(pool)) ==> old(pool)[p].lsn <= checkpointLsn
      ensures Torn(old(file), file, DirtyPages(old(pool)))
    {
      hide SegmentsOk, PagesOk, Flushed, Cleaned;
      var ids := DirtyIds();
      if |ids| == 0 {
        NothingDirty(pool, ids);
        CleanedPages(pool);
        return;
      }
      ghost var was := pool;
      var maxLsn := Flush(ids);
      MarkClean(ids);
      CleanedPages(was);
      CheckpointPages(was, old(file), log, lastApplied, checkpointLsn, maxLsn);
      if maxLsn > checkpointLsn {
        NewerCheckpoint(segments, log, checkpointLsn, maxLsn);
        checkpointLsn := maxLsn;
      }
    }

    /** Drops pages from the pool, writing the dirty ones to the file first; the checkpoint stays. */
    method Evict(victims: seq<PageId>)
      requires Valid() && IdSet(victims) <= pool.Keys
      modifies `pool, `file
      ensures Valid() && pool == old(pool) - IdSet(victims)
      ensures Torn(old(file), file, DirtyPages(old(pool)))
    {
      hide SegmentsOk, PagesOk, Flushed;
      var dirty, i := [], 0;
      assert victims[..0] == [];
      while i < |victims|
        invariant i <= |victims| && IdSet(dirty) == IdSet(victims[..i]) * DirtyPages(pool)
        invariant unchanged(this)
      {
        assert victims[..i + 1] == victims[..i] + [victims[i]];
        IdSetPush(victims[..i], victims[i]);
        assert victims[i] in IdSet(victims);
        if pool[victims[i]].dirty {
          IdSetPush(dirty, victims[i]);
          dirty := dirty + [victims[i]];
        }
        i := i + 1;
      }
      assert victims[..i] == victims;
      EvictedPages(pool, file, log, lastApplied, checkpointLsn, IdSet(victims));
      var _ := Flush(dirty);
      i := 0;
      assert victims[..0] == [];
      while i < |victims|
        invariant i <= |victims| && pool == old(pool) - IdSet(victims[..i])
        invariant file == Flushed(old(file), old(pool), IdSet(dirty))
      {
        assert victims[..i + 1] == victims[..i] + [victims[i]];
        IdSetPush(victims[..i], victims[i]);
        pool := pool - {victims[i]};
        i := i + 1;
      }
      assert victims[..i] == victims;
    }

    // ---- Truncation ----

    /** The largest LSN a batch of the segment ends at, or 0. */
    method SegmentMaxLsn(seg: Segment) returns (m: nat)
      ensures forall j :: 0 <= j < |seg| ==> seg[j].end <= m
      ensures m == 0 || exists j :: 0 <= j < |seg| && seg[j].end == m
    {
      m := 0;
      var i := 0;
      while i < |seg|
        invariant i <= |seg| && forall j :: 0 <= j < i ==> seg[j].end <= m
        invariant m == 0 || exists j :: 0 <= j < i && seg[j].end == m
      {
        if seg[i].end > m {
          m := seg[i].end;
        }
        i := i + 1;
      }
    }

    /**
     * Deletes segments, never the last, whose largest end LSN is at or below the checkpoint;
     * `deletes[i]` says whether removing the file of segment `i` succeeds. The segments left are
     * those numbered `ids`, in order.
     */
    method Truncate(deletes: seq<bool>) returns (deleted: nat, ghost ids: seq<nat>)
      requires Valid() && |deletes| == |segments|
      modifies `segments
      ensures Valid()
      ensures LeftOf(old(segments), deletes, checkpointLsn, |old(segments)|, segments, ids)
      ensures deleted == |old(segments)| - |segments|
    {
      hide PagesOk, SegmentsOk, LeftOf, Covered;
      NoneLeft(segments, deletes, checkpointLsn);
      if |segments| <= 1 {
        ids := [];
        if |segments| == 1 {
          LeftNext(segments, deletes, checkpointLsn, 0, [], []);
          assert [] + [segments[0]] == segments;
          ids := [] + [0];
        }
        return 0, ids;
      }
      deleted, ids := 0, [];
      var kept, i := [], 0;
      while i < |segments| - 1
        invariant unchanged(this) && i <= |segments| - 1
        invariant kept == Surviving(segments, deletes, checkpointLsn, i) && deleted == i - |kept|
        invariant LeftOf(segments, deletes, checkpointLsn, i, kept, ids)
      {
        var m := SegmentMaxLsn(segments[i]);
        CoveredByMax(segments[i], checkpointLsn, m);
        LeftNext(segments, deletes, checkpointLsn, i, kept, ids);
        if m > 0 && m <= checkpointLsn && deletes[i] {
          deleted := deleted + 1;
        } else {
          kept, ids := kept + [segments[i]], ids + [i];
        }
        i := i + 1;
      }
      SurvivingKeeps(segments, log, deletes, checkpointLsn);
      LeftNext(segments, deletes, checkpointLsn, i, kept, ids);
      segments, ids := kept + [segments[i]], ids + [i];
    }

    // ---- Crash and recovery ----

    /** Replays the segments over the page file, from the applied LSN on, and persists each LSN applied. */
    method Replay(saves: set<nat>)
      requires pool == map[]
      modifies `pool, `lastApplied, `walState
      ensures Replayed(pool, lastApplied) == ReplayAll(Replayed(map[], old(lastApplied)), AllRecords(segments))
      ensures walState == SavedBy(old(walState), old(lastApplied), AllRecords(segments), saves)
    {
      hide ReplayAll, SavedBy;
      ghost var r, w := Replayed(map[], lastApplied), walState;
      var i := 0;
      assert segments[..0] == [];
      NoneReplayed(r, w, saves);
      while i < |segments|
        invariant i <= |segments|
        invariant Replayed(pool, lastApplied) == ReplayAll(r, AllRecords(segments[..i]))
        invariant walState == SavedBy(w, r.applied, AllRecords(segments[..i]), saves)
      {
        assert segments[..i + 1][..i] == segments[..i];
        ReplayConcat(r, AllRecords(segments[..i]), SegmentRecords(segments[i]));
        SavedConcat(r, w, AllRecords(segments[..i]), SegmentRecords(segments[i]), saves);
        ReplaySegment(segments[i], saves);
        i := i + 1;
      }
      assert segments[..i] == segments;
    }

    method ReplaySegment(seg: Segment, saves: set<nat>)
      modifies `pool, `lastApplied, `walState
      ensures Replayed(pool, lastApplied) == ReplayAll(Replayed(old(pool), old(lastApplied)), SegmentRecords(seg))
      ensures walState == SavedBy(old(walState), old(lastApplied), SegmentRecords(seg), saves)
    {
      hide ReplayAll, SavedBy;
      ghost var r, w := Replayed(pool, lastApplied), walState;
      var j := 0;
      assert seg[..0] == [];
      NoneReplayed(r, w, saves);
      while j < |seg|
        invariant j <= |seg| && Replayed(pool, lastApplied) == ReplayAll(r, SegmentRecords(seg[..j]))
        invariant walState == SavedBy(w, r.applied, SegmentRecords(seg[..j]), saves)
      {
        assert seg[..j + 1][..j] == seg[..j];
        ReplayConcat(r, SegmentRecords(seg[..j]), seg[j].recs);
        SavedConcat(r, w, SegmentRecords(seg[..j]), seg[j].recs, saves);
        ReplayRecords(seg[j].recs, saves);
        j := j + 1;
      }
      assert seg[..j] == seg;
    }

    method ReplayRecords(recs: seq<WalRecord>, saves: set<nat>)
      modifies `pool, `lastApplied, `walState
      ensures Replayed(pool, lastApplied) == ReplayAll(Replayed(old(pool), old(lastApplied)), recs)
      ensures walState == SavedBy(old(walState), old(lastApplied), recs, saves)
    {
      var k := 0;
      ghost var r, w := Replayed(pool, lastApplied), walState;
      assert recs[..0] == [];
      while k < |recs|
        invariant k <= |recs| && Replayed(pool, lastApplied) == ReplayAll(r, recs[..k])
        invariant walState == SavedBy(w, r.applied, recs[..k], saves) && lastApplied == AppliedBy(r.applied, recs[..k])
      {
        assert recs[..k + 1][..k] == recs[..k];
        if recs[k].lsn > lastApplied {
          pool := pool[recs[k].page := BufferPage(recs[k].image, true, recs[k].lsn)];
          lastApplied := recs[k].lsn;
          if recs[k].lsn in saves {
            walState := recs[k].lsn;
          }
        }
        k := k + 1;
      }
      assert recs[..k] == recs;
    }

    /**
     * A crash between two log appends loses the pool and may leave anything on pages that were being
     * written, which are dirty ones. Opening again replays the log from the larger of the persisted
     * applied LSN and the checkpoint, and takes the applied LSN it finds persisted afterwards.
     * Exactly what comes back is in `OpenRestoresExactly`: everything, if no dirty page had its last
     * record at or before that base; and the store is whole again if the last LSN was persisted too.
     */
    method CrashAndOpen(wreck: File, saves: set<nat>)
      requires Valid() && Torn(file, wreck, DirtyPages(pool))
      modifies `pool, `file, `durableLsn, `lastApplied, `walState
      ensures file == wreck && durableLsn == lastApplied + 1
      ensures var base := Larger(old(walState), checkpointLsn);
              && pool == ReplayAll(Replayed(map[], base), AllRecords(segments)).pool
              && walState == Saved(old(walState), base, |log|, saves) && lastApplied == Larger(walState, base)
              && (lastApplied == |log| <==> base == |log| || |log| in saves)
              && (old(DirtyAfter(pool, log, base)) && lastApplied == |log| ==> Valid())
    {
      hide PagesOk, SegmentsOk, ReplayAll, AllRecords, LogOk, Torn, DirtyAfter, PoolOf, Saved, SavedBy;
      PagesBounds(pool, file, log, lastApplied, checkpointLsn);
      var base := Larger(walState, checkpointLsn);
      ReplayFromBase(segments, log, checkpointLsn, base);
      SavedInOrder(segments, log, checkpointLsn, base, walState, saves);
      SavedFrom(walState, base, |log|, saves);
      ghost var was, before := pool, lastApplied;
      if DirtyAfter(pool, log, base) {
        OpensWhole(segments, pool, file, wreck, log, lastApplied, checkpointLsn, base);
      }
      file := wreck;
      pool := map[];
      lastApplied := base;
      Replay(saves);
      lastApplied := Larger(walState, base);
      durableLsn := lastApplied + 1;
    }
  }

  function Larger(a: nat, b: nat): nat {
    if a > b then a else b
  }

  lemma PagesBounds(pool: Pool, file: File, log: seq<WalRecord>, applied: nat, ckpt: nat)
    requires PagesOk(pool, file, log, applied, ckpt)
    ensures ckpt <= applied <= |log|
  {
    hide PageOk;
  }

  // ---- What replay persists ----

  function AppliedBy(applied: nat, recs: seq<WalRecord>): nat {
    if recs == [] then applied else Larger(AppliedBy(applied, recs[..|recs| - 1]), recs[|recs| - 1].lsn)
  }

  /** The persisted LSN after replaying `recs`: the last of those applied whose write succeeded. */
  ghost function SavedBy(was: nat, applied: nat, recs: seq<WalRecord>, saves: set<nat>): nat {
    if recs == [] then was
    else
      var (less, rec) := (recs[..|recs| - 1], recs[|recs| - 1]);
      if rec.lsn > AppliedBy(applied, less) && rec.lsn in saves then rec.lsn else SavedBy(was, applied, less, saves)
  }

  lemma {:induction false} NoneReplayed(r: Replayed, w: nat, saves: set<nat>)
    ensures ReplayAll(r, []) == r && SavedBy(w, r.applied, [], saves) == w
  {
  }

  lemma {:induction false} ReplayApplies(r: Replayed, recs: seq<WalRecord>)
    ensures ReplayAll(r, recs).applied == AppliedBy(r.applied, recs)
  {
    if recs != [] {
      ReplayApplies(r, recs[..|recs| - 1]);
    }
  }

  lemma {:induction false} AppliedConcat(applied: nat, a: seq<WalRecord>, b: seq<WalRecord>)
    ensures AppliedBy(applied, a + b) == AppliedBy(AppliedBy(applied, a), b)
    decreases |b|
  {
    if b == [] {
      assert a + b == a;
    } else {
      AppliedConcat(applied, a, b[..|b| - 1]);
      assert (a + b)[..|a + b| - 1] == a + b[..|b| - 1];
    }
  }

  lemma {:induction false} SavedConcat(r: Replayed, w: nat, a: seq<WalRecord>, b: seq<WalRecord>, saves: set<nat>)
    ensures SavedBy(w, r.applied, a + b, saves) ==
            SavedBy(SavedBy(w, r.applied, a, saves), ReplayAll(r, a).applied, b, saves)
    decreases |b|
  {
    hide ReplayAll;
    ReplayApplies(r, a);
    if b == [] {
      assert a + b == a;
    } else {
      var less := b[..|b| - 1];
      SavedConcat(r, w, a, less, saves);
      AppliedConcat(r.applied, a, less);
      assert (a + b)[..|a + b| - 1] == a + less;
    }
  }

  lemma {:induction false} SavedSteps(recs: seq<WalRecord>, log: seq<WalRecord>, base: nat, w: nat, saves: set<nat>,
                                      n: nat)
    requires LogOk(log) && FromLog(recs, log) && HasAllAfter(recs, log, base) && base <= |log| && n <= |recs|
    ensures base <= AppliedBy(base, recs[..n]) && (forall i :: 0 <= i < n ==> recs[i].lsn <= AppliedBy(base, recs[..n]))
    ensures SavedBy(w, base, recs[..n], saves) == Saved(w, base, AppliedBy(base, recs[..n]), saves)
  {
    if n > 0 {
      SavedSteps(recs, log, base, w, saves, n - 1);
      assert recs[..n][..n - 1] == recs[..n - 1];
      var at := AppliedBy(base, recs[..n - 1]);
      if recs[n - 1].lsn > at {
        NextToApply(recs, log, base, n - 1, at);
      }
    }
  }

  lemma {:induction false} SavedInOrder(segs: seq<Segment>, log: seq<WalRecord>, ckpt: nat, base: nat, w: nat,
                                        saves: set<nat>)
    requires LogOk(log) && SegmentsOk(segs, log, ckpt) && ckpt <= base <= |log|
    ensures SavedBy(w, base, AllRecords(segs), saves) == Saved(w, base, |log|, saves)
  {
    hide AllRecords, ReplayAll, Saved, SavedBy, AppliedBy, PoolOf, LogOk;
    var recs := AllRecords(segs);
    SavedSteps(recs, log, base, w, saves, |recs|);
    assert recs[..|recs|] == recs;
    ReplayFromBase(segs, log, ckpt, base);
    ReplayApplies(Replayed(map[], base), recs);
  }

  lemma {:induction false} SavedFrom(was: nat, from: nat, upto: nat, saves: set<nat>)
    requires was <= from <= upto
    ensures Saved(was, from, upto, saves) <= upto
    ensures Larger(Saved(was, from, upto, saves), from) == upto <==> from == upto || upto in saves
  {
    hide Saved;
    SavedBound(was, from, upto, saves);
    if from == upto {
      NothingSaved(was, from, saves);
    }
  }

  lemma {:induction false} NothingSaved(was: nat, n: nat, saves: set<nat>)
    ensures Saved(was, n, n, saves) == was
  {
  }

  // ---- A page that is lost ----

  lemma OneRecord(log: seq<WalRecord>, batch: WalBatch, p: PageId, image: Image)
    requires log == [] + Numbered([(p, image)], 1) && batch == WalBatch(1, 2, Numbered([(p, image)], 1))
    ensures BatchOk(batch) && FromLog(batch.recs, log) && |log| == 1
  {
  }

  lemma {:induction false} LastOfOne(log: seq<WalRecord>, p: PageId, image: Image)
    requires log == [WalRecord(1, p, image)]
    ensures LastLsn(log, 1, p) == 1 && PageAt(log, 1, p) == Seen(image)
  {
  }

  lemma SameFile(file: File, pages: set<PageId>)
    ensures Torn(file, file, pages)
  {
  }

  // A store with one logged record, applied and persisted as applied.
  method OneApplied(p: PageId, image: Image) returns (s: NodeStore)
    requires |image| == PAGE_SIZE
    ensures fresh(s) && s.Valid() && s.log == [WalRecord(1, p, image)] && s.file == map[]
    ensures s.lastApplied == 1 && s.walState == 1 && s.checkpointLsn == 0
  {
    hide SegmentsOk, PagesOk, LogOk;
    s := new NodeStore();
    s.LogBatch([(p, image)], false);
    var batch := s.segments[0][0];
    OneRecord(s.log, batch, p, image);
    s.ApplyBatch(batch, {1});
    assert Saved(0, 0, 1, {1}) == 1;
  }

  /**
   * A logged and applied page that reads as absent after a crash: its LSN was persisted as applied
   * before its image was in the page file.
   */
  method LosesAPage(p: PageId, image: Image) returns (before: Option<Image>, after: Option<Image>)
    requires |image| == PAGE_SIZE && !IsZero(image)
    ensures before == Some(image) && after == None
  {
    hide SegmentsOk, PagesOk, LogOk, Torn, ReplayAll, AllRecords, Saved, DirtyAfter, LastLsn, PageAt, IsZero;
    var s := OneApplied(p, image);
    LastOfOne(s.log, p, image);
    before := s.Get(p);
    SameFile(s.file, DirtyPages(s.pool));
    ReplayFromBase(s.segments, s.log, s.checkpointLsn, 1);
    assert PoolOf(s.log, 1, 1) == map[];
    s.CrashAndOpen(s.file, {});
    assert p !in s.pool && p !in s.file;
    after := s.Get(p);
  }
}
