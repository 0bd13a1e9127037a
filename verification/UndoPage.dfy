/**
 * The byte layout of an undo page (src/undo_pg.rs): a 16-byte header, on a segment's first page
 * a 72-byte segment header, a directory of 2-byte record offsets growing up, and fixed-size
 * records growing down from the end of the page.
 */
module UndoPage {
  import opened Bytes
  import opened Params
  import opened UndoModel

  const UNDO_PAGE_TYPE: Byte := 1
  const UNDO_SEGMENT_PAGE_TYPE: Byte := 2
  const BASE_HDR_SIZE := 16
  const SEG_HDR_SIZE := 72
  const UNDO_RECORD_SIZE := 56 + VALUE_SIZE
  const U32_LIMIT := 0x1_0000_0000

  datatype Error = InvalidPageSize | NotAnUndoPage | NotASegmentPage | PageFull | SlotOutOfRange

  datatype UndoRecord = UndoRecord(dataPage: PageId, dataSlot: nat, prev: Option<UndoPtr>, txnId: nat,
                                   txnNext: Option<UndoPtr>, oldCommitLsn: nat, oldFlags: nat, oldValue: Value)

  datatype SegmentHeader = SegmentHeader(txnId: nat, beginLsn: nat, commitLsn: nat, state: Byte,
                                         first: PageId, last: PageId, count: nat, prev: PageId, next: PageId)

  datatype PageImage = PageImage(head: Option<SegmentHeader>, next: PageId, recs: seq<UndoRecord>)

  // ---- Records ----

  // A pointer to page 0 reads back as no pointer.
  predicate PtrFits(p: Option<UndoPtr>) {
    p.Some? ==> 0 < p.value.page < U64_LIMIT && p.value.slot < 0x1_0000
  }

  predicate RecordFits(r: UndoRecord) {
    && r.dataPage < U64_LIMIT && r.dataSlot < 0x1_0000
    && PtrFits(r.prev) && r.txnId < U64_LIMIT && PtrFits(r.txnNext)
    && r.oldCommitLsn < U64_LIMIT && r.oldFlags < 0x1_0000 && |r.oldValue| == VALUE_SIZE
  }

  function PtrPage(p: Option<UndoPtr>): PageId { if p.Some? then p.value.page else 0 }

  function PtrSlot(p: Option<UndoPtr>): nat { if p.Some? then p.value.slot else 0 }

  function PtrOf(page: PageId, slot: nat): Option<UndoPtr> {
    if page == 0 then None else Some(UndoPtr(page, slot))
  }

  function PtrBytes(p: Option<UndoPtr>): (s: seq<Byte>)
    ensures |s| == 12
  {
    ToLe(PtrPage(p), 8) + ToLe(PtrSlot(p), 2) + ToLe(0, 2)
  }

  function RecordBytes(r: UndoRecord): (s: seq<Byte>)
    requires |r.oldValue| == VALUE_SIZE
    ensures |s| == UNDO_RECORD_SIZE
  {
    ToLe(r.dataPage, 8) + ToLe(r.dataSlot, 2) + ToLe(0, 2) + PtrBytes(r.prev) + ToLe(r.txnId, 8)
    + PtrBytes(r.txnNext) + ToLe(r.oldCommitLsn, 8) + ToLe(r.oldFlags, 2) + ToLe(0, 2) + r.oldValue
  }

  function ParsePtr(w: seq<Byte>): Option<UndoPtr>
    requires |w| == 12
  {
    PtrOf(ReadLe(w, 0, 8), ReadLe(w, 8, 2))
  }

  function ParseRecord(w: seq<Byte>): UndoRecord
    requires |w| == UNDO_RECORD_SIZE
  {
    UndoRecord(ReadLe(w, 0, 8), ReadLe(w, 8, 2), ParsePtr(w[12..24]), ReadLe(w, 24, 8),
               ParsePtr(w[32..44]), ReadLe(w, 44, 8), ReadLe(w, 52, 2), w[56..])
  }

  lemma PtrRoundTrip(p: Option<UndoPtr>)
    requires PtrFits(p)
    ensures ParsePtr(PtrBytes(p)) == p
  {
    Pow256Values();
    var w := PtrBytes(p);
    assert w[0..8] == ToLe(PtrPage(p), 8) && w[8..10] == ToLe(PtrSlot(p), 2);
    LeRoundTrip(PtrPage(p), 8);
    LeRoundTrip(PtrSlot(p), 2);
  }

  lemma RecordRoundTrip(r: UndoRecord)
    requires RecordFits(r)
    ensures ParseRecord(RecordBytes(r)) == r
  {
    hide ToLe, PtrBytes;
    var w := RecordBytes(r);
    var p8 := ToLe(r.dataPage, 8);
    var p10 := p8 + ToLe(r.dataSlot, 2);
    var p12 := p10 + ToLe(0, 2);
    var p24 := p12 + PtrBytes(r.prev);
    var p32 := p24 + ToLe(r.txnId, 8);
    var p44 := p32 + PtrBytes(r.txnNext);
    var p52 := p44 + ToLe(r.oldCommitLsn, 8);
    var p54 := p52 + ToLe(r.oldFlags, 2);
    var p56 := p54 + ToLe(0, 2);
    assert w == p56 + r.oldValue && w[..|w|] == w;
    SplitPrefix(w, p56, r.oldValue);
    SplitPrefix(w, p54, ToLe(0, 2));
    SplitPrefix(w, p52, ToLe(r.oldFlags, 2));
    SplitPrefix(w, p44, ToLe(r.oldCommitLsn, 8));
    SplitPrefix(w, p32, PtrBytes(r.txnNext));
    SplitPrefix(w, p24, ToLe(r.txnId, 8));
    SplitPrefix(w, p12, PtrBytes(r.prev));
    SplitPrefix(w, p10, ToLe(0, 2));
    SplitPrefix(w, p8, ToLe(r.dataSlot, 2));
    RecordFields(w, r);
  }

  lemma RecordFields(w: seq<Byte>, r: UndoRecord)
    requires |w| == UNDO_RECORD_SIZE && RecordFits(r)
    requires w[..8] == ToLe(r.dataPage, 8) && w[8..10] == ToLe(r.dataSlot, 2)
    requires w[12..24] == PtrBytes(r.prev) && w[24..32] == ToLe(r.txnId, 8)
    requires w[32..44] == PtrBytes(r.txnNext) && w[44..52] == ToLe(r.oldCommitLsn, 8)
    requires w[52..54] == ToLe(r.oldFlags, 2) && w[56..56 + VALUE_SIZE] == r.oldValue
    ensures ParseRecord(w) == r
  {
    Pow256Values();
    LeRoundTrip(r.dataPage, 8);
    LeRoundTrip(r.dataSlot, 2);
    LeRoundTrip(r.txnId, 8);
    LeRoundTrip(r.oldCommitLsn, 8);
    LeRoundTrip(r.oldFlags, 2);
    PtrRoundTrip(r.prev);
    PtrRoundTrip(r.txnNext);
    hide ToLe, FromLe, PtrBytes, ParsePtr;
    assert w[0..8] == w[..8] && w[56..] == w[56..56 + VALUE_SIZE];
  }

  // ---- Segment headers ----

  predicate HeaderFits(h: SegmentHeader) {
    && h.txnId < U64_LIMIT && h.beginLsn < U64_LIMIT && h.commitLsn < U64_LIMIT
    && h.first < U64_LIMIT && h.last < U64_LIMIT && h.count < U32_LIMIT
    && h.prev < U64_LIMIT && h.next < U64_LIMIT
  }

  function HeaderBytes(h: SegmentHeader): (s: seq<Byte>)
    ensures |s| == SEG_HDR_SIZE
  {
    ToLe(h.txnId, 8) + ToLe(h.beginLsn, 8) + ToLe(h.commitLsn, 8) + [h.state] + Zeros(7)
    + ToLe(h.first, 8) + ToLe(h.last, 8) + ToLe(h.count, 4) + Zeros(4) + ToLe(h.prev, 8) + ToLe(h.next, 8)
  }

  function ParseHeader(w: seq<Byte>): SegmentHeader
    requires |w| == SEG_HDR_SIZE
  {
    SegmentHeader(ReadLe(w, 0, 8), ReadLe(w, 8, 8), ReadLe(w, 16, 8), w[24], ReadLe(w, 32, 8),
                  ReadLe(w, 40, 8), ReadLe(w, 48, 4), ReadLe(w, 56, 8), ReadLe(w, 64, 8))
  }

  lemma HeaderRoundTrip(h: SegmentHeader)
    requires HeaderFits(h)
    ensures ParseHeader(HeaderBytes(h)) == h
  {
    hide ToLe, Zeros;
    var w := HeaderBytes(h);
    var p8 := ToLe(h.txnId, 8);
    var p16 := p8 + ToLe(h.beginLsn, 8);
    var p24 := p16 + ToLe(h.commitLsn, 8);
    var p25 := p24 + [h.state];
    var p32 := p25 + Zeros(7);
    var p40 := p32 + ToLe(h.first, 8);
    var p48 := p40 + ToLe(h.last, 8);
    var p52 := p48 + ToLe(h.count, 4);
    var p56 := p52 + Zeros(4);
    var p64 := p56 + ToLe(h.prev, 8);
    assert w == p64 + ToLe(h.next, 8) && w[..|w|] == w;
    SplitPrefix(w, p64, ToLe(h.next, 8));
    SplitPrefix(w, p56, ToLe(h.prev, 8));
    SplitPrefix(w, p52, Zeros(4));
    SplitPrefix(w, p48, ToLe(h.count, 4));
    SplitPrefix(w, p40, ToLe(h.last, 8));
    SplitPrefix(w, p32, ToLe(h.first, 8));
    SplitPrefix(w, p25, Zeros(7));
    SplitPrefix(w, p24, [h.state]);
    SplitPrefix(w, p16, ToLe(h.commitLsn, 8));
    SplitPrefix(w, p8, ToLe(h.beginLsn, 8));
    HeaderFields(w, h);
  }

  lemma HeaderFields(w: seq<Byte>, h: SegmentHeader)
    requires |w| == SEG_HDR_SIZE && HeaderFits(h)
    requires w[..8] == ToLe(h.txnId, 8) && w[8..16] == ToLe(h.beginLsn, 8)
    requires w[16..24] == ToLe(h.commitLsn, 8) && w[24..25] == [h.state]
    requires w[32..40] == ToLe(h.first, 8) && w[40..48] == ToLe(h.last, 8)
    requires w[48..52] == ToLe(h.count, 4)
    requires w[56..64] == ToLe(h.prev, 8) && w[64..72] == ToLe(h.next, 8)
    ensures ParseHeader(w) == h
  {
    Pow256Values();
    LeRoundTrip(h.txnId, 8);
    LeRoundTrip(h.beginLsn, 8);
    LeRoundTrip(h.commitLsn, 8);
    LeRoundTrip(h.first, 8);
    LeRoundTrip(h.last, 8);
    LeRoundTrip(h.count, 4);
    LeRoundTrip(h.prev, 8);
    LeRoundTrip(h.next, 8);
    hide ToLe, FromLe;
    assert w[0..8] == w[..8] && w[24] == w[24..25][0];
  }

  // ---- Pages ----

  function HdrSize(img: PageImage): nat {
    if img.head.Some? then BASE_HDR_SIZE + SEG_HDR_SIZE else BASE_HDR_SIZE
  }

  function PageType(img: PageImage): Byte {
    if img.head.Some? then UNDO_SEGMENT_PAGE_TYPE else UNDO_PAGE_TYPE
  }

  function RecOff(i: int): int { PAGE_SIZE - UNDO_RECORD_SIZE * (i + 1) }

  ghost predicate SlotOk(s: seq<Byte>, hdr: nat, i: nat, rec: UndoRecord)
    requires |s| == PAGE_SIZE
  {
    && i < RECORDS_PER_PAGE && hdr <= BASE_HDR_SIZE + SEG_HDR_SIZE
    && RecordFits(rec)
    && s[hdr + 2 * i..hdr + 2 * i + 2] == ToLe(RecOff(i), 2)
    && s[RecOff(i)..RecOff(i) + UNDO_RECORD_SIZE] == RecordBytes(rec)
  }

  /** The bytes `s` of a page store the image `img`. */
  ghost predicate Stores(s: seq<Byte>, img: PageImage) {
    && |s| == PAGE_SIZE
    && |img.recs| <= RECORDS_PER_PAGE && img.next < U64_LIMIT
    && s[0] == PageType(img)
    && s[2..4] == ToLe(PAGE_SIZE - UNDO_RECORD_SIZE * |img.recs|, 2)
    && s[4..6] == ToLe(|img.recs|, 2)
    && s[8..16] == ToLe(img.next, 8)
    && (img.head.Some? ==> HeaderFits(img.head.value) && s[16..88] == HeaderBytes(img.head.value))
    && (forall i :: 0 <= i < |img.recs| ==> SlotOk(s, HdrSize(img), i, img.recs[i]))
  }

  /** A page takes a record exactly while it holds fewer than 15, under either header. */
  lemma RecordCapacity(img: PageImage)
    requires |img.recs| <= RECORDS_PER_PAGE
    ensures PAGE_SIZE - UNDO_RECORD_SIZE * |img.recs| < HdrSize(img) + (|img.recs| + 1) * 2 + UNDO_RECORD_SIZE
            <==> |img.recs| >= RECORDS_PER_PAGE
  {
  }

  lemma {:induction false} SmallLe(v: nat)
    requires v < 0x1_0000
    ensures FromLe(ToLe(v, 2)) == v
  {
    Pow256Values();
    LeRoundTrip(v, 2);
  }

  method NewUndoPage() returns (page: array<Byte>)
    ensures fresh(page) && Stores(page[..], PageImage(None, 0, []))
    ensures forall i :: BASE_HDR_SIZE <= i < PAGE_SIZE ==> page[i] == 0
  {
    page := new Byte[PAGE_SIZE](i => 0);
    page[0] := UNDO_PAGE_TYPE;
    ghost var blank := page[..];
    CopyInto(page, 2, ToLe(PAGE_SIZE, 2));
    CopyInto(page, 4, ToLe(0, 2));
    CopyInto(page, 8, ToLe(0, 8));
    assert page[..][16..] == blank[16..];
    forall i | BASE_HDR_SIZE <= i < PAGE_SIZE ensures page[i] == 0 {
      assert page[i] == page[..][16..][i - 16] == blank[16..][i - 16];
    }
  }

  /** A record stays readable when bytes outside its directory entry and its own bytes change. */
  lemma SlotElsewhere(s: seq<Byte>, off: nat, data: seq<Byte>, hdr: nat, i: nat, rec: UndoRecord)
    requires |s| == PAGE_SIZE && off + |data| <= PAGE_SIZE && SlotOk(s, hdr, i, rec)
    requires off + |data| <= hdr + 2 * i || hdr + 2 * i + 2 <= off
    requires off + |data| <= RecOff(i) || RecOff(i) + UNDO_RECORD_SIZE <= off
    ensures SlotOk(Splice(s, off, data), hdr, i, rec)
  {
    hide Splice, RecordFits, ToLe, RecordBytes;
    SpliceElsewhere(s, off, data, hdr + 2 * i, hdr + 2 * i + 2);
    SpliceElsewhere(s, off, data, RecOff(i), RecOff(i) + UNDO_RECORD_SIZE);
  }

  lemma HeaderStored(s: seq<Byte>, img: PageImage, h: SegmentHeader)
    requires Stores(s, img) && img.head.Some? && HeaderFits(h)
    ensures Stores(Splice(s, 16, HeaderBytes(h)), img.(head := Some(h)))
  {
    hide Splice, SlotOk, ToLe, HeaderBytes, HeaderFits;
    var w := HeaderBytes(h);
    SpliceElsewhere(s, 16, w, 0, 1);
    assert Splice(s, 16, w)[0] == Splice(s, 16, w)[0..1][0] && s[0] == s[0..1][0];
    SpliceElsewhere(s, 16, w, 2, 4);
    SpliceElsewhere(s, 16, w, 4, 6);
    SpliceElsewhere(s, 16, w, 8, 16);
    forall i | 0 <= i < |img.recs| ensures SlotOk(Splice(s, 16, w), HdrSize(img), i, img.recs[i]) {
      SlotElsewhere(s, 16, w, HdrSize(img), i, img.recs[i]);
    }
  }

  lemma {:induction false} NextStored(s: seq<Byte>, img: PageImage, next: PageId)
    requires Stores(s, img) && next < U64_LIMIT
    ensures Stores(Splice(s, 8, ToLe(next, 8)), img.(next := next))
  {
    hide Splice, SlotOk, ToLe, HeaderBytes, HeaderFits;
    var w := ToLe(next, 8);
    SpliceElsewhere(s, 8, w, 0, 1);
    assert Splice(s, 8, w)[0] == Splice(s, 8, w)[0..1][0] && s[0] == s[0..1][0];
    SpliceElsewhere(s, 8, w, 2, 4);
    SpliceElsewhere(s, 8, w, 4, 6);
    SpliceElsewhere(s, 8, w, 16, 88);
    forall i | 0 <= i < |img.recs| ensures SlotOk(Splice(s, 8, w), HdrSize(img), i, img.recs[i]) {
      SlotElsewhere(s, 8, w, HdrSize(img), i, img.recs[i]);
    }
  }

  /** The page with the record bytes `w` at `off`, their directory entry at `d`, and the free end and count moved on. */
  ghost function AppendedAt(s: seq<Byte>, off: nat, w: seq<Byte>, d: nat, n: nat): (t: seq<Byte>)
    requires 6 <= |s| && off + |w| <= |s| && d + 2 <= |s|
    ensures |t| == |s|
  {
    Splice(Splice(Splice(Splice(s, off, w), d, ToLe(off, 2)), 2, ToLe(off, 2)), 4, ToLe(n + 1, 2))
  }

  predicate Clear(lo: nat, hi: nat, off: nat, n: nat) { hi <= off || off + n <= lo }

  lemma AppendedElsewhere(s: seq<Byte>, off: nat, w: seq<Byte>, d: nat, n: nat, lo: nat, hi: nat)
    requires 6 <= |s| && off + |w| <= |s| && d + 2 <= |s| && lo <= hi <= |s|
    requires Clear(lo, hi, off, |w|) && Clear(lo, hi, d, 2) && Clear(lo, hi, 2, 4)
    ensures AppendedAt(s, off, w, d, n)[lo..hi] == s[lo..hi]
  {
    hide Splice, ToLe;
    LastThree(Splice(s, off, w), d, ToLe(off, 2), 2, ToLe(off, 2), 4, ToLe(n + 1, 2), lo, hi);
    SpliceElsewhere(s, off, w, lo, hi);
  }

  lemma {:induction false} AppendedHere(s: seq<Byte>, off: nat, w: seq<Byte>, d: nat, n: nat)
    requires 6 <= d && d + 2 <= off && off + |w| <= |s|
    ensures var t := AppendedAt(s, off, w, d, n);
            && t[2..4] == ToLe(off, 2) && t[4..6] == ToLe(n + 1, 2)
            && t[d..d + 2] == ToLe(off, 2) && t[off..off + |w|] == w
  {
    hide Splice, ToLe;
    var t1 := Splice(s, off, w);
    var t2 := Splice(t1, d, ToLe(off, 2));
    var t3 := Splice(t2, 2, ToLe(off, 2));
    LastThree(t1, d, ToLe(off, 2), 2, ToLe(off, 2), 4, ToLe(n + 1, 2), off, off + |w|);
    assert Splice(t3, 4, ToLe(n + 1, 2))[d..d + 2] == ToLe(off, 2) by {
      SpliceElsewhere(t2, 2, ToLe(off, 2), d, d + 2);
      SpliceElsewhere(t3, 4, ToLe(n + 1, 2), d, d + 2);
    }
    assert Splice(t3, 4, ToLe(n + 1, 2))[2..4] == ToLe(off, 2) by {
      SpliceElsewhere(t3, 4, ToLe(n + 1, 2), 2, 4);
    }
  }

  lemma LastThree(s: seq<Byte>, o2: nat, w2: seq<Byte>, o3: nat, w3: seq<Byte>, o4: nat, w4: seq<Byte>,
                  lo: nat, hi: nat)
    requires lo <= hi <= |s|
    requires o2 + |w2| <= |s| && o3 + |w3| <= |s| && o4 + |w4| <= |s|
    requires Clear(lo, hi, o2, |w2|) && Clear(lo, hi, o3, |w3|) && Clear(lo, hi, o4, |w4|)
    ensures Splice(Splice(Splice(s, o2, w2), o3, w3), o4, w4)[lo..hi] == s[lo..hi]
  {
    hide Splice;
    var t2 := Splice(s, o2, w2);
    var t3 := Splice(t2, o3, w3);
    assert Splice(t3, o4, w4)[lo..hi] == t3[lo..hi] by { SpliceElsewhere(t3, o4, w4, lo, hi); }
    assert t3[lo..hi] == t2[lo..hi] by { SpliceElsewhere(t2, o3, w3, lo, hi); }
    assert t2[lo..hi] == s[lo..hi] by { SpliceElsewhere(s, o2, w2, lo, hi); }
  }

  lemma RecordStored(s: seq<Byte>, img: PageImage, rec: UndoRecord)
    requires Stores(s, img) && |img.recs| < RECORDS_PER_PAGE && RecordFits(rec) && |rec.oldValue| == VALUE_SIZE
    ensures var n := |img.recs|;
            Stores(AppendedAt(s, RecOff(n), RecordBytes(rec), HdrSize(img) + 2 * n, n), img.(recs := img.recs + [rec]))
  {
    hide Splice, ToLe, RecordBytes, AppendedAt, HeaderBytes, HeaderFits, RecordFits;
    var (n, hdr, w) := (|img.recs|, HdrSize(img), RecordBytes(rec));
    var (off, d) := (RecOff(n), hdr + 2 * n);
    var t := AppendedAt(s, off, w, d, n);
    AppendedHere(s, off, w, d, n);
    AppendedElsewhere(s, off, w, d, n, 0, 1);
    assert t[0] == t[0..1][0] && s[0] == s[0..1][0];
    AppendedElsewhere(s, off, w, d, n, 8, 16);
    if img.head.Some? {
      AppendedElsewhere(s, off, w, d, n, 16, 88);
    }
    forall i | 0 <= i < n ensures SlotOk(t, hdr, i, img.recs[i]) {
      OldSlotKept(s, n, hdr, w, i, img.recs[i]);
    }
  }

  lemma OldSlotKept(s: seq<Byte>, n: nat, hdr: nat, w: seq<Byte>, i: nat, rec: UndoRecord)
    requires |s| == PAGE_SIZE && i < n < RECORDS_PER_PAGE && |w| == UNDO_RECORD_SIZE
    requires 6 <= hdr <= 88 && SlotOk(s, hdr, i, rec)
    ensures SlotOk(AppendedAt(s, RecOff(n), w, hdr + 2 * n, n), hdr, i, rec)
  {
    hide Splice, ToLe, RecordBytes, AppendedAt, RecordFits;
    AppendedElsewhere(s, RecOff(n), w, hdr + 2 * n, n, hdr + 2 * i, hdr + 2 * i + 2);
    AppendedElsewhere(s, RecOff(n), w, hdr + 2 * n, n, RecOff(i), RecOff(i) + UNDO_RECORD_SIZE);
  }

  lemma FitsSize(rec: UndoRecord)
    requires RecordFits(rec)
    ensures |rec.oldValue| == VALUE_SIZE
  {
  }

  // ---- Operations ----

  method WriteFields(page: array<Byte>, h: SegmentHeader)
    requires page.Length == PAGE_SIZE
    modifies page
    ensures page[..] == Splice(old(page[..]), 16, HeaderBytesOver(h, old(page[41..48]), old(page[68..72])))
  {
    hide Splice, ToLe;
    ghost var s := page[..];
    SpliceNothing(s, 16);
    Emit(page, 16, s, [], 0, ToLe(h.txnId, 8));
    ghost var d := [] + ToLe(h.txnId, 8);
    Emit(page, 16, s, d, 8, ToLe(h.beginLsn, 8));
    d := d + ToLe(h.beginLsn, 8);
    Emit(page, 16, s, d, 16, ToLe(h.commitLsn, 8));
    d := d + ToLe(h.commitLsn, 8);
    Emit(page, 16, s, d, 24, [h.state]);
    d := d + [h.state];
    SpliceSkip(s, 16, d, 7);
    d := d + s[41..48];
    Emit(page, 16, s, d, 32, ToLe(h.first, 8));
    d := d + ToLe(h.first, 8);
    Emit(page, 16, s, d, 40, ToLe(h.last, 8));
    d := d + ToLe(h.last, 8);
    Emit(page, 16, s, d, 48, ToLe(h.count, 4));
    d := d + ToLe(h.count, 4);
    SpliceSkip(s, 16, d, 4);
    d := d + s[68..72];
    Emit(page, 16, s, d, 56, ToLe(h.prev, 8));
    d := d + ToLe(h.prev, 8);
    Emit(page, 16, s, d, 64, ToLe(h.next, 8));
    d := d + ToLe(h.next, 8);
    assert [] + ToLe(h.txnId, 8) == ToLe(h.txnId, 8);
    assert d == HeaderBytesOver(h, s[41..48], s[68..72]);
  }

  ghost function HeaderBytesOver(h: SegmentHeader, gap1: seq<Byte>, gap2: seq<Byte>): (s: seq<Byte>)
    ensures |gap1| == 7 && |gap2| == 4 ==> |s| == SEG_HDR_SIZE
  {
    ToLe(h.txnId, 8) + ToLe(h.beginLsn, 8) + ToLe(h.commitLsn, 8) + [h.state] + gap1
    + ToLe(h.first, 8) + ToLe(h.last, 8) + ToLe(h.count, 4) + gap2 + ToLe(h.prev, 8) + ToLe(h.next, 8)
  }

  lemma HeaderGaps(s: seq<Byte>, h: SegmentHeader)
    requires |s| == PAGE_SIZE && s[16..88] == HeaderBytes(h)
    ensures s[41..48] == Zeros(7) && s[68..72] == Zeros(4)
  {
    hide ToLe, Zeros;
    var w := s[16..88];
    var p25 := ToLe(h.txnId, 8) + ToLe(h.beginLsn, 8) + ToLe(h.commitLsn, 8) + [h.state];
    var p52 := p25 + Zeros(7) + ToLe(h.first, 8) + ToLe(h.last, 8) + ToLe(h.count, 4);
    assert w == p52 + Zeros(4) + ToLe(h.prev, 8) + ToLe(h.next, 8);
    assert w[..56] == p52 + Zeros(4);
    SplitPrefix(w, p52, Zeros(4));
    assert w[..32] == p52[..32] == p25 + Zeros(7);
    SplitPrefix(w, p25, Zeros(7));
    SubSlice(s, 16, 88, 25, 32);
    SubSlice(s, 16, 88, 52, 56);
  }

  method NewSegmentPage(txnId: nat, pageId: PageId) returns (page: array<Byte>)
    requires txnId < U64_LIMIT && pageId < U64_LIMIT
    ensures fresh(page)
    ensures Stores(page[..], PageImage(Some(SegmentHeader(txnId, 0, 0, 0, pageId, pageId, 0, 0, 0)), 0, []))
  {
    hide HeaderBytes, ToLe, Splice;
    var h := SegmentHeader(txnId, 0, 0, 0, pageId, pageId, 0, 0, 0);
    page := NewUndoPage();
    ghost var s0 := page[..];
    page[0] := UNDO_SEGMENT_PAGE_TYPE;
    ghost var s := page[..];
    assert s[2..4] == s0[2..4] && s[4..6] == s0[4..6] && s[8..16] == s0[8..16];
    assert s[16..88] == Zeros(SEG_HDR_SIZE);
    ghost var blank := SegmentHeader(0, 0, 0, 0, 0, 0, 0, 0, 0);
    BlankHeader(blank);
    assert Stores(s, PageImage(Some(blank), 0, []));
    HeaderGaps(s, blank);
    WriteFields(page, h);
    HeaderBytesOverZeros(h);
    HeaderStored(s, PageImage(Some(blank), 0, []), h);
  }

  lemma BlankHeader(blank: SegmentHeader)
    requires blank == SegmentHeader(0, 0, 0, 0, 0, 0, 0, 0, 0)
    ensures HeaderFits(blank) && HeaderBytes(blank) == Zeros(SEG_HDR_SIZE)
  {
    hide ToLe;
    LeZero(8);
    LeZero(4);
  }

  lemma {:induction false} LeZero(n: nat)
    ensures ToLe(0, n) == Zeros(n)
  {
    if n > 0 {
      LeZero(n - 1);
    }
  }

  lemma HeaderBytesOverZeros(h: SegmentHeader)
    ensures HeaderBytesOver(h, Zeros(7), Zeros(4)) == HeaderBytes(h)
  {
  }

  method WriteSegmentHeader(page: array<Byte>, h: SegmentHeader, ghost img: PageImage) returns (e: Option<Error>)
    requires HeaderFits(h)
    requires page.Length == PAGE_SIZE && page[0] == UNDO_SEGMENT_PAGE_TYPE ==> Stores(page[..], img)
    modifies page
    ensures e == Some(InvalidPageSize) <==> page.Length != PAGE_SIZE
    ensures e == Some(NotASegmentPage) <==> page.Length == PAGE_SIZE && old(page[0]) != UNDO_SEGMENT_PAGE_TYPE
    ensures e == None <==> page.Length == PAGE_SIZE && old(page[0]) == UNDO_SEGMENT_PAGE_TYPE
    ensures e.Some? ==> page[..] == old(page[..])
    ensures e == None ==> Stores(page[..], img.(head := Some(h)))
  {
    hide HeaderBytes, ToLe, Splice, HeaderFits, SlotOk, HeaderBytesOver;
    if page.Length != PAGE_SIZE {
      return Some(InvalidPageSize);
    }
    if page[0] != UNDO_SEGMENT_PAGE_TYPE {
      return Some(NotASegmentPage);
    }
    HeaderGaps(page[..], img.head.value);
    HeaderBytesOverZeros(h);
    HeaderStored(page[..], img, h);
    WriteFields(page, h);
    e := None;
  }

  method ReadSegmentHeader(page: array<Byte>, ghost img: PageImage) returns (r: Result<SegmentHeader, Error>)
    requires page.Length == PAGE_SIZE && page[0] == UNDO_SEGMENT_PAGE_TYPE ==> Stores(page[..], img)
    ensures r.Ok? <==> page.Length == PAGE_SIZE && page[0] == UNDO_SEGMENT_PAGE_TYPE
    ensures r.Ok? ==> img.head == Some(r.value)
    ensures r.Err? ==> r.error == if page.Length != PAGE_SIZE then InvalidPageSize else NotASegmentPage
  {
    hide HeaderBytes, ToLe, ParseHeader, SlotOk;
    if page.Length != PAGE_SIZE {
      return Err(InvalidPageSize);
    }
    if page[0] != UNDO_SEGMENT_PAGE_TYPE {
      return Err(NotASegmentPage);
    }
    assert page[..][16..88] == page[16..88];
    HeaderRoundTrip(img.head.value);
    r := Ok(ParseHeader(page[16..88]));
  }

  method SetPageNext(page: array<Byte>, next: PageId, ghost img: PageImage) returns (e: Option<Error>)
    requires next < U64_LIMIT
    requires page.Length == PAGE_SIZE && (page[0] == UNDO_PAGE_TYPE || page[0] == UNDO_SEGMENT_PAGE_TYPE) ==>
               Stores(page[..], img)
    modifies page
    ensures e == None <==>
              page.Length == PAGE_SIZE && (old(page[0]) == UNDO_PAGE_TYPE || old(page[0]) == UNDO_SEGMENT_PAGE_TYPE)
    ensures e.Some? ==> e.value == if page.Length != PAGE_SIZE then InvalidPageSize else NotAnUndoPage
    ensures e.Some? ==> page[..] == old(page[..])
    ensures e == None ==> Stores(page[..], img.(next := next))
  {
    hide HeaderBytes, ToLe, Splice, HeaderFits, SlotOk;
    if page.Length != PAGE_SIZE {
      return Some(InvalidPageSize);
    }
    if page[0] != UNDO_PAGE_TYPE && page[0] != UNDO_SEGMENT_PAGE_TYPE {
      return Some(NotAnUndoPage);
    }
    NextStored(page[..], img, next);
    CopyInto(page, 8, ToLe(next, 8));
    e := None;
  }

  method PageNext(page: array<Byte>, ghost img: PageImage) returns (r: Result<PageId, Error>)
    requires page.Length == PAGE_SIZE && (page[0] == UNDO_PAGE_TYPE || page[0] == UNDO_SEGMENT_PAGE_TYPE) ==>
               Stores(page[..], img)
    ensures r.Ok? <==>
              page.Length == PAGE_SIZE && (page[0] == UNDO_PAGE_TYPE || page[0] == UNDO_SEGMENT_PAGE_TYPE)
    ensures r.Ok? ==> r.value == img.next
    ensures r.Err? ==> r.error == if page.Length != PAGE_SIZE then InvalidPageSize else NotAnUndoPage
  {
    hide HeaderBytes, ToLe, SlotOk;
    if page.Length != PAGE_SIZE {
      return Err(InvalidPageSize);
    }
    if page[0] != UNDO_PAGE_TYPE && page[0] != UNDO_SEGMENT_PAGE_TYPE {
      return Err(NotAnUndoPage);
    }
    Pow256Values();
    LeRoundTrip(img.next, 8);
    r := Ok(ReadLe(page[..], 8, 8));
  }

  method WriteRecord(page: array<Byte>, off: nat, rec: UndoRecord)
    requires off + UNDO_RECORD_SIZE <= page.Length && |rec.oldValue| == VALUE_SIZE
    modifies page
    ensures page[..] == Splice(old(page[..]), off, RecordBytes(rec))
  {
    hide Splice, ToLe;
    ghost var s := page[..];
    SpliceNothing(s, off);
    Emit(page, off, s, [], 0, ToLe(rec.dataPage, 8));
    ghost var d := [] + ToLe(rec.dataPage, 8);
    Emit(page, off, s, d, 8, ToLe(rec.dataSlot, 2));
    d := d + ToLe(rec.dataSlot, 2);
    Emit(page, off, s, d, 10, ToLe(0, 2));
    d := d + ToLe(0, 2);
    d := WritePtr(page, off, s, d, 12, rec.prev);
    Emit(page, off, s, d, 24, ToLe(rec.txnId, 8));
    d := d + ToLe(rec.txnId, 8);
    d := WritePtr(page, off, s, d, 32, rec.txnNext);
    Emit(page, off, s, d, 44, ToLe(rec.oldCommitLsn, 8));
    d := d + ToLe(rec.oldCommitLsn, 8);
    Emit(page, off, s, d, 52, ToLe(rec.oldFlags, 2));
    d := d + ToLe(rec.oldFlags, 2);
    Emit(page, off, s, d, 54, ToLe(0, 2));
    d := d + ToLe(0, 2);
    Emit(page, off, s, d, 56, rec.oldValue);
    d := d + rec.oldValue;
    assert [] + ToLe(rec.dataPage, 8) == ToLe(rec.dataPage, 8);
    assert d == RecordBytes(rec);
  }

  method WritePtr(page: array<Byte>, off: nat, ghost s: seq<Byte>, ghost done: seq<Byte>, pos: nat, p: Option<UndoPtr>)
    returns (ghost d: seq<Byte>)
    requires |s| == page.Length && pos == |done| && off + pos + 12 <= page.Length
    requires page[..] == Splice(s, off, done)
    modifies page
    ensures d == done + PtrBytes(p) && page[..] == Splice(s, off, d)
  {
    hide Splice, ToLe;
    Emit(page, off, s, done, pos, ToLe(PtrPage(p), 8));
    d := done + ToLe(PtrPage(p), 8);
    Emit(page, off, s, d, pos + 8, ToLe(PtrSlot(p), 2));
    d := d + ToLe(PtrSlot(p), 2);
    Emit(page, off, s, d, pos + 10, ToLe(0, 2));
    d := d + ToLe(0, 2);
    assert d == done + PtrBytes(p);
  }

  method PlaceRecord(page: array<Byte>, off: nat, d: nat, n: nat, rec: UndoRecord)
    requires 6 <= page.Length && off + UNDO_RECORD_SIZE <= page.Length && d + 2 <= page.Length
    requires |rec.oldValue| == VALUE_SIZE
    modifies page
    ensures page[..] == AppendedAt(old(page[..]), off, RecordBytes(rec), d, n)
  {
    hide Splice, ToLe, RecordBytes;
    WriteRecord(page, off, rec);
    CopyInto(page, d, ToLe(off, 2));
    CopyInto(page, 2, ToLe(off, 2));
    CopyInto(page, 4, ToLe(n + 1, 2));
  }

  /** Appends a record if it fits, which it does exactly while the page holds fewer than 15. */
  method AppendRecord(page: array<Byte>, rec: UndoRecord, ghost img: PageImage) returns (r: Result<nat, Error>)
    requires RecordFits(rec)
    requires page.Length == PAGE_SIZE && (page[0] == UNDO_PAGE_TYPE || page[0] == UNDO_SEGMENT_PAGE_TYPE) ==>
               Stores(page[..], img)
    modifies page
    ensures r.Err? ==> page[..] == old(page[..])
    ensures page.Length != PAGE_SIZE ==> r == Err(InvalidPageSize)
    ensures page.Length == PAGE_SIZE && old(page[0]) != UNDO_PAGE_TYPE && old(page[0]) != UNDO_SEGMENT_PAGE_TYPE ==>
              r == Err(NotAnUndoPage)
    ensures page.Length == PAGE_SIZE && (old(page[0]) == UNDO_PAGE_TYPE || old(page[0]) == UNDO_SEGMENT_PAGE_TYPE) ==>
              if |img.recs| < RECORDS_PER_PAGE
              then r == Ok(|img.recs|) && Stores(page[..], img.(recs := img.recs + [rec]))
              else r == Err(PageFull)
  {
    hide Splice, ToLe, RecordBytes, SlotOk, HeaderBytes, HeaderFits, FromLe, AppendedAt;
    if page.Length != PAGE_SIZE {
      return Err(InvalidPageSize);
    }
    if page[0] != UNDO_PAGE_TYPE && page[0] != UNDO_SEGMENT_PAGE_TYPE {
      return Err(NotAnUndoPage);
    }
    ghost var s := page[..];
    var hdr := if page[0] == UNDO_PAGE_TYPE then BASE_HDR_SIZE else BASE_HDR_SIZE + SEG_HDR_SIZE;
    var freeEnd, count := ReadLe(page[..], 2, 2), ReadLe(page[..], 4, 2);
    SmallLe(PAGE_SIZE - UNDO_RECORD_SIZE * |img.recs|);
    SmallLe(|img.recs|);
    RecordCapacity(img);
    if freeEnd < hdr + (count + 1) * 2 + UNDO_RECORD_SIZE {
      return Err(PageFull);
    }
    FitsSize(rec);
    RecordStored(s, img, rec);
    var off := freeEnd - UNDO_RECORD_SIZE;
    PlaceRecord(page, off, hdr + count * 2, count, rec);
    r := Ok(count);
  }

  /** Reads back exactly the record appended under a slot, and nothing past the last one. */
  method ReadRecord(page: array<Byte>, slot: nat, ghost img: PageImage) returns (r: Result<UndoRecord, Error>)
    requires page.Length == PAGE_SIZE && (page[0] == UNDO_PAGE_TYPE || page[0] == UNDO_SEGMENT_PAGE_TYPE) ==>
               Stores(page[..], img)
    ensures page.Length != PAGE_SIZE ==> r == Err(InvalidPageSize)
    ensures page.Length == PAGE_SIZE && page[0] != UNDO_PAGE_TYPE && page[0] != UNDO_SEGMENT_PAGE_TYPE ==>
              r == Err(NotAnUndoPage)
    ensures page.Length == PAGE_SIZE && (page[0] == UNDO_PAGE_TYPE || page[0] == UNDO_SEGMENT_PAGE_TYPE) ==>
              r == if slot < |img.recs| then Ok(img.recs[slot]) else Err(SlotOutOfRange)
  {
    hide ToLe, RecordBytes, HeaderBytes, HeaderFits, FromLe, ParseRecord, RecordFits;
    if page.Length != PAGE_SIZE {
      return Err(InvalidPageSize);
    }
    if page[0] != UNDO_PAGE_TYPE && page[0] != UNDO_SEGMENT_PAGE_TYPE {
      return Err(NotAnUndoPage);
    }
    var hdr := if page[0] == UNDO_PAGE_TYPE then BASE_HDR_SIZE else BASE_HDR_SIZE + SEG_HDR_SIZE;
    SmallLe(|img.recs|);
    if slot >= ReadLe(page[..], 4, 2) {
      return Err(SlotOutOfRange);
    }
    assert SlotOk(page[..], hdr, slot, img.recs[slot]);
    SmallLe(RecOff(slot));
    var off := ReadLe(page[..], hdr + slot * 2, 2);
    RecordRoundTrip(img.recs[slot]);
    r := Ok(ParseRecord(page[..][off..off + UNDO_RECORD_SIZE]));
  }

  // ---- The bytes and the abstract page ----

  /** The bytes of a page determine what it stores. */
  lemma StoresUnique(s: seq<Byte>, a: PageImage, b: PageImage)
    requires Stores(s, a) && Stores(s, b)
    ensures a == b
  {
    hide ToLe, FromLe, RecordBytes, HeaderBytes, ParseRecord, ParseHeader, RecordFits, HeaderFits;
    Pow256Values();
    SmallLe(|a.recs|);
    SmallLe(|b.recs|);
    LeRoundTrip(a.next, 8);
    LeRoundTrip(b.next, 8);
    if a.head.Some? {
      HeaderRoundTrip(a.head.value);
      HeaderRoundTrip(b.head.value);
    }
    forall i | 0 <= i < |a.recs| ensures a.recs[i] == b.recs[i] {
      assert SlotOk(s, HdrSize(a), i, a.recs[i]) && SlotOk(s, HdrSize(b), i, b.recs[i]);
      RecordRoundTrip(a.recs[i]);
      RecordRoundTrip(b.recs[i]);
    }
  }

  function Flags(tombstone: bool, intent: bool): nat {
    (if tombstone then 1 else 0) + (if intent then 2 else 0)
  }

  function StateByte(state: SegState): Byte {
    match state
    case InProgress => 0
    case Committed => 1
    case Aborted => 2
    case Purged => 3
  }

  function RecordOf(rec: Rec): UndoRecord {
    UndoRecord(0, 0, rec.prev, rec.txnId, rec.txnNext, rec.oldCommitLsn,
               Flags(rec.oldTombstone, rec.oldIntent), rec.oldValue)
  }

  function HeaderOf(h: SegHeader): SegmentHeader {
    SegmentHeader(h.txnId, h.beginLsn, h.commitLsn, StateByte(h.state), h.first, h.last, h.count, h.prev, h.next)
  }

  /** The stored form of an undo page as the engine sees it. */
  function ImageOf(img: UndoImage): PageImage {
    PageImage(if img.head.Some? then Some(HeaderOf(img.head.value)) else None, img.next,
              seq(|img.recs|, i requires 0 <= i < |img.recs| => RecordOf(img.recs[i])))
  }

  /** Two abstract undo pages with the same stored bytes are the same page. */
  lemma BytesDeterminePage(s: seq<Byte>, a: UndoImage, b: UndoImage)
    requires Stores(s, ImageOf(a)) && Stores(s, ImageOf(b))
    ensures a == b
  {
    hide Stores;
    StoresUnique(s, ImageOf(a), ImageOf(b));
    assert |ImageOf(a).recs| == |a.recs| && |ImageOf(b).recs| == |b.recs|;
    forall i | 0 <= i < |a.recs| ensures a.recs[i] == b.recs[i] {
      assert ImageOf(a).recs[i] == RecordOf(a.recs[i]);
      assert ImageOf(b).recs[i] == RecordOf(b.recs[i]);
    }
  }

  /** Appending a record to the abstract page is appending it to the stored one. */
  lemma AppendAgrees(img: UndoImage, rec: Rec)
    ensures ImageOf(img.(recs := img.recs + [rec])) ==
            ImageOf(img).(recs := ImageOf(img).recs + [RecordOf(rec)])
  {
    assert ImageOf(img.(recs := img.recs + [rec])).recs == ImageOf(img).recs + [RecordOf(rec)];
  }
}
