/** The meta page (src/meta_page.rs): allocation counters, the undo free list and the ends of the undo history. */
module MetaPage {
  import opened Bytes
  import opened Params
  import UndoModel

  type PageId = nat

  const MAGIC: seq<Byte> := [0x53, 0x4B, 0x56, 0x4D, 0x45, 0x54, 0x41, 0]
  const VERSION_V3 := 3
  const UNDO_FREE_CAP := UndoModel.UNDO_FREE_CAP
  const OFF_FREE_IDS := 48
  const OFF_HISTORY_HEAD := OFF_FREE_IDS + UNDO_FREE_CAP * 8
  const OFF_HISTORY_TAIL := OFF_HISTORY_HEAD + 8

  datatype MetaPage = MetaPage(root: PageId, nextBptree: PageId, nextData: PageId, nextUndo: PageId,
                               free: seq<PageId>, histHead: PageId, histTail: PageId)

  datatype Error = InvalidPageSize | InvalidMagic | UnsupportedVersion

  predicate Fits(m: MetaPage) {
    && m.root < U64_LIMIT && m.nextBptree < U64_LIMIT && m.nextData < U64_LIMIT && m.nextUndo < U64_LIMIT
    && m.histHead < U64_LIMIT && m.histTail < U64_LIMIT
    && (forall i :: 0 <= i < |m.free| ==> m.free[i] < U64_LIMIT)
  }

  // What encoding keeps of the free list.
  function Capped(free: seq<PageId>): (s: seq<PageId>)
    ensures |s| <= UNDO_FREE_CAP
  {
    if |free| <= UNDO_FREE_CAP then free else free[..UNDO_FREE_CAP]
  }

  function NonZero(free: seq<PageId>): seq<PageId> {
    if free == [] then []
    else
      var rest := NonZero(free[..|free| - 1]);
      if free[|free| - 1] == 0 then rest else rest + [free[|free| - 1]]
  }

  function Prologue(m: MetaPage): (s: seq<Byte>)
    ensures |s| == OFF_FREE_IDS
  {
    MAGIC + ToLe(VERSION_V3, 4) + ToLe(m.root, 8) + ToLe(m.nextBptree, 8) + ToLe(m.nextData, 8)
    + ToLe(m.nextUndo, 8) + ToLe(|Capped(m.free)|, 4)
  }

  function IdSlice(s: seq<Byte>, i: nat): seq<Byte>
    requires |s| == PAGE_SIZE && i < UNDO_FREE_CAP
  {
    s[OFF_FREE_IDS + 8 * i..OFF_FREE_IDS + 8 * i + 8]
  }

  ghost predicate IdsStored(s: seq<Byte>, ids: seq<PageId>)
    requires |s| == PAGE_SIZE && |ids| <= UNDO_FREE_CAP
  {
    forall i :: 0 <= i < |ids| ==> IdSlice(s, i) == ToLe(ids[i], 8)
  }

  ghost predicate Stored(s: seq<Byte>, m: MetaPage) {
    && |s| == PAGE_SIZE
    && s[..OFF_FREE_IDS] == Prologue(m)
    && IdsStored(s, Capped(m.free))
    && s[OFF_HISTORY_HEAD..OFF_HISTORY_HEAD + 8] == ToLe(m.histHead, 8)
    && s[OFF_HISTORY_TAIL..OFF_HISTORY_TAIL + 8] == ToLe(m.histTail, 8)
  }

  lemma IdsElsewhere(s: seq<Byte>, ids: seq<PageId>, off: nat, data: seq<Byte>)
    requires |s| == PAGE_SIZE && |ids| <= UNDO_FREE_CAP && IdsStored(s, ids)
    requires OFF_FREE_IDS + 8 * |ids| <= off && off + |data| <= PAGE_SIZE
    ensures IdsStored(Splice(s, off, data), ids)
  {
    hide Splice, ToLe;
    forall i | 0 <= i < |ids| ensures IdSlice(Splice(s, off, data), i) == ToLe(ids[i], 8) {
      SpliceElsewhere(s, off, data, OFF_FREE_IDS + 8 * i, OFF_FREE_IDS + 8 * i + 8);
    }
  }

  method WritePrologue(page: array<Byte>, m: MetaPage)
    requires page.Length == PAGE_SIZE
    modifies page
    ensures page[..] == Splice(old(page[..]), 0, Prologue(m))
  {
    hide Splice, ToLe;
    ghost var s := page[..];
    SpliceNothing(s, 0);
    Emit(page, 0, s, [], 0, MAGIC);
    ghost var d := [] + MAGIC;
    Emit(page, 0, s, d, 8, ToLe(VERSION_V3, 4));
    d := d + ToLe(VERSION_V3, 4);
    Emit(page, 0, s, d, 12, ToLe(m.root, 8));
    d := d + ToLe(m.root, 8);
    Emit(page, 0, s, d, 20, ToLe(m.nextBptree, 8));
    d := d + ToLe(m.nextBptree, 8);
    Emit(page, 0, s, d, 28, ToLe(m.nextData, 8));
    d := d + ToLe(m.nextData, 8);
    Emit(page, 0, s, d, 36, ToLe(m.nextUndo, 8));
    d := d + ToLe(m.nextUndo, 8);
    Emit(page, 0, s, d, 44, ToLe(|Capped(m.free)|, 4));
    d := d + ToLe(|Capped(m.free)|, 4);
    assert [] + MAGIC == MAGIC;
    assert d == Prologue(m);
  }

  method Encode(m: MetaPage) returns (page: array<Byte>)
    ensures fresh(page) && Stored(page[..], m)
  {
    hide Splice, ToLe, Prologue;
    page := new Byte[PAGE_SIZE](i => 0);
    WritePrologue(page, m);
    var ids := Capped(m.free);
    var i := 0;
    while i < |ids|
      invariant i <= |ids| && page[..OFF_FREE_IDS] == Prologue(m)
      invariant IdsStored(page[..], ids[..i])
    {
      ghost var s := page[..];
      var off := OFF_FREE_IDS + 8 * i;
      IdsElsewhere(s, ids[..i], off, ToLe(ids[i], 8));
      SpliceElsewhere(s, off, ToLe(ids[i], 8), 0, OFF_FREE_IDS);
      CopyInto(page, off, ToLe(ids[i], 8));
      assert page[..][..OFF_FREE_IDS] == page[..][0..OFF_FREE_IDS] == s[0..OFF_FREE_IDS] == s[..OFF_FREE_IDS];
      forall j | 0 <= j < i + 1 ensures IdSlice(page[..], j) == ToLe(ids[..i + 1][j], 8) {
        assert j < i ==> ids[..i + 1][j] == ids[..i][j];
      }
      i := i + 1;
    }
    assert ids[..i] == ids;
    WriteHistory(page, m, ids);
  }

  method WriteHistory(page: array<Byte>, m: MetaPage, ghost ids: seq<PageId>)
    requires page.Length == PAGE_SIZE && page[..OFF_FREE_IDS] == Prologue(m)
    requires |ids| <= UNDO_FREE_CAP && IdsStored(page[..], ids)
    modifies page
    ensures page[..][..OFF_FREE_IDS] == Prologue(m) && IdsStored(page[..], ids)
    ensures page[..][OFF_HISTORY_HEAD..OFF_HISTORY_HEAD + 8] == ToLe(m.histHead, 8)
    ensures page[..][OFF_HISTORY_TAIL..OFF_HISTORY_TAIL + 8] == ToLe(m.histTail, 8)
  {
    hide Splice, ToLe, Prologue;
    ghost var s := page[..];
    assert s[..OFF_FREE_IDS] == page[..OFF_FREE_IDS];
    var (head, tail) := (ToLe(m.histHead, 8), ToLe(m.histTail, 8));
    IdsElsewhere(s, ids, OFF_HISTORY_HEAD, head);
    SpliceElsewhere(s, OFF_HISTORY_HEAD, head, 0, OFF_FREE_IDS);
    CopyInto(page, OFF_HISTORY_HEAD, head);
    ghost var t := page[..];
    IdsElsewhere(t, ids, OFF_HISTORY_TAIL, tail);
    SpliceElsewhere(t, OFF_HISTORY_TAIL, tail, 0, OFF_FREE_IDS);
    SpliceElsewhere(t, OFF_HISTORY_TAIL, tail, OFF_HISTORY_HEAD, OFF_HISTORY_HEAD + 8);
    CopyInto(page, OFF_HISTORY_TAIL, tail);
    ghost var u := page[..];
    assert u[..OFF_FREE_IDS] == u[0..OFF_FREE_IDS] == t[0..OFF_FREE_IDS] == s[0..OFF_FREE_IDS] == s[..OFF_FREE_IDS];
  }

  // ---- Decoding ----

  function FreeIds(s: seq<Byte>, n: nat): seq<PageId>
    requires |s| == PAGE_SIZE && n <= UNDO_FREE_CAP
  {
    if n == 0 then []
    else
      var pid := FromLe(IdSlice(s, n - 1));
      if pid == 0 then FreeIds(s, n - 1) else FreeIds(s, n - 1) + [pid]
  }

  /** Decodes any page: the errors for a wrong size, magic or version, else what it stores. */
  method Decode(s: seq<Byte>) returns (r: Result<MetaPage, Error>)
    ensures |s| != PAGE_SIZE ==> r == Err(InvalidPageSize)
    ensures |s| == PAGE_SIZE && s[..8] != MAGIC ==> r == Err(InvalidMagic)
    ensures |s| == PAGE_SIZE && s[..8] == MAGIC && ReadLe(s, 8, 4) != VERSION_V3 ==> r == Err(UnsupportedVersion)
    ensures |s| == PAGE_SIZE && s[..8] == MAGIC && ReadLe(s, 8, 4) == VERSION_V3 ==> r.Ok?
    ensures forall m :: Fits(m) && Stored(s, m) ==> r == Ok(m.(free := NonZero(Capped(m.free))))
  {
    hide FromLe, ToLe, Stored, Fits, Prologue, Capped;
    if |s| != PAGE_SIZE {
      WrongSize(s);
      return Err(InvalidPageSize);
    }
    WellFormed(s);
    if s[..8] != MAGIC {
      return Err(InvalidMagic);
    }
    if ReadLe(s, 8, 4) != VERSION_V3 {
      return Err(UnsupportedVersion);
    }
    var n := ReadLe(s, 44, 4);
    if n > UNDO_FREE_CAP {
      n := UNDO_FREE_CAP;
    }
    var free, i := [], 0;
    while i < n
      invariant i <= n && free == FreeIds(s, i)
    {
      var pid := FromLe(IdSlice(s, i));
      if pid != 0 {
        free := free + [pid];
      }
      i := i + 1;
    }
    r := Ok(MetaPage(ReadLe(s, 12, 8), ReadLe(s, 20, 8), ReadLe(s, 28, 8), ReadLe(s, 36, 8), free,
                     ReadLe(s, OFF_HISTORY_HEAD, 8), ReadLe(s, OFF_HISTORY_TAIL, 8)));
    forall m | Fits(m) && Stored(s, m) ensures r == Ok(m.(free := NonZero(Capped(m.free)))) {
      StoredReads(s, m);
    }
  }

  lemma WrongSize(s: seq<Byte>)
    requires |s| != PAGE_SIZE
    ensures forall m :: !Stored(s, m)
  {
  }

  lemma WellFormed(s: seq<Byte>)
    requires |s| == PAGE_SIZE
    ensures forall m :: Stored(s, m) ==> s[..8] == MAGIC && ReadLe(s, 8, 4) == VERSION_V3
  {
    forall m | Stored(s, m) ensures s[..8] == MAGIC && ReadLe(s, 8, 4) == VERSION_V3 {
      PrologueReads(s, m);
    }
  }

  lemma PrologueReads(s: seq<Byte>, m: MetaPage)
    requires |s| == PAGE_SIZE && s[..OFF_FREE_IDS] == Prologue(m)
    ensures s[..8] == MAGIC && ReadLe(s, 8, 4) == VERSION_V3
    ensures s[12..20] == ToLe(m.root, 8) && s[20..28] == ToLe(m.nextBptree, 8)
    ensures s[28..36] == ToLe(m.nextData, 8) && s[36..44] == ToLe(m.nextUndo, 8)
    ensures s[44..48] == ToLe(|Capped(m.free)|, 4)
  {
    Pow256Values();
    LeRoundTrip(VERSION_V3, 4);
    hide ToLe, FromLe, Capped;
    var p12 := MAGIC + ToLe(VERSION_V3, 4);
    var p20 := p12 + ToLe(m.root, 8);
    var p28 := p20 + ToLe(m.nextBptree, 8);
    var p36 := p28 + ToLe(m.nextData, 8);
    var p44 := p36 + ToLe(m.nextUndo, 8);
    SplitPrefix(s, p44, ToLe(|Capped(m.free)|, 4));
    SplitPrefix(s, p36, ToLe(m.nextUndo, 8));
    SplitPrefix(s, p28, ToLe(m.nextData, 8));
    SplitPrefix(s, p20, ToLe(m.nextBptree, 8));
    SplitPrefix(s, p12, ToLe(m.root, 8));
    SplitPrefix(s, MAGIC, ToLe(VERSION_V3, 4));
  }

  lemma {:induction false} IdsRead(s: seq<Byte>, ids: seq<PageId>, n: nat)
    requires |s| == PAGE_SIZE && n <= |ids| <= UNDO_FREE_CAP && IdsStored(s, ids)
    requires forall i :: 0 <= i < |ids| ==> ids[i] < U64_LIMIT
    ensures FreeIds(s, n) == NonZero(ids[..n])
  {
    if n > 0 {
      IdsRead(s, ids, n - 1);
      Pow256Values();
      LeRoundTrip(ids[n - 1], 8);
      assert IdSlice(s, n - 1) == ToLe(ids[n - 1], 8);
      assert ids[..n][..n - 1] == ids[..n - 1];
    }
  }

  lemma {:induction false} StoredReads(s: seq<Byte>, m: MetaPage)
    requires Fits(m) && Stored(s, m)
    ensures ReadLe(s, 12, 8) == m.root && ReadLe(s, 20, 8) == m.nextBptree
    ensures ReadLe(s, 28, 8) == m.nextData && ReadLe(s, 36, 8) == m.nextUndo
    ensures ReadLe(s, 44, 4) == |Capped(m.free)|
    ensures FreeIds(s, |Capped(m.free)|) == NonZero(Capped(m.free))
    ensures ReadLe(s, OFF_HISTORY_HEAD, 8) == m.histHead && ReadLe(s, OFF_HISTORY_TAIL, 8) == m.histTail
  {
    PrologueReads(s, m);
    Pow256Values();
    LeRoundTrip(m.root, 8);
    LeRoundTrip(m.nextBptree, 8);
    LeRoundTrip(m.nextData, 8);
    LeRoundTrip(m.nextUndo, 8);
    LeRoundTrip(m.histHead, 8);
    LeRoundTrip(m.histTail, 8);
    var ids := Capped(m.free);
    LeRoundTrip(|ids|, 4);
    hide ToLe, FromLe, Prologue;
    assert forall i :: 0 <= i < |ids| ==> ids[i] == m.free[i];
    IdsRead(s, ids, |ids|);
    assert ids[..|ids|] == ids;
  }

  /** Encoding and decoding gives the page back exactly when its free list is within the cap and has no zero id. */
  method RoundTrip(m: MetaPage) returns (r: MetaPage)
    requires Fits(m)
    ensures r == m <==> |m.free| <= UNDO_FREE_CAP && 0 !in m.free
    ensures r.(free := []) == m.(free := [])
  {
    hide Stored, Fits, NonZero, Capped;
    var page := Encode(m);
    var d := Decode(page[..]);
    RoundTripExact(m);
    r := d.value;
  }

  lemma RoundTripExact(m: MetaPage)
    ensures m.(free := NonZero(Capped(m.free))) == m <==> |m.free| <= UNDO_FREE_CAP && 0 !in m.free
  {
    NonZeroFilters(Capped(m.free));
    if 0 in Capped(m.free) {
      assert 0 !in NonZero(Capped(m.free));
    }
  }

  lemma {:induction false} NonZeroFilters(free: seq<PageId>)
    ensures 0 !in NonZero(free) && |NonZero(free)| <= |free|
    ensures 0 !in free ==> NonZero(free) == free
    ensures forall p :: p != 0 && p in free ==> p in NonZero(free)
  {
    if free != [] {
      NonZeroFilters(free[..|free| - 1]);
      assert free == free[..|free| - 1] + [free[|free| - 1]];
    }
  }
}
