/**
 The byte layout of one B+Tree page (src/page_bptree.rs): a 48-byte header, a
 table of 2-byte offsets and the packed entries. `Holds` relates a page's bytes
 to the header and entries it stores; the readers and writers are proved
 against it.
 */
module TreePage {
  import opened Bytes
  import opened Params
  import opened KeyOrder

  type PageId = nat

  const PAGE_TYPE_INTERNAL: Byte := 1
  const PAGE_TYPE_LEAF: Byte := 2
  const HEADER_SIZE := 48
  const OFFSET_ENTRY_SIZE := 2
  const LEAF_VALUE_SIZE := 1060 // value, commit_lsn, undo page, undo slot, flags, intent txn, intent lsn
  const CHILD_ID_SIZE := 8

  datatype Error =
    | InvalidKeySize(got: nat, want: nat)
    | InvalidValueSize(got: nat, want: nat)
    | InvalidPageSize(got: nat, want: nat)

  datatype Header = Header(
    pageType: Byte,
    level: Byte,
    keyCount: nat,
    prevLeaf: Option<PageId>,
    nextLeaf: Option<PageId>,
    leftChild: PageId,
    highKey: Option<seq<Byte>>)

  datatype Entry = Entry(key: seq<Byte>, value: seq<Byte>)

  datatype Node = Node(header: Header, entries: seq<Entry>)

  // ---------------------------------------------------------------- header

  predicate LinkOk(link: Option<PageId>) {
    link.Some? ==> 0 < link.value < U64_LIMIT
  }

  predicate HeaderOk(h: Header) {
    && h.keyCount < 0x1_0000
    && LinkOk(h.prevLeaf)
    && LinkOk(h.nextLeaf)
    && h.leftChild < U64_LIMIT
    && (h.highKey.Some? ==> |h.highKey.value| == KEY_SIZE)
  }

  function LinkId(link: Option<PageId>): PageId {
    match link
    case None => 0
    case Some(id) => id
  }

  function LinkOf(id: PageId): Option<PageId> {
    if id == 0 then None else Some(id)
  }

  function HighKeyBytes(high: Option<seq<Byte>>): (s: seq<Byte>)
    requires high.Some? ==> |high.value| == KEY_SIZE
    ensures |s| == 1 + KEY_SIZE
  {
    match high
    case None => [0] + Zeros(KEY_SIZE)
    case Some(k) => [1] + k
  }

  function HeaderBytes(h: Header): (s: seq<Byte>)
    requires HeaderOk(h)
    ensures |s| == HEADER_SIZE
  {
    [h.pageType, h.level] + ToLe(h.keyCount, 2)
    + ToLe(LinkId(h.prevLeaf), 8) + ToLe(LinkId(h.nextLeaf), 8) + ToLe(h.leftChild, 8)
    + HighKeyBytes(h.highKey) + Zeros(3)
  }

  function ParseHeader(page: seq<Byte>): Header
    requires |page| == PAGE_SIZE
  {
    Header(page[0], page[1], ReadLe(page, 2, 2),
           LinkOf(ReadLe(page, 4, 8)), LinkOf(ReadLe(page, 12, 8)), ReadLe(page, 20, 8),
           if page[28] != 0 then Some(page[29..29 + KEY_SIZE]) else None)
  }

  lemma HeaderRoundTrip(page: seq<Byte>, h: Header)
    requires |page| == PAGE_SIZE && HeaderOk(h)
    requires page[..HEADER_SIZE] == HeaderBytes(h)
    ensures ParseHeader(page) == h
  {
    var p2 := [h.pageType, h.level];
    var p4 := p2 + ToLe(h.keyCount, 2);
    var p12 := p4 + ToLe(LinkId(h.prevLeaf), 8);
    var p20 := p12 + ToLe(LinkId(h.nextLeaf), 8);
    var p28 := p20 + ToLe(h.leftChild, 8);
    var p45 := p28 + HighKeyBytes(h.highKey);
    SplitPrefix(page, p45, Zeros(3));
    SplitPrefix(page, p28, HighKeyBytes(h.highKey));
    SplitPrefix(page, p20, ToLe(h.leftChild, 8));
    SplitPrefix(page, p12, ToLe(LinkId(h.nextLeaf), 8));
    SplitPrefix(page, p4, ToLe(LinkId(h.prevLeaf), 8));
    SplitPrefix(page, p2, ToLe(h.keyCount, 2));
    HeaderFields(page, h);
  }

  lemma HeaderFields(page: seq<Byte>, h: Header)
    requires |page| == PAGE_SIZE && HeaderOk(h)
    requires page[..2] == [h.pageType, h.level]
    requires page[2..4] == ToLe(h.keyCount, 2)
    requires page[4..12] == ToLe(LinkId(h.prevLeaf), 8)
    requires page[12..20] == ToLe(LinkId(h.nextLeaf), 8)
    requires page[20..28] == ToLe(h.leftChild, 8)
    requires page[28..45] == HighKeyBytes(h.highKey)
    ensures ParseHeader(page) == h
  {
    Pow256Values();
    LeRoundTrip(h.keyCount, 2);
    LeRoundTrip(LinkId(h.prevLeaf), 8);
    LeRoundTrip(LinkId(h.nextLeaf), 8);
    LeRoundTrip(h.leftChild, 8);
    assert page[0] == page[..2][0] && page[1] == page[..2][1];
    assert page[28] == page[28..45][0];
    assert page[29..45] == page[28..45][1..];
    if h.highKey.Some? {
      assert HighKeyBytes(h.highKey)[1..] == h.highKey.value;
    }
  }

  // --------------------------------------------------------------- entries

  function EntryValueSize(pageType: Byte): nat {
    if pageType == PAGE_TYPE_LEAF then LEAF_VALUE_SIZE
    else if pageType == PAGE_TYPE_INTERNAL then CHILD_ID_SIZE
    else 0
  }

  function DataStart(keyCount: nat): nat {
    HEADER_SIZE + keyCount * 2
  }

  /** The bytes of `n` packed entries whose values take `vs` bytes. */
  function Span(vs: nat, n: nat): (r: nat)
    ensures 16 * n <= r
  {
    if n == 0 then 0 else Span(vs, n - 1) + KEY_SIZE + vs
  }

  lemma {:induction false} SpanIsProduct(vs: nat, n: nat)
    ensures Span(vs, n) == n * (KEY_SIZE + vs)
  {
    if n > 0 {
      SpanIsProduct(vs, n - 1);
      assert n * (KEY_SIZE + vs) == (n - 1) * (KEY_SIZE + vs) + (KEY_SIZE + vs);
    }
  }

  lemma {:induction false} SpanMonotone(vs: nat, i: nat, n: nat)
    requires i <= n
    ensures Span(vs, i) <= Span(vs, n)
    ensures i < n ==> Span(vs, i + 1) <= Span(vs, n)
  {
    if i + 1 < n {
      SpanMonotone(vs, i, n - 1);
    }
  }

  /** The page size taken by `n` entries. */
  function Footprint(vs: nat, n: nat): nat {
    DataStart(n) + Span(vs, n)
  }

  predicate HasRoomForOneMore(h: Header) {
    Footprint(EntryValueSize(h.pageType), h.keyCount + 1) <= PAGE_SIZE
  }

  predicate EntryOk(vs: nat, e: Entry) {
    |e.key| == KEY_SIZE && |e.value| == vs
  }

  ghost predicate EntriesOk(vs: nat, entries: seq<Entry>) {
    forall i :: 0 <= i < |entries| ==> EntryOk(vs, entries[i])
  }

  ghost function OffsetTable(vs: nat, n: nat): (s: seq<Byte>)
    ensures |s| == 2 * n
  {
    if n == 0 then [] else OffsetTable(vs, n - 1) + ToLe(Span(vs, n - 1), 2)
  }

  ghost function Packed(entries: seq<Entry>): seq<Byte> {
    if entries == [] then []
    else
      var last := entries[|entries| - 1];
      Packed(entries[..|entries| - 1]) + (last.key + last.value)
  }

  /** The bytes of `page` store exactly `node`. Bytes past the packed entries are unconstrained. */
  ghost predicate Holds(page: seq<Byte>, node: Node) {
    var h, n := node.header, |node.entries|;
    var vs := EntryValueSize(h.pageType);
    && |page| == PAGE_SIZE
    && HeaderOk(h) && h.keyCount == n
    && EntriesOk(vs, node.entries)
    && Footprint(vs, n) <= PAGE_SIZE
    && page[..HEADER_SIZE] == HeaderBytes(h)
    && page[HEADER_SIZE..DataStart(n)] == OffsetTable(vs, n)
    && page[DataStart(n)..Footprint(vs, n)] == Packed(node.entries)
  }

  lemma {:induction false} PackedSnoc(init: seq<Entry>, last: Entry)
    ensures Packed(init + [last]) == Packed(init) + (last.key + last.value)
  {
    assert (init + [last])[..|init|] == init;
  }

  lemma {:induction false} PackedLength(vs: nat, entries: seq<Entry>)
    requires EntriesOk(vs, entries)
    ensures |Packed(entries)| == Span(vs, |entries|)
  {
    if entries != [] {
      PackedLength(vs, entries[..|entries| - 1]);
      assert EntryOk(vs, entries[|entries| - 1]);
    }
  }

  lemma {:induction false} OffsetTableAt(vs: nat, n: nat, i: nat)
    requires i < n && Span(vs, n) <= 0x1_0000
    ensures FromLe(OffsetTable(vs, n)[2 * i..2 * i + 2]) == Span(vs, i)
  {
    var t := OffsetTable(vs, n - 1);
    if i == n - 1 {
      assert OffsetTable(vs, n)[2 * i..2 * i + 2] == ToLe(Span(vs, i), 2);
      Pow256Values();
      LeRoundTrip(Span(vs, i), 2);
    } else {
      OffsetTableAt(vs, n - 1, i);
      assert OffsetTable(vs, n)[2 * i..2 * i + 2] == t[2 * i..2 * i + 2];
    }
  }

  lemma {:induction false} PackedAt(vs: nat, entries: seq<Entry>, i: nat)
    requires EntriesOk(vs, entries) && i < |entries|
    ensures Span(vs, i) + KEY_SIZE + vs <= |Packed(entries)|
    ensures Packed(entries)[Span(vs, i)..Span(vs, i) + KEY_SIZE] == entries[i].key
    ensures Packed(entries)[Span(vs, i) + KEY_SIZE..Span(vs, i) + KEY_SIZE + vs] == entries[i].value
  {
    hide Packed;
    var n, at := |entries|, Span(vs, i);
    var init, last := entries[..n - 1], entries[n - 1];
    PackedLength(vs, init);
    assert EntryOk(vs, last);
    var p := Packed(init);
    assert init + [last] == entries;
    PackedSnoc(init, last);
    TailSlices(p, last.key, last.value);
    if i < n - 1 {
      PackedAt(vs, init, i);
      SubSlice(Packed(entries), 0, |p|, at, at + KEY_SIZE);
      SubSlice(Packed(entries), 0, |p|, at + KEY_SIZE, at + KEY_SIZE + vs);
    }
  }

  // --------------------------------------------------------------- readers

  /** The offset table lies inside the page: outside this the readers index past the buffer. */
  predicate TableInside(page: seq<Byte>) {
    |page| == PAGE_SIZE && DataStart(ParseHeader(page).keyCount) <= PAGE_SIZE
  }

  function EntryOffset(page: seq<Byte>, index: nat): nat
    requires TableInside(page) && index < ParseHeader(page).keyCount
  {
    DataStart(ParseHeader(page).keyCount) + ReadLe(page, HEADER_SIZE + 2 * index, 2)
  }

  function EntryKeyAt(page: seq<Byte>, index: nat): Option<seq<Byte>>
    requires TableInside(page)
  {
    if index >= ParseHeader(page).keyCount then None
    else
      var off := EntryOffset(page, index);
      if off + KEY_SIZE > PAGE_SIZE then None else Some(page[off..off + KEY_SIZE])
  }

  function EntryValueAt(page: seq<Byte>, index: nat): Option<seq<Byte>>
    requires TableInside(page)
  {
    var h := ParseHeader(page);
    if index >= h.keyCount then None
    else
      var keyEnd := EntryOffset(page, index) + KEY_SIZE;
      var valueEnd := keyEnd + EntryValueSize(h.pageType);
      if valueEnd > PAGE_SIZE then None else Some(page[keyEnd..valueEnd])
  }

  /** What the readers return on a page that holds `node`. */
  lemma HoldsReads(page: seq<Byte>, node: Node)
    requires Holds(page, node)
    ensures TableInside(page) && ParseHeader(page) == node.header
    ensures forall i :: 0 <= i < |node.entries| ==> EntryKeyAt(page, i) == Some(node.entries[i].key)
    ensures forall i :: 0 <= i < |node.entries| ==> EntryValueAt(page, i) == Some(node.entries[i].value)
  {
    HeaderRoundTrip(page, node.header);
    forall i | 0 <= i < |node.entries|
      ensures EntryKeyAt(page, i) == Some(node.entries[i].key)
      ensures EntryValueAt(page, i) == Some(node.entries[i].value)
    {
      HoldsReadsAt(page, node, i);
    }
  }

  lemma {:induction false} HoldsOffsetAt(page: seq<Byte>, node: Node, i: nat)
    requires Holds(page, node) && i < |node.entries|
    ensures TableInside(page) && ParseHeader(page) == node.header
    ensures EntryOffset(page, i) == DataStart(|node.entries|) + Span(EntryValueSize(node.header.pageType), i)
  {
    hide HeaderBytes, Packed, OffsetTable, ToLe, EntryValueSize;
    HeaderRoundTrip(page, node.header);
    var n, vs := |node.entries|, EntryValueSize(node.header.pageType);
    OffsetTableAt(vs, n, i);
    SubSlice(page, HEADER_SIZE, DataStart(n), 2 * i, 2 * i + 2);
  }

  lemma {:induction false} HoldsBytesAt(page: seq<Byte>, node: Node, i: nat)
    requires Holds(page, node) && i < |node.entries|
    ensures var vs := EntryValueSize(node.header.pageType);
            var off := DataStart(|node.entries|) + Span(vs, i);
            && off + KEY_SIZE + vs <= PAGE_SIZE
            && page[off..off + KEY_SIZE] == node.entries[i].key
            && page[off + KEY_SIZE..off + KEY_SIZE + vs] == node.entries[i].value
  {
    hide HeaderBytes, Packed, OffsetTable, ToLe, EntryValueSize;
    var n, vs := |node.entries|, EntryValueSize(node.header.pageType);
    var start, end, at := DataStart(n), Footprint(vs, n), Span(vs, i);
    SpanMonotone(vs, i, n);
    PackedAt(vs, node.entries, i);
    SubSlice(page, start, end, at, at + KEY_SIZE);
    SubSlice(page, start, end, at + KEY_SIZE, at + KEY_SIZE + vs);
  }

  lemma HoldsReadsAt(page: seq<Byte>, node: Node, i: nat)
    requires Holds(page, node) && i < |node.entries|
    ensures TableInside(page) && ParseHeader(page) == node.header
    ensures EntryKeyAt(page, i) == Some(node.entries[i].key)
    ensures EntryValueAt(page, i) == Some(node.entries[i].value)
  {
    HoldsOffsetAt(page, node, i);
    HoldsBytesAt(page, node, i);
  }

  /** A page stores at most one node: decoding is unambiguous. */
  lemma HoldsUnique(page: seq<Byte>, a: Node, b: Node)
    requires Holds(page, a) && Holds(page, b)
    ensures a == b
  {
    HoldsReads(page, a);
    HoldsReads(page, b);
    forall i | 0 <= i < |a.entries|
      ensures a.entries[i] == b.entries[i]
    {
      assert EntryKeyAt(page, i) == Some(a.entries[i].key) == Some(b.entries[i].key);
      assert EntryValueAt(page, i) == Some(a.entries[i].value) == Some(b.entries[i].value);
    }
  }

  method CollectEntries(page: seq<Byte>, ghost node: Node) returns (entries: seq<Entry>)
    requires Holds(page, node)
    ensures entries == node.entries
  {
    HoldsReads(page, node);
    var n := ParseHeader(page).keyCount;
    entries := [];
    var index := 0;
    while index < n
      invariant 0 <= index <= n
      invariant entries == node.entries[..index]
    {
      var key, value := EntryKeyAt(page, index), EntryValueAt(page, index);
      if key == None || value == None {
        break;
      }
      entries := entries + [Entry(key.value, value.value)];
      index := index + 1;
    }
  }

  // --------------------------------------------------------------- writers

  method WriteHeader(page: array<Byte>, h: Header)
    requires page.Length == PAGE_SIZE && HeaderOk(h)
    modifies page
    ensures page[..] == Splice(old(page[..]), 0, HeaderBytes(h))
  {
    CopyInto(page, 0, HeaderBytes(h));
  }

  /** The first `|prefix|` table slots and entries written so far, for a data area at `start`. */
  ghost predicate Written(page: seq<Byte>, vs: nat, start: nat, prefix: seq<Entry>) {
    var i := |prefix|;
    && |page| == PAGE_SIZE
    && EntriesOk(vs, prefix)
    && DataStart(i) <= start
    && start + Span(vs, i) <= PAGE_SIZE
    && page[HEADER_SIZE..DataStart(i)] == OffsetTable(vs, i)
    && page[start..start + Span(vs, i)] == Packed(prefix)
  }

  /** The page after entry number `index` is written: its table slot, its key, its value. */
  ghost function WithEntry(p: seq<Byte>, vs: nat, start: nat, index: nat, e: Entry): (q: seq<Byte>)
    requires |p| == PAGE_SIZE && EntryOk(vs, e)
    requires start + Span(vs, index) + KEY_SIZE + vs <= PAGE_SIZE && start >= HEADER_SIZE
    ensures |q| == PAGE_SIZE
  {
    var cursor := start + Span(vs, index);
    Splice(Splice(Splice(p, DataStart(index), ToLe(Span(vs, index), 2)), cursor, e.key), cursor + KEY_SIZE, e.value)
  }

  method PutEntry(page: array<Byte>, vs: nat, start: nat, index: nat, e: Entry)
    requires page.Length == PAGE_SIZE && EntryOk(vs, e)
    requires start + Span(vs, index) + KEY_SIZE + vs <= PAGE_SIZE && start >= HEADER_SIZE
    modifies page
    ensures page[..] == WithEntry(old(page[..]), vs, start, index, e)
  {
    hide Splice, ToLe, Span;
    var cursor := start + Span(vs, index);
    CopyInto(page, DataStart(index), ToLe(cursor - start, 2));
    CopyInto(page, cursor, e.key);
    CopyInto(page, cursor + KEY_SIZE, e.value);
  }

  lemma {:induction false} EntryWritten(p0: seq<Byte>, vs: nat, start: nat, e: Entry, prefix: seq<Entry>)
    requires Written(p0, vs, start, prefix) && EntryOk(vs, e)
    requires DataStart(|prefix| + 1) <= start && start + Span(vs, |prefix|) + KEY_SIZE + vs <= PAGE_SIZE
    ensures Written(WithEntry(p0, vs, start, |prefix|, e), vs, start, prefix + [e])
  {
    hide WithEntry, Splice, OffsetTable, Packed;
    TableSlotWritten(p0, vs, start, e, prefix);
    EntryBytesWritten(p0, vs, start, e, prefix);
    PackedSnoc(prefix, e);
  }

  lemma {:induction false} TableSlotWritten(p0: seq<Byte>, vs: nat, start: nat, e: Entry, prefix: seq<Entry>)
    requires Written(p0, vs, start, prefix) && EntryOk(vs, e)
    requires DataStart(|prefix| + 1) <= start && start + Span(vs, |prefix|) + KEY_SIZE + vs <= PAGE_SIZE
    ensures WithEntry(p0, vs, start, |prefix|, e)[HEADER_SIZE..DataStart(|prefix| + 1)] == OffsetTable(vs, |prefix| + 1)
  {
    hide Splice, ToLe, Packed;
    var i := |prefix|;
    var at, cursor, off := DataStart(i), start + Span(vs, i), ToLe(Span(vs, i), 2);
    var p1 := Splice(p0, at, off);
    var p2 := Splice(p1, cursor, e.key);
    SpliceElsewhere(p0, at, off, HEADER_SIZE, at);
    JoinSlices(p1, HEADER_SIZE, at, at + 2);
    SpliceElsewhere(p1, cursor, e.key, HEADER_SIZE, at + 2);
    SpliceElsewhere(p2, cursor + KEY_SIZE, e.value, HEADER_SIZE, at + 2);
  }

  lemma {:induction false} EntryBytesWritten(p0: seq<Byte>, vs: nat, start: nat, e: Entry, prefix: seq<Entry>)
    requires Written(p0, vs, start, prefix) && EntryOk(vs, e)
    requires DataStart(|prefix| + 1) <= start && start + Span(vs, |prefix|) + KEY_SIZE + vs <= PAGE_SIZE
    ensures WithEntry(p0, vs, start, |prefix|, e)[start..start + Span(vs, |prefix|) + KEY_SIZE + vs]
            == Packed(prefix) + (e.key + e.value)
  {
    hide Splice, ToLe, OffsetTable, Packed;
    var i := |prefix|;
    var at, cursor, off := DataStart(i), start + Span(vs, i), ToLe(Span(vs, i), 2);
    var p1 := Splice(p0, at, off);
    var p2 := Splice(p1, cursor, e.key);
    var p3 := Splice(p2, cursor + KEY_SIZE, e.value);
    SpliceElsewhere(p0, at, off, start, cursor);
    SpliceElsewhere(p1, cursor, e.key, start, cursor);
    JoinSlices(p2, start, cursor, cursor + KEY_SIZE);
    SpliceElsewhere(p2, cursor + KEY_SIZE, e.value, start, cursor + KEY_SIZE);
    JoinSlices(p3, start, cursor + KEY_SIZE, cursor + KEY_SIZE + vs);
  }

  /** Stamping the header on a written data area completes the page. */
  lemma HeaderCompletes(before: seq<Byte>, h: Header, entries: seq<Entry>)
    requires Written(before, EntryValueSize(h.pageType), DataStart(|entries|), entries)
    requires HeaderOk(h) && h.keyCount == |entries|
    ensures Holds(Splice(before, 0, HeaderBytes(h)), Node(h, entries))
  {
    var n := |entries|;
    SpliceElsewhere(before, 0, HeaderBytes(h), HEADER_SIZE, DataStart(n));
    SpliceElsewhere(before, 0, HeaderBytes(h), DataStart(n), Footprint(EntryValueSize(h.pageType), n));
  }

  ghost predicate Encodable(vs: nat, entries: seq<Entry>) {
    EntriesOk(vs, entries) && Footprint(vs, |entries|) <= PAGE_SIZE
  }

  function EntryError(vs: nat, e: Entry, cursor: nat): (r: Option<Error>)
    ensures r.None? <==> EntryOk(vs, e) && cursor + KEY_SIZE + vs <= PAGE_SIZE
  {
    if |e.key| != KEY_SIZE then Some(InvalidKeySize(|e.key|, KEY_SIZE))
    else if |e.value| != vs then Some(InvalidValueSize(|e.value|, vs))
    else if cursor + KEY_SIZE + vs > PAGE_SIZE then Some(InvalidPageSize(cursor, PAGE_SIZE))
    else None
  }

  /** Entry `i` is the first with a wrong size or no space left, and `err` says which. */
  ghost predicate FailsAt(vs: nat, entries: seq<Entry>, i: nat, err: Error) {
    var start := DataStart(AsU16(|entries|));
    && i < |entries|
    && (forall j :: 0 <= j < i ==> EntryOk(vs, entries[j]) && start + Span(vs, j) + KEY_SIZE + vs <= PAGE_SIZE)
    && var (e, at) := (entries[i], start + Span(vs, i));
       if |e.key| != KEY_SIZE then err == InvalidKeySize(|e.key|, KEY_SIZE)
       else if |e.value| != vs then err == InvalidValueSize(|e.value|, vs)
       else at + KEY_SIZE + vs > PAGE_SIZE && err == InvalidPageSize(at, PAGE_SIZE)
  }

  ghost predicate NoneFails(vs: nat, entries: seq<Entry>, start: nat, n: nat)
    requires n <= |entries|
  {
    forall j :: 0 <= j < n ==> EntryError(vs, entries[j], start + Span(vs, j)) == None
  }

  lemma NoneFailsYet(vs: nat, entries: seq<Entry>, start: nat)
    ensures NoneFails(vs, entries, start, 0)
  {
  }

  lemma NoneFailsOn(vs: nat, entries: seq<Entry>, start: nat, n: nat)
    requires n < |entries| && NoneFails(vs, entries, start, n)
    requires EntryError(vs, entries[n], start + Span(vs, n)) == None
    ensures NoneFails(vs, entries, start, n + 1)
  {
    hide EntryError, Span;
  }

  lemma {:induction false} FirstFailure(vs: nat, entries: seq<Entry>, i: nat, err: Error)
    requires i < |entries| && NoneFails(vs, entries, DataStart(AsU16(|entries|)), i)
    requires EntryError(vs, entries[i], DataStart(AsU16(|entries|)) + Span(vs, i)) == Some(err)
    ensures FailsAt(vs, entries, i, err)
  {
    hide Span, AsU16, EntryOk;
  }

  /** `p` after all of `entries` are written in order. */
  ghost function WithEntries(p: seq<Byte>, vs: nat, start: nat, entries: seq<Entry>): (q: seq<Byte>)
    requires |p| == PAGE_SIZE && EntriesOk(vs, entries)
    requires start + Span(vs, |entries|) <= PAGE_SIZE && start >= HEADER_SIZE
    ensures |q| == PAGE_SIZE
  {
    if entries == [] then p
    else
      var i := |entries| - 1;
      WithEntry(WithEntries(p, vs, start, entries[..i]), vs, start, i, entries[i])
  }

  lemma {:induction false} AllWritten(p: seq<Byte>, vs: nat, start: nat, entries: seq<Entry>)
    requires |p| == PAGE_SIZE && EntriesOk(vs, entries)
    requires start + Span(vs, |entries|) <= PAGE_SIZE && start >= DataStart(|entries|)
    ensures Written(WithEntries(p, vs, start, entries), vs, start, entries)
  {
    hide WithEntry, Splice;
    if entries != [] {
      var i := |entries| - 1;
      AllWritten(p, vs, start, entries[..i]);
      EntryWritten(WithEntries(p, vs, start, entries[..i]), vs, start, entries[i], entries[..i]);
      assert entries[..i] + [entries[i]] == entries;
    }
  }

  /** Lays out the offset table and the entries; the header is written afterwards. */
  method PackEntries(page: array<Byte>, entries: seq<Entry>, vs: nat) returns (r: Result<(), Error>)
    requires page.Length == PAGE_SIZE
    modifies page
    ensures r.Ok? <==> Encodable(vs, entries)
    ensures r.Ok? ==> Written(page[..], vs, DataStart(|entries|), entries)
    ensures r.Err? ==> exists i :: FailsAt(vs, entries, i, r.error)
  {
    hide WithEntry, Splice, Written, Packed, OffsetTable, AsU16, NoneFails, FailsAt;
    var start := DataStart(AsU16(|entries|));
    var cursor := start;
    var index := 0;
    ghost var p0, prefix := page[..], [];
    assert NoneFails(vs, entries, start, 0) by { NoneFailsYet(vs, entries, start); }
    while index < |entries|
      invariant 0 <= index <= |entries| && prefix == entries[..index]
      invariant cursor == start + Span(vs, index)
      invariant EntriesOk(vs, prefix)
      invariant index > 0 ==> cursor <= PAGE_SIZE && page[..] == WithEntries(p0, vs, start, prefix)
      invariant index == 0 ==> page[..] == p0
      invariant NoneFails(vs, entries, start, index)
    {
      var e := entries[index];
      var bad := EntryError(vs, e, cursor);
      if bad.Some? {
        SpanMonotone(vs, index, |entries|);
        FirstFailure(vs, entries, index, bad.value);
        return Err(bad.value);
      }
      NoneFailsOn(vs, entries, start, index);
      PutEntry(page, vs, start, index, e);
      prefix := prefix + [e];
      assert prefix[..index] == entries[..index];
      cursor, index := cursor + KEY_SIZE + vs, index + 1;
    }
    assert prefix == entries;
    SpanMonotone(vs, 0, |entries|);
    AllWritten(p0, vs, start, entries);
    return Ok(());
  }

  method EncodeEntries(page: array<Byte>, entries: seq<Entry>, header: Header) returns (r: Result<(), Error>)
    requires page.Length == PAGE_SIZE && HeaderOk(header)
    modifies page
    ensures r.Ok? <==> Encodable(EntryValueSize(header.pageType), entries)
    ensures r.Ok? ==> Holds(page[..], Node(header.(keyCount := |entries|), entries))
  {
    r := PackEntries(page, entries, EntryValueSize(header.pageType));
    if r.Ok? {
      var h := header.(keyCount := |entries|);
      HeaderCompletes(page[..], h, entries);
      WriteHeader(page, h);
    }
  }

  lemma {:induction false} HeaderUntouched(p: seq<Byte>, vs: nat, start: nat, entries: seq<Entry>)
    requires |p| == PAGE_SIZE && EntriesOk(vs, entries)
    requires start + Span(vs, |entries|) <= PAGE_SIZE && start >= DataStart(|entries|)
    ensures WithEntries(p, vs, start, entries)[..HEADER_SIZE] == p[..HEADER_SIZE]
  {
    hide Splice;
    if entries != [] {
      var i := |entries| - 1;
      HeaderUntouched(p, vs, start, entries[..i]);
      var q0 := WithEntries(p, vs, start, entries[..i]);
      var cursor, e := start + Span(vs, i), entries[i];
      var q1 := Splice(q0, DataStart(i), ToLe(Span(vs, i), 2));
      var q2 := Splice(q1, cursor, e.key);
      SpliceElsewhere(q0, DataStart(i), ToLe(Span(vs, i), 2), 0, HEADER_SIZE);
      SpliceElsewhere(q1, cursor, e.key, 0, HEADER_SIZE);
      SpliceElsewhere(q2, cursor + KEY_SIZE, e.value, 0, HEADER_SIZE);
    }
  }

  /** Writing the header first and the entries after it completes the page too. */
  lemma {:induction false} EntriesComplete(p: seq<Byte>, h: Header, entries: seq<Entry>)
    requires |p| == PAGE_SIZE && HeaderOk(h) && h.keyCount == |entries|
    requires Encodable(EntryValueSize(h.pageType), entries)
    requires p[..HEADER_SIZE] == HeaderBytes(h)
    ensures Holds(WithEntries(p, EntryValueSize(h.pageType), DataStart(|entries|), entries), Node(h, entries))
  {
    hide WithEntries, Packed, OffsetTable, HeaderBytes, EntryValueSize;
    var vs := EntryValueSize(h.pageType);
    AllWritten(p, vs, DataStart(|entries|), entries);
    HeaderUntouched(p, vs, DataStart(|entries|), entries);
  }

  method NewPage(pageType: Byte, level: Byte) returns (page: array<Byte>)
    ensures fresh(page) && page.Length == PAGE_SIZE
    ensures Holds(page[..], Node(Header(pageType, level, 0, None, None, 0, None), []))
  {
    page := new Byte[PAGE_SIZE](i => 0);
    var h := Header(pageType, level, 0, None, None, 0, None);
    HeaderCompletes(page[..], h, []);
    WriteHeader(page, h);
  }

  // -------------------------------------------------------- keys and links

  /** Key number `i` of a node, as a number. */
  function K(node: Node, i: nat): nat
    requires i < |node.entries|
  {
    Num(node.entries[i].key)
  }

  ghost predicate Sorted(node: Node) {
    forall i, j :: 0 <= i < j < |node.entries| ==> K(node, i) < K(node, j)
  }

  predicate IsLeaf(node: Node) {
    node.header.pageType == PAGE_TYPE_LEAF
  }

  /** Child number `i` of an internal node: the left child, then one per entry. */
  function Kid(node: Node, i: nat): PageId
    requires i <= |node.entries|
  {
    if i == 0 then node.header.leftChild else FromLe(node.entries[i - 1].value)
  }

  lemma HoldsCount(page: seq<Byte>, node: Node)
    requires Holds(page, node)
    ensures |page| == PAGE_SIZE && ParseHeader(page) == node.header && node.header.keyCount == |node.entries|
  {
    HeaderRoundTrip(page, node.header);
  }

  lemma KeyLength(page: seq<Byte>, node: Node, i: nat)
    requires Holds(page, node) && i < |node.entries|
    ensures |node.entries[i].key| == KEY_SIZE
  {
    assert EntryOk(EntryValueSize(node.header.pageType), node.entries[i]);
  }

  /** Entry number `mid`'s key against `key`: negative when below it, positive when above. */
  method CompareKeyAt(page: seq<Byte>, mid: nat, key: seq<Byte>, ghost node: Node) returns (c: int)
    requires Holds(page, node) && mid < |node.entries| && |key| == KEY_SIZE
    ensures c < 0 <==> K(node, mid) < Num(key)
    ensures c == 0 <==> node.entries[mid].key == key
    ensures c > 0 <==> Num(key) < K(node, mid)
  {
    HoldsReadsAt(page, node, mid);
    KeyLength(page, node, mid);
    var midKey := EntryKeyAt(page, mid).value;
    LexIsNumeric(midKey, key);
    LexIsNumeric(key, midKey);
    c := if midKey == key then 0 else if LexLess(midKey, key) then -1 else 1;
  }

  method FindKeyPos(page: seq<Byte>, key: seq<Byte>, ghost node: Node) returns (found: bool, pos: nat)
    requires Holds(page, node) && Sorted(node) && |key| == KEY_SIZE
    ensures pos <= |node.entries|
    ensures found ==> pos < |node.entries| && node.entries[pos].key == key
    ensures !found ==> forall i :: 0 <= i < pos ==> K(node, i) < Num(key)
    ensures !found ==> forall i :: pos <= i < |node.entries| ==> Num(key) < K(node, i)
  {
    hide Holds, ParseHeader, Num, K;
    HoldsCount(page, node);
    var lo, hi := 0, ParseHeader(page).keyCount;
    while lo < hi
      invariant 0 <= lo <= hi <= |node.entries|
      invariant forall i :: 0 <= i < lo ==> K(node, i) < Num(key)
      invariant forall i :: hi <= i < |node.entries| ==> Num(key) < K(node, i)
    {
      var mid := (lo + hi) / 2;
      var c := CompareKeyAt(page, mid, key, node);
      if c == 0 {
        return true, mid;
      } else if c < 0 {
        lo := mid + 1;
      } else {
        hi := mid;
      }
    }
    return false, lo;
  }

  /** The child to descend into: the number of separators at or below `key`. */
  method ChildInsertPosForKey(page: seq<Byte>, key: seq<Byte>, ghost node: Node) returns (pos: nat)
    requires Holds(page, node) && Sorted(node) && |key| == KEY_SIZE
    ensures pos <= |node.entries|
    ensures forall i :: 0 <= i < pos ==> K(node, i) <= Num(key)
    ensures forall i :: pos <= i < |node.entries| ==> Num(key) < K(node, i)
  {
    hide Holds, ParseHeader, Num, K;
    HoldsCount(page, node);
    var lo, hi := 0, ParseHeader(page).keyCount;
    while lo < hi
      invariant 0 <= lo <= hi <= |node.entries|
      invariant forall i :: 0 <= i < lo ==> K(node, i) <= Num(key)
      invariant forall i :: hi <= i < |node.entries| ==> Num(key) < K(node, i)
    {
      var mid := (lo + hi) / 2;
      var c := CompareKeyAt(page, mid, key, node);
      if c > 0 {
        hi := mid;
      } else {
        lo := mid + 1;
      }
    }
    return lo;
  }

  method LowerBoundInLeaf(page: seq<Byte>, key: seq<Byte>, ghost node: Node) returns (pos: nat)
    requires Holds(page, node) && Sorted(node) && |key| == KEY_SIZE
    ensures pos <= |node.entries|
    ensures forall i :: 0 <= i < pos ==> K(node, i) < Num(key)
    ensures forall i :: pos <= i < |node.entries| ==> Num(key) <= K(node, i)
  {
    hide Holds, ParseHeader, Num, K;
    HoldsCount(page, node);
    var lo, hi := 0, ParseHeader(page).keyCount;
    while lo < hi
      invariant 0 <= lo <= hi <= |node.entries|
      invariant forall i :: 0 <= i < lo ==> K(node, i) < Num(key)
      invariant forall i :: hi <= i < |node.entries| ==> Num(key) <= K(node, i)
    {
      var mid := (lo + hi) / 2;
      var c := CompareKeyAt(page, mid, key, node);
      if c < 0 {
        lo := mid + 1;
      } else {
        hi := mid;
      }
    }
    return lo;
  }

  function ChildIdAtPos(page: seq<Byte>, pos: nat): PageId
    requires TableInside(page)
  {
    if pos == 0 then ParseHeader(page).leftChild
    else
      match EntryValueAt(page, pos - 1)
      case Some(v) => FromLe(v)
      case None => ParseHeader(page).leftChild
  }

  lemma ChildIdIsKid(page: seq<Byte>, node: Node, pos: nat)
    requires Holds(page, node) && pos <= |node.entries|
    ensures TableInside(page) && ChildIdAtPos(page, pos) == Kid(node, pos)
  {
    HoldsReads(page, node);
  }

  // ------------------------------------------------------------- updates

  /** Rewriting the header in place changes only the header fields. */
  lemma HeaderRewritten(page: seq<Byte>, node: Node, h: Header)
    requires Holds(page, node) && HeaderOk(h)
    requires h.pageType == node.header.pageType && h.keyCount == node.header.keyCount
    ensures Holds(Splice(page, 0, HeaderBytes(h)), Node(h, node.entries))
  {
    hide HeaderBytes, Packed, OffsetTable, EntryValueSize;
    HeaderCompletes(page, h, node.entries);
  }

  function InsertedAt(entries: seq<Entry>, pos: nat, e: Entry): (out: seq<Entry>)
    requires pos <= |entries|
    ensures |out| == |entries| + 1
  {
    entries[..pos] + [e] + entries[pos..]
  }

  /** Entry number `pos` of the page being built: the new one, or an old one shifted past it. */
  method EntryForRebuild(page: seq<Byte>, insertPos: nat, e: Entry, pos: nat, ghost node: Node) returns (out: Entry)
    requires Holds(page, node) && insertPos <= |node.entries| && pos <= |node.entries|
    ensures out == InsertedAt(node.entries, insertPos, e)[pos]
  {
    hide Holds, EntryKeyAt, EntryValueAt, TableInside, ParseHeader;
    if pos == insertPos {
      return e;
    }
    var idx := if pos < insertPos then pos else pos - 1;
    HoldsReadsAt(page, node, idx);
    return Entry(EntryKeyAt(page, idx).value, EntryValueAt(page, idx).value);
  }

  lemma InsertedEncodable(node: Node, insertPos: nat, e: Entry)
    requires EntriesOk(EntryValueSize(node.header.pageType), node.entries)
    requires HasRoomForOneMore(node.header) && node.header.keyCount == |node.entries|
    requires insertPos <= |node.entries| && EntryOk(EntryValueSize(node.header.pageType), e)
    ensures Encodable(EntryValueSize(node.header.pageType), InsertedAt(node.entries, insertPos, e))
    ensures node.header.keyCount + 1 < 0x1_0000
  {
  }

  method RebuildPageWithInsert(page: seq<Byte>, insertPos: nat, key: seq<Byte>, value: seq<Byte>, ghost node: Node)
    returns (out: seq<Byte>)
    requires Holds(page, node) && HasRoomForOneMore(node.header)
    requires insertPos <= |node.entries|
    requires EntryOk(EntryValueSize(node.header.pageType), Entry(key, value))
    ensures Holds(out, Node(node.header.(keyCount := |node.entries| + 1),
                            InsertedAt(node.entries, insertPos, Entry(key, value))))
  {
    HeaderRoundTrip(page, node.header);
    var header := ParseHeader(page);
    InsertedEncodable(node, insertPos, Entry(key, value));
    var newHeader := header.(keyCount := header.keyCount + 1);
    var buf := NewPage(header.pageType, header.level);
    WriteHeader(buf, newHeader);
    CopyEntriesWithInsert(buf, page, insertPos, Entry(key, value), node);
    out := buf[..];
  }

  method CopyEntriesWithInsert(buf: array<Byte>, page: seq<Byte>, insertPos: nat, e: Entry, ghost node: Node)
    requires buf.Length == PAGE_SIZE && Holds(page, node) && insertPos <= |node.entries|
    requires Encodable(EntryValueSize(node.header.pageType), InsertedAt(node.entries, insertPos, e))
    requires HeaderOk(node.header.(keyCount := |node.entries| + 1))
    requires buf[..HEADER_SIZE] == HeaderBytes(node.header.(keyCount := |node.entries| + 1))
    modifies buf
    ensures Holds(buf[..], Node(node.header.(keyCount := |node.entries| + 1), InsertedAt(node.entries, insertPos, e)))
  {
    hide WithEntry, Splice, Packed, OffsetTable, Holds, HeaderBytes, ParseHeader, EntryValueSize, InsertedAt;
    HoldsCount(page, node);
    var vs := EntryValueSize(ParseHeader(page).pageType);
    var total := ParseHeader(page).keyCount + 1;
    var start := DataStart(total);
    var pos := 0;
    ghost var p0, target := buf[..], InsertedAt(node.entries, insertPos, e);
    ghost var prefix := [];
    while pos < total
      invariant 0 <= pos <= total && prefix == target[..pos]
      invariant EntriesOk(vs, prefix) && start + Span(vs, pos) <= PAGE_SIZE
      invariant buf[..] == WithEntries(p0, vs, start, prefix)
    {
      var entry := EntryForRebuild(page, insertPos, e, pos, node);
      SpanMonotone(vs, pos, total);
      PutEntry(buf, vs, start, pos, entry);
      prefix := prefix + [entry];
      assert prefix[..pos] == target[..pos];
      pos := pos + 1;
    }
    assert prefix == target;
    EntriesComplete(p0, node.header.(keyCount := total), target);
  }
}
