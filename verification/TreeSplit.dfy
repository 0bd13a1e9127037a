/**
 Splitting a full page (src/page_bptree.rs, `split_leaf` and `split_internal`)
 and overwriting one value in place, proved against node-level functions.
 */
module TreeSplit {
  import opened Bytes
  import opened Params
  import opened KeyOrder
  import opened TreePage

  function Mid(node: Node): nat {
    |node.entries| / 2
  }

  /** The separator a split hands to the parent. */
  function Separator(node: Node): seq<Byte>
    requires node.entries != []
  {
    node.entries[Mid(node)].key
  }

  function LeafLeft(node: Node, rightId: PageId): Node
    requires node.entries != []
  {
    Node(node.header.(keyCount := Mid(node), highKey := Some(Separator(node)), nextLeaf := Some(rightId)),
         node.entries[..Mid(node)])
  }

  function LeafRight(node: Node, leftId: PageId): Node {
    Node(node.header.(keyCount := |node.entries| - Mid(node), prevLeaf := Some(leftId)), node.entries[Mid(node)..])
  }

  function InnerLeft(node: Node): Node
    requires node.entries != []
  {
    Node(node.header.(keyCount := Mid(node), highKey := Some(Separator(node))), node.entries[..Mid(node)])
  }

  function InnerRight(node: Node): Node
    requires node.entries != []
  {
    Node(node.header.(keyCount := |node.entries| - Mid(node) - 1, leftChild := FromLe(node.entries[Mid(node)].value)),
         node.entries[Mid(node) + 1..])
  }

  function SplitLeft(node: Node, rightId: PageId): Node
    requires node.entries != []
  {
    if IsLeaf(node) then LeafLeft(node, rightId) else InnerLeft(node)
  }

  function SplitRight(node: Node, leftId: PageId): Node
    requires node.entries != []
  {
    if IsLeaf(node) then LeafRight(node, leftId) else InnerRight(node)
  }

  /**
   * A split cuts a page in the middle and loses nothing: a leaf's entries are shared out, and of an
   * internal page's entries the middle one goes up, its key as separator and its child to the right.
   */
  lemma SplitHalves(node: Node, leftId: PageId, rightId: PageId)
    requires node.entries != []
    ensures var (l, r) := (SplitLeft(node, rightId), SplitRight(node, leftId));
            && l.header.keyCount == |l.entries| && r.header.keyCount == |r.entries|
            && (IsLeaf(node) ==>
                  && l.entries + r.entries == node.entries && |l.entries| <= |r.entries| <= |l.entries| + 1
                  && r.entries[0].key == Separator(node)
                  && l.header.nextLeaf == Some(rightId) && r.header.prevLeaf == Some(leftId)
                  && r.header.nextLeaf == node.header.nextLeaf && l.header.prevLeaf == node.header.prevLeaf)
            && (!IsLeaf(node) ==>
                  exists e: Entry ::
                    && l.entries + [e] + r.entries == node.entries && |r.entries| <= |l.entries| <= |r.entries| + 1
                    && e.key == Separator(node) && r.header.leftChild == FromLe(e.value)
                    && l.header.leftChild == node.header.leftChild)
  {
    if !IsLeaf(node) {
      var (l, r, e) := (SplitLeft(node, rightId), SplitRight(node, leftId), node.entries[Mid(node)]);
      assert l.entries + [e] + r.entries == node.entries;
    }
  }

  /** Part of a page's entries still fits a page. */
  lemma SliceEncodable(vs: nat, entries: seq<Entry>, lo: nat, hi: nat)
    requires Encodable(vs, entries) && lo <= hi <= |entries|
    ensures Encodable(vs, entries[lo..hi])
  {
    SpanMonotone(vs, hi - lo, |entries|);
  }

  method EncodeSlice(entries: seq<Entry>, lo: nat, hi: nat, header: Header) returns (page: array<Byte>)
    requires lo <= hi <= |entries| && HeaderOk(header)
    requires Encodable(EntryValueSize(header.pageType), entries)
    ensures fresh(page) && page.Length == PAGE_SIZE
    ensures Holds(page[..], Node(header.(keyCount := hi - lo), entries[lo..hi]))
  {
    hide Holds, Encodable, HeaderOk, EntryValueSize;
    SliceEncodable(EntryValueSize(header.pageType), entries, lo, hi);
    page := NewPage(header.pageType, header.level);
    var r := EncodeEntries(page, entries[lo..hi], header);
  }

  lemma HoldsParts(page: seq<Byte>, node: Node)
    requires Holds(page, node)
    ensures HeaderOk(node.header) && node.header.keyCount == |node.entries|
    ensures Encodable(EntryValueSize(node.header.pageType), node.entries)
    ensures forall i :: 0 <= i < |node.entries| ==> |node.entries[i].key| == KEY_SIZE
  {
    forall i | 0 <= i < |node.entries|
      ensures |node.entries[i].key| == KEY_SIZE
    {
      KeyLength(page, node, i);
    }
  }

  method SplitLeaf(page: seq<Byte>, entries: seq<Entry>, ghost node: Node)
    returns (sep: seq<Byte>, left: array<Byte>, right: array<Byte>)
    requires Holds(page, node) && entries == node.entries && |entries| > 0
    ensures fresh(left) && fresh(right) && left != right
    ensures left.Length == PAGE_SIZE && right.Length == PAGE_SIZE
    ensures sep == Separator(node)
    ensures Holds(left[..], InnerLeft(node))
    ensures Holds(right[..], Node(node.header.(keyCount := |entries| - Mid(node)), entries[Mid(node)..]))
  {
    hide Holds, Encodable, ParseHeader, EntryValueSize;
    HoldsCount(page, node);
    HoldsParts(page, node);
    var header := ParseHeader(page);
    var mid := |entries| / 2;
    sep := entries[mid].key;
    right := EncodeSlice(entries, mid, |entries|, header);
    left := EncodeSlice(entries, 0, mid, header.(highKey := Some(sep)));
    assert entries[0..mid] == entries[..mid] && entries[mid..|entries|] == entries[mid..];
  }

  method SplitInternal(page: seq<Byte>, entries: seq<Entry>, ghost node: Node)
    returns (sep: seq<Byte>, left: array<Byte>, right: array<Byte>)
    requires Holds(page, node) && entries == node.entries && |entries| > 0
    requires node.header.pageType == PAGE_TYPE_INTERNAL
    ensures fresh(left) && fresh(right) && left != right
    ensures left.Length == PAGE_SIZE && right.Length == PAGE_SIZE
    ensures sep == Separator(node)
    ensures Holds(left[..], InnerLeft(node))
    ensures Holds(right[..], InnerRight(node))
  {
    hide Holds, Encodable, ParseHeader, EntryValueSize;
    HoldsCount(page, node);
    HoldsParts(page, node);
    var header := ParseHeader(page);
    var mid := |entries| / 2;
    sep := entries[mid].key;
    ChildIdFits(page, node, mid);
    right := EncodeSlice(entries, mid + 1, |entries|, header.(leftChild := FromLe(entries[mid].value)));
    left := EncodeSlice(entries, 0, mid, header.(highKey := Some(sep)));
    assert entries[0..mid] == entries[..mid] && entries[mid + 1..|entries|] == entries[mid + 1..];
  }

  lemma ChildIdFits(page: seq<Byte>, node: Node, i: nat)
    requires Holds(page, node) && i < |node.entries| && node.header.pageType == PAGE_TYPE_INTERNAL
    ensures |node.entries[i].value| == CHILD_ID_SIZE && FromLe(node.entries[i].value) < U64_LIMIT
  {
    hide OffsetTable, Packed, HeaderBytes;
    assert EntryOk(EntryValueSize(node.header.pageType), node.entries[i]);
    Pow256Values();
  }

  /** Both halves of a full page, with the leaf links spliced around the new right page. */
  method SplitPage(page: seq<Byte>, childId: PageId, rightId: PageId, ghost node: Node)
    returns (sep: seq<Byte>, leftPage: seq<Byte>, rightPage: seq<Byte>)
    requires Holds(page, node) && |node.entries| > 0
    requires IsLeaf(node) || node.header.pageType == PAGE_TYPE_INTERNAL
    requires 0 < childId < U64_LIMIT && 0 < rightId < U64_LIMIT
    ensures sep == Separator(node)
    ensures Holds(leftPage, SplitLeft(node, rightId))
    ensures Holds(rightPage, SplitRight(node, childId))
  {
    hide Holds, ParseHeader, HeaderBytes, Splice, InnerLeft, InnerRight;
    HoldsCount(page, node);
    var entries := CollectEntries(page, node);
    var left, right;
    if ParseHeader(page).pageType == PAGE_TYPE_LEAF {
      sep, left, right := SplitLeaf(page, entries, node);
      RelinkLeft(left, rightId, node);
      RelinkRight(right, childId, ParseHeader(page).nextLeaf, node);
    } else {
      sep, left, right := SplitInternal(page, entries, node);
    }
    leftPage, rightPage := left[..], right[..];
  }

  method RelinkLeft(left: array<Byte>, rightId: PageId, ghost node: Node)
    requires left.Length == PAGE_SIZE && |node.entries| > 0 && 0 < rightId < U64_LIMIT
    requires Holds(left[..], InnerLeft(node))
    modifies left
    ensures Holds(left[..], LeafLeft(node, rightId))
  {
    hide Holds, ParseHeader, HeaderBytes, Splice;
    ghost var before := left[..];
    HoldsCount(before, InnerLeft(node));
    HoldsParts(before, InnerLeft(node));
    var header := ParseHeader(left[..]).(nextLeaf := Some(rightId));
    HeaderRewritten(before, InnerLeft(node), header);
    WriteHeader(left, header);
  }

  method RelinkRight(right: array<Byte>, leftId: PageId, next: Option<PageId>, ghost node: Node)
    requires right.Length == PAGE_SIZE && 0 < leftId < U64_LIMIT && next == node.header.nextLeaf
    requires Holds(right[..], Node(node.header.(keyCount := |node.entries| - Mid(node)), node.entries[Mid(node)..]))
    modifies right
    ensures Holds(right[..], LeafRight(node, leftId))
  {
    hide Holds, ParseHeader, HeaderBytes, Splice;
    ghost var before, old' := right[..], Node(node.header.(keyCount := |node.entries| - Mid(node)),
                                              node.entries[Mid(node)..]);
    HoldsCount(before, old');
    HoldsParts(before, old');
    var header := ParseHeader(right[..]).(prevLeaf := Some(leftId), nextLeaf := next);
    HeaderRewritten(before, old', header);
    WriteHeader(right, header);
  }

  // ------------------------------------------------ overwriting one value

  lemma {:induction false} PackedUpdate(vs: nat, entries: seq<Entry>, i: nat, v: seq<Byte>)
    requires EntriesOk(vs, entries) && i < |entries| && |v| == vs
    requires Span(vs, i) + KEY_SIZE + vs <= |Packed(entries)|
    ensures Packed(entries[i := Entry(entries[i].key, v)]) == Splice(Packed(entries), Span(vs, i) + KEY_SIZE, v)
  {
    hide Splice, Packed, EntriesOk;
    var n := |entries|;
    var init, last := entries[..n - 1], entries[n - 1];
    var updated := entries[i := Entry(entries[i].key, v)];
    assert EntriesOk(vs, init) && EntryOk(vs, last) by { EntriesSplit(vs, entries); }
    PackedLength(vs, init);
    assert init + [last] == entries;
    if i == n - 1 {
      PackedUpdateLast(init, last, v);
      assert updated == init + [Entry(last.key, v)];
    } else {
      PackedAt(vs, init, i);
      PackedUpdate(vs, init, i, v);
      PackedUpdateInit(init, init[i := Entry(init[i].key, v)], last, Span(vs, i) + KEY_SIZE, v);
      assert updated == init[i := Entry(init[i].key, v)] + [last];
    }
  }

  lemma EntriesSplit(vs: nat, entries: seq<Entry>)
    requires EntriesOk(vs, entries) && entries != []
    ensures EntriesOk(vs, entries[..|entries| - 1]) && EntryOk(vs, entries[|entries| - 1])
  {
  }

  lemma {:induction false} PackedUpdateLast(init: seq<Entry>, last: Entry, v: seq<Byte>)
    requires |last.value| == |v|
    ensures Packed(init + [Entry(last.key, v)]) == Splice(Packed(init + [last]), |Packed(init)| + |last.key|, v)
  {
    hide Splice, Packed;
    PackedSnoc(init, last);
    PackedSnoc(init, Entry(last.key, v));
    Assoc(Packed(init), last.key, last.value);
    Assoc(Packed(init), last.key, v);
    SpliceTail(Packed(init) + last.key, last.value, v);
  }

  lemma Assoc(a: seq<Byte>, b: seq<Byte>, c: seq<Byte>)
    ensures a + (b + c) == a + b + c
  {
  }

  lemma {:induction false} PackedUpdateInit(init: seq<Entry>, init2: seq<Entry>, last: Entry, off: nat, v: seq<Byte>)
    requires off + |v| <= |Packed(init)| && Packed(init2) == Splice(Packed(init), off, v)
    ensures off + |v| <= |Packed(init + [last])| && Packed(init2 + [last]) == Splice(Packed(init + [last]), off, v)
  {
    hide Splice, Packed;
    PackedSnoc(init, last);
    PackedSnoc(init2, last);
    SpliceHead(Packed(init), last.key + last.value, off, v);
  }

  lemma SpliceTail(a: seq<Byte>, b: seq<Byte>, v: seq<Byte>)
    requires |b| == |v|
    ensures Splice(a + b, |a|, v) == a + v
  {
  }

  lemma SpliceHead(a: seq<Byte>, b: seq<Byte>, off: nat, v: seq<Byte>)
    requires off + |v| <= |a|
    ensures Splice(a + b, off, v) == Splice(a, off, v) + b
  {
    assert (a + b)[off + |v|..] == a[off + |v|..] + b;
  }

  ghost function WithValue(node: Node, i: nat, v: seq<Byte>): Node
    requires i < |node.entries|
  {
    Node(node.header, node.entries[i := Entry(node.entries[i].key, v)])
  }

  lemma ValueOverwritten(page: seq<Byte>, node: Node, i: nat, v: seq<Byte>)
    requires Holds(page, node) && i < |node.entries| && |v| == EntryValueSize(node.header.pageType)
    ensures TableInside(page) && i < ParseHeader(page).keyCount
    ensures EntryOffset(page, i) + KEY_SIZE + |v| <= PAGE_SIZE
    ensures Holds(Splice(page, EntryOffset(page, i) + KEY_SIZE, v), WithValue(node, i, v))
  {
    hide OffsetTable, Packed, HeaderBytes, EntryValueSize, ParseHeader, Splice;
    var n, vs := |node.entries|, EntryValueSize(node.header.pageType);
    HoldsOffsetAt(page, node, i);
    HoldsCount(page, node);
    HoldsBytesAt(page, node, i);
    var start, end, at := DataStart(n), Footprint(vs, n), Span(vs, i) + KEY_SIZE;
    PackedLength(vs, node.entries);
    SpanMonotone(vs, i, n);
    PackedUpdate(vs, node.entries, i, v);
    SpliceElsewhere(page, start + at, v, 0, HEADER_SIZE);
    SpliceElsewhere(page, start + at, v, HEADER_SIZE, start);
    SpliceInside(page, start, end, at, v);
    assert EntriesOk(vs, WithValue(node, i, v).entries) by {
      assert EntryOk(vs, node.entries[i]);
    }
    var q := Splice(page, start + at, v);
    assert q[..HEADER_SIZE] == q[0..HEADER_SIZE] && page[..HEADER_SIZE] == page[0..HEADER_SIZE];
  }

  /** Overwriting inside a window is overwriting the window's bytes. */
  lemma SpliceInside(s: seq<Byte>, lo: nat, hi: nat, at: nat, v: seq<Byte>)
    requires lo <= hi <= |s| && at + |v| <= hi - lo
    ensures Splice(s, lo + at, v)[lo..hi] == Splice(s[lo..hi], at, v)
  {
    var t, mid := Splice(s, lo + at, v), lo + at + |v|;
    SpliceElsewhere(s, lo + at, v, lo, lo + at);
    SpliceElsewhere(s, lo + at, v, mid, hi);
    JoinSlices(t, lo, lo + at, mid);
    JoinSlices(t, lo, mid, hi);
    SubSlice(s, lo, hi, 0, at);
    SubSlice(s, lo, hi, at + |v|, hi - lo);
    assert t[lo..hi] == s[lo..hi][0..at] + v + s[lo..hi][at + |v|..hi - lo];
  }

  /** The value bytes of an existing entry, replaced in the page buffer. */
  method OverwriteValue(page: seq<Byte>, pos: nat, value: seq<Byte>, ghost node: Node) returns (out: seq<Byte>)
    requires Holds(page, node) && pos < |node.entries| && |value| == EntryValueSize(node.header.pageType)
    ensures Holds(out, WithValue(node, pos, value))
  {
    hide Holds, Splice, ParseHeader, EntryValueSize, WithValue;
    ValueOverwritten(page, node, pos, value);
    HoldsCount(page, node);
    var buf := new Byte[PAGE_SIZE](i requires 0 <= i < |page| => page[i]);
    assert buf[..] == page;
    CopyInto(buf, EntryOffset(page, pos) + KEY_SIZE, value);
    out := buf[..];
  }
}
