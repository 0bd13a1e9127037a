/**
 * The secondary posting log: a chain of pages that every commit extends
 * (src/embedded_compute.rs) and recovery walks from its head (src/embedded_compute_recovery.rs).
 */
module PostingLog {
  import opened Bytes
  import opened Params
  import opened SecondaryIndex
  import opened PostingPage

  const BASE_PAGE_ID: PageId := 3_000_000

  type Pages = map<PageId, seq<Byte>>

  /** The record's lengths fit their fields and a page has room for it. */
  predicate Storable(r: Rec) {
    RecFits(r) && OFF_DATA + |RecBytes(r)| <= PAGE_SIZE
  }

  // ---- The chain ----

  function NextId(chain: seq<PageId>, i: int): PageId {
    if 0 <= i + 1 < |chain| then chain[i + 1] else 0
  }

  ghost predicate LinkOk(pages: Pages, chain: seq<PageId>, parts: seq<seq<Rec>>, i: nat)
    requires i < |chain| == |parts|
  {
    chain[i] in pages && Stores(pages[chain[i]], NextId(chain, i), parts[i])
  }

  /** The pages of `chain` are linked in order and page `i` holds the records `parts[i]`. */
  ghost predicate ChainOk(pages: Pages, chain: seq<PageId>, parts: seq<seq<Rec>>, next: PageId) {
    && |chain| == |parts| && BASE_PAGE_ID <= next
    && (forall i, j :: 0 <= i < j < |chain| ==> chain[i] != chain[j])
    && (forall i :: 0 <= i < |chain| ==> BASE_PAGE_ID <= chain[i] < next)
    && (forall i :: 0 <= i < |chain| ==> LinkOk(pages, chain, parts, i))
  }

  ghost function Flat(parts: seq<seq<Rec>>): seq<Rec> {
    if parts == [] then [] else Flat(parts[..|parts| - 1]) + parts[|parts| - 1]
  }

  function Tagged(lsn: nat, ms: seq<Mutation>): (recs: seq<Rec>)
    ensures |recs| == |ms| && forall i :: 0 <= i < |ms| ==> recs[i] == Rec(lsn, ms[i])
  {
    seq(|ms|, i requires 0 <= i < |ms| => Rec(lsn, ms[i]))
  }

  lemma FlatGrow(parts: seq<seq<Rec>>, r: Rec)
    requires parts != []
    ensures var n := |parts| - 1; Flat(parts[n := parts[n] + [r]]) == Flat(parts) + [r]
  {
    var n := |parts| - 1;
    var parts2 := parts[n := parts[n] + [r]];
    assert parts2[..n] == parts[..n];
    assert Flat(parts[..n]) + (parts[n] + [r]) == Flat(parts[..n]) + parts[n] + [r];
  }

  lemma {:induction false} FlatPush(parts: seq<seq<Rec>>, part: seq<Rec>)
    ensures Flat(parts + [part]) == Flat(parts) + part
  {
    assert (parts + [part])[..|parts|] == parts;
  }

  // The last page now holds one more record.
  lemma TailGrows(pages: Pages, chain: seq<PageId>, parts: seq<seq<Rec>>, next: PageId, r: Rec, page: seq<Byte>)
    requires ChainOk(pages, chain, parts, next) && chain != []
    requires var n := |chain| - 1; Stores(page, 0, parts[n] + [r])
    ensures var n := |chain| - 1;
            ChainOk(pages[chain[n] := page], chain, parts[n := parts[n] + [r]], next)
  {
    hide Stores;
    var n := |chain| - 1;
    var (pages2, parts2) := (pages[chain[n] := page], parts[n := parts[n] + [r]]);
    forall i | 0 <= i < |chain| ensures LinkOk(pages2, chain, parts2, i) {
      assert LinkOk(pages, chain, parts, i);
    }
  }

  // The last page now points to a new one.
  lemma ChainGrows(pages: Pages, chain: seq<PageId>, parts: seq<seq<Rec>>, next: PageId, part: seq<Rec>,
                   tail: seq<Byte>, page: seq<Byte>)
    requires ChainOk(pages, chain, parts, next)
    requires chain != [] ==> Stores(tail, next, parts[|chain| - 1])
    requires Stores(page, 0, part)
    ensures var pages1 := if chain == [] then pages else pages[chain[|chain| - 1] := tail];
            ChainOk(pages1[next := page], chain + [next], parts + [part], next + 1)
  {
    hide Stores;
    var n := |chain| - 1;
    var pages1 := if chain == [] then pages else pages[chain[n] := tail];
    var (pages2, chain2, parts2) := (pages1[next := page], chain + [next], parts + [part]);
    forall i | 0 <= i < |chain2| ensures LinkOk(pages2, chain2, parts2, i) {
      if i < n {
        assert LinkOk(pages, chain, parts, i);
      }
    }
  }

  // ---- Replay ----

  ghost function ApplyRecs(ix: Indexes, recs: seq<Rec>): Indexes {
    if recs == [] then ix else ApplyOne(ApplyRecs(ix, recs[..|recs| - 1]), recs[|recs| - 1].lsn, recs[|recs| - 1].m)
  }

  lemma {:induction false} ApplyRecsConcat(ix: Indexes, a: seq<Rec>, b: seq<Rec>)
    ensures ApplyRecs(ix, a + b) == ApplyRecs(ApplyRecs(ix, a), b)
    decreases |b|
  {
    if b == [] {
      assert a + b == a;
    } else {
      ApplyRecsConcat(ix, a, b[..|b| - 1]);
      assert (a + b)[..|a + b| - 1] == a + b[..|b| - 1];
    }
  }

  /** Replaying a commit's records one by one rebuilds what applying the commit at once built. */
  lemma {:induction false} ReplayIsApply(ix: Indexes, lsn: nat, ms: seq<Mutation>)
    ensures ApplyRecs(ix, Tagged(lsn, ms)) == ApplyAll(ix, lsn, ms)
  {
    if ms != [] {
      var n := |ms| - 1;
      ReplayIsApply(ix, lsn, ms[..n]);
      assert Tagged(lsn, ms)[..n] == Tagged(lsn, ms[..n]);
    }
  }

  datatype CommitBatch = CommitBatch(lsn: nat, ms: seq<Mutation>)

  ghost function AllTagged(cs: seq<CommitBatch>): seq<Rec> {
    if cs == [] then [] else AllTagged(cs[..|cs| - 1]) + Tagged(cs[|cs| - 1].lsn, cs[|cs| - 1].ms)
  }

  ghost function CommitAll(ix: Indexes, cs: seq<CommitBatch>): Indexes {
    if cs == [] then ix else ApplyAll(CommitAll(ix, cs[..|cs| - 1]), cs[|cs| - 1].lsn, cs[|cs| - 1].ms)
  }

  /** Replaying the whole log record by record rebuilds the postings the commits built batch by batch. */
  lemma {:induction false} ReplayRebuilds(ix: Indexes, cs: seq<CommitBatch>)
    ensures ApplyRecs(ix, AllTagged(cs)) == CommitAll(ix, cs)
  {
    if cs != [] {
      var (less, c) := (cs[..|cs| - 1], cs[|cs| - 1]);
      ReplayRebuilds(ix, less);
      ApplyRecsConcat(ix, AllTagged(less), Tagged(c.lsn, c.ms));
      ReplayIsApply(CommitAll(ix, less), c.lsn, c.ms);
    }
  }

  class PostingLog {
    var pages: Pages
    var head: PageId
    var tail: PageId
    var next: PageId
    ghost var chain: seq<PageId>
    ghost var parts: seq<seq<Rec>>

    ghost predicate Valid()
      reads this
    {
      && ChainOk(pages, chain, parts, next)
      && head == (if chain == [] then 0 else chain[0])
      && tail == (if chain == [] then 0 else chain[|chain| - 1])
    }

    ghost function Contents(): seq<Rec>
      reads this
    {
      Flat(parts)
    }

    constructor ()
      ensures Valid() && Contents() == [] && next == BASE_PAGE_ID
    {
      pages, head, tail, next := map[], 0, 0, BASE_PAGE_ID;
      chain, parts := [], [];
    }

    /** Appends to the tail page if the record fits there. */
    method AppendToTail(r: Rec) returns (ok: bool, page: array<Byte>)
      requires Valid() && chain != [] && r.lsn < U64_LIMIT && |r.m.pk| == KEY_SIZE
      modifies `pages, `parts
      ensures Valid() && chain != []
      ensures Contents() == if ok then old(Contents()) + [r] else old(Contents())
      ensures !RecFits(r) || OFF_DATA + |RecBytes(r)| > PAGE_SIZE ==> !ok
      ensures !ok ==> pages == old(pages) && parts == old(parts)
      ensures !ok ==> fresh(page) && Stores(page[..], 0, parts[|chain| - 1])
    {
      hide Stores, RecBytes, DataBytes, Flat;
      ghost var n := |chain| - 1;
      assert LinkOk(pages, chain, parts, n);
      PageFacts(pages[tail], 0, parts[n]);
      var bytes := pages[tail];
      page := new Byte[|bytes|](i requires 0 <= i < |bytes| => bytes[i]);
      assert page[..] == bytes;
      var fit := AppendRecord(page, r, 0, parts[n]);
      ok := fit == Ok(true);
      if ok {
        TailGrows(pages, chain, parts, next, r, page[..]);
        FlatGrow(parts, r);
        pages := pages[tail := page[..]];
        parts := parts[n := parts[n] + [r]];
      }
    }

    /** Appends to the tail page, or to a new page linked behind it when the tail is full. */
    method AppendOne(r: Rec) returns (ok: bool)
      requires Valid() && chain != [] && r.lsn < U64_LIMIT && |r.m.pk| == KEY_SIZE && next + 1 < U64_LIMIT
      modifies this
      ensures Valid() && chain != [] && old(next) <= next <= old(next) + 1
      ensures ok <==> Storable(r)
      ensures Contents() == if ok then old(Contents()) + [r] else old(Contents())
      ensures ok || (pages == old(pages) && head == old(head) && tail == old(tail) && next == old(next))
    {
      hide Stores, RecBytes, DataBytes, Flat, ChainOk;
      var fit, page := AppendToTail(r);
      if fit {
        return true;
      }
      var blank := NewLogPage();
      PageFacts(blank[..], 0, []);
      NoData();
      var second := AppendRecord(blank, r, 0, []);
      if second != Ok(true) {
        return false;
      }
      LinkBehind(page, blank, r);
      ok := true;
    }

    method LinkBehind(page: array<Byte>, blank: array<Byte>, r: Rec)
      requires Valid() && chain != [] && next + 1 < U64_LIMIT
      requires Stores(page[..], 0, parts[|chain| - 1]) && Stores(blank[..], 0, [] + [r]) && page != blank
      modifies this, page
      ensures Valid() && chain != [] && next == old(next) + 1 && Contents() == old(Contents()) + [r]
    {
      hide Stores, Flat;
      ghost var n := |chain| - 1;
      PageFacts(page[..], 0, parts[n]);
      var e := WriteNext(page, next, 0, parts[n]);
      assert [] + [r] == [r];
      ChainGrows(pages, chain, parts, next, [r], page[..], blank[..]);
      FlatPush(parts, [r]);
      pages := pages[tail := page[..]];
      pages := pages[next := blank[..]];
      chain, parts := chain + [next], parts + [[r]];
      tail := next;
      next := next + 1;
    }

    method EnsureTail()
      requires Valid() && next + 1 < U64_LIMIT
      modifies this
      ensures Valid() && chain != [] && Contents() == old(Contents())
      ensures old(next) <= next <= old(next) + 1
      ensures old(chain) != [] ==> unchanged(this)
    {
      hide Stores, Flat;
      if tail != 0 {
        return;
      }
      var blank := NewLogPage();
      ChainGrows(pages, chain, parts, next, [], [], blank[..]);
      FlatPush(parts, []);
      assert Flat(parts) + [] == Flat(parts);
      pages := pages[next := blank[..]];
      chain, parts := chain + [next], parts + [[]];
      head, tail := next, next;
      next := next + 1;
    }

    /**
     * Appends all mutations of a commit under its LSN, across as many pages as it takes; if one
     * of them has a bad name or is too large for a page, nothing is appended.
     */
    method Append(lsn: nat, ms: seq<Mutation>) returns (ok: bool)
      requires Valid() && next + |ms| + 2 < U64_LIMIT
      requires lsn < U64_LIMIT && forall i :: 0 <= i < |ms| ==> |ms[i].pk| == KEY_SIZE
      modifies this
      ensures Valid()
      ensures ok <==> forall i :: 0 <= i < |ms| ==> Storable(Rec(lsn, ms[i]))
      ensures Contents() == if ok then old(Contents()) + Tagged(lsn, ms) else old(Contents())
      ensures next <= old(next) + |ms| + 1
    {
      hide ChainOk, Storable, Flat;
      if ms == [] {
        assert Contents() + [] == Contents();
        return true;
      }
      var pages0, head0, tail0, next0 := pages, head, tail, next;
      ghost var chain0, parts0 := chain, parts;
      EnsureTail();
      var i := 0;
      ghost var recs := Tagged(lsn, ms);
      assert Contents() + recs[..0] == Contents();
      while i < |ms|
        invariant i <= |ms| && Valid() && chain != [] && next <= next0 + 1 + i
        invariant Contents() == old(Contents()) + recs[..i]
        invariant forall j :: 0 <= j < i ==> Storable(Rec(lsn, ms[j]))
      {
        var fit := AppendOne(Rec(lsn, ms[i]));
        if !fit {
          pages, head, tail, next := pages0, head0, tail0, next0;
          chain, parts := chain0, parts0;
          return false;
        }
        assert recs[..i + 1] == recs[..i] + [recs[i]];
        i := i + 1;
      }
      assert recs[..i] == recs;
      ok := true;
    }

    /** Walks from the head and concatenates the records of every page: all that was appended, in order. */
    method Replay() returns (r: Result<seq<Rec>, Error>)
      requires Valid()
      ensures r == Ok(Contents())
    {
      hide Stores;
      var out, id := [], head;
      ghost var i := 0;
      assert parts[..0] == [];
      while id != 0
        invariant 0 <= i <= |chain| && id == (if i < |chain| then chain[i] else 0) && out == Flat(parts[..i])
        decreases |chain| - i
      {
        assert LinkOk(pages, chain, parts, i);
        ghost var next := NextId(chain, i);
        PageFacts(pages[id], next, parts[i]);
        var recs := DecodeRecords(pages[id], next, parts[i]);
        assert parts[..i + 1][..i] == parts[..i];
        out := out + recs.value;
        var link := ReadNext(pages[id], next, parts[i]);
        id := link.value;
        i := i + 1;
      }
      assert parts[..i] == parts;
      r := Ok(out);
    }
  }

  lemma NoData()
    ensures DataBytes([]) == []
  {
  }

  lemma PageFacts(s: seq<Byte>, next: PageId, recs: seq<Rec>)
    requires Stores(s, next, recs)
    ensures IsLogPage(s) && |s| == PAGE_SIZE
  {
  }
}
