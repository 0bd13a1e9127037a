/** A page of the secondary posting log (src/secondary_posting_log.rs): a header and variable-size records. */
module PostingPage {
  import opened Bytes
  import opened Params
  import opened SecondaryIndex

  type PageId = nat

  const MAGIC: seq<Byte> := [0x53, 0x4B, 0x50, 0x4C, 0x4F, 0x47, 0, 0]
  const VERSION := 1
  const OFF_NEXT := 12
  const OFF_USED := 20
  const OFF_DATA := 22

  datatype Rec = Rec(lsn: nat, m: Mutation)

  datatype Error = InvalidPage | InvalidName | InvalidKey | Corrupt | TooLarge

  predicate RecFits(r: Rec) {
    && r.lsn < U64_LIMIT && 0 < |r.m.index| < 0x1_0000 && |r.m.skey| < 0x1_0000 && |r.m.pk| == KEY_SIZE
  }

  // ---- Records ----

  function RecBytes(r: Rec): (s: seq<Byte>)
    ensures |s| == 13 + |r.m.index| + |r.m.skey| + |r.m.pk|
  {
    ToLe(r.lsn, 8) + [if r.m.present then 1 else 0] + ToLe(|r.m.index|, 2) + r.m.index
    + ToLe(|r.m.skey|, 2) + r.m.skey + r.m.pk
  }

  /** Reads the record at the front of `s` and its length. */
  function ParseRec(s: seq<Byte>): (r: Result<(Rec, nat), Error>)
    ensures r.Ok? ==> 13 <= r.value.1 <= |s|
  {
    if |s| < 13 + KEY_SIZE then Err(Corrupt)
    else
      var nameLen := ReadLe(s, 9, 2);
      if 13 + nameLen > |s| then Err(Corrupt)
      else
        var skeyLen := ReadLe(s, 11 + nameLen, 2);
        var end := 13 + nameLen + skeyLen + KEY_SIZE;
        if end > |s| then Err(Corrupt)
        else Ok((Rec(ReadLe(s, 0, 8),
                     Mutation(s[11..11 + nameLen], s[13 + nameLen..13 + nameLen + skeyLen],
                              s[end - KEY_SIZE..end], s[8] != 0)), end))
  }

  lemma ParseRecInverts(r: Rec, rest: seq<Byte>)
    requires RecFits(r)
    ensures ParseRec(RecBytes(r) + rest) == Ok((r, |RecBytes(r)|))
  {
    Pow256Values();
    var (name, skey) := (r.m.index, r.m.skey);
    LeRoundTrip(r.lsn, 8);
    LeRoundTrip(|name|, 2);
    LeRoundTrip(|skey|, 2);
    hide ToLe, FromLe;
    var s := RecBytes(r) + rest;
    var p8 := ToLe(r.lsn, 8);
    var p9 := p8 + [if r.m.present then 1 else 0];
    var p11 := p9 + ToLe(|name|, 2);
    var q := p11 + name;
    var q2 := q + ToLe(|skey|, 2);
    var q3 := q2 + skey;
    assert s[..|q3 + r.m.pk|] == q3 + r.m.pk;
    SplitPrefix(s, q3, r.m.pk);
    SplitPrefix(s, q2, skey);
    SplitPrefix(s, q, ToLe(|skey|, 2));
    SplitPrefix(s, p11, name);
    SplitPrefix(s, p9, ToLe(|name|, 2));
    SplitPrefix(s, p8, [if r.m.present then 1 else 0]);
    assert s[0..8] == s[..8] && s[8] == s[8..9][0];
  }

  function DataBytes(recs: seq<Rec>): seq<Byte> {
    if recs == [] then [] else RecBytes(recs[0]) + DataBytes(recs[1..])
  }

  function ParseRecs(s: seq<Byte>): Result<seq<Rec>, Error>
    decreases |s|
  {
    if s == [] then Ok([])
    else
      match ParseRec(s)
      case Err(e) => Err(e)
      case Ok((r, n)) =>
        match ParseRecs(s[n..])
        case Err(e) => Err(e)
        case Ok(rest) => Ok([r] + rest)
  }

  lemma {:induction false} ParseRecsInverts(recs: seq<Rec>)
    requires forall i :: 0 <= i < |recs| ==> RecFits(recs[i])
    ensures ParseRecs(DataBytes(recs)) == Ok(recs)
  {
    if recs != [] {
      ParseRecInverts(recs[0], DataBytes(recs[1..]));
      ParseRecsInverts(recs[1..]);
      hide RecBytes, ParseRec;
      assert DataBytes(recs)[|RecBytes(recs[0])|..] == DataBytes(recs[1..]);
      assert [recs[0]] + recs[1..] == recs;
    }
  }

  lemma {:induction false} DataPush(recs: seq<Rec>, r: Rec)
    ensures DataBytes(recs + [r]) == DataBytes(recs) + RecBytes(r)
  {
    hide RecBytes;
    if recs == [] {
      assert [] + [r] == [r] && [r][1..] == [];
      assert DataBytes([r]) == RecBytes(r) + DataBytes([]);
    } else {
      DataPush(recs[1..], r);
      assert (recs + [r])[1..] == recs[1..] + [r];
    }
  }

  // ---- Pages ----

  predicate IsLogPage(s: seq<Byte>) {
    |s| == PAGE_SIZE && s[..8] == MAGIC && ReadLe(s, 8, 4) == VERSION
  }

  ghost predicate Stores(s: seq<Byte>, next: PageId, recs: seq<Rec>) {
    && IsLogPage(s) && next < U64_LIMIT
    && s[OFF_NEXT..OFF_USED] == ToLe(next, 8)
    && OFF_DATA + |DataBytes(recs)| <= PAGE_SIZE
    && s[OFF_USED..OFF_DATA] == ToLe(|DataBytes(recs)|, 2)
    && s[OFF_DATA..OFF_DATA + |DataBytes(recs)|] == DataBytes(recs)
    && (forall i :: 0 <= i < |recs| ==> RecFits(recs[i]))
  }

  lemma {:induction false} UsedReads(s: seq<Byte>, next: PageId, recs: seq<Rec>)
    requires Stores(s, next, recs)
    ensures ReadLe(s, OFF_USED, 2) == |DataBytes(recs)| && ReadLe(s, OFF_NEXT, 8) == next
  {
    Pow256Values();
    LeRoundTrip(|DataBytes(recs)|, 2);
    LeRoundTrip(next, 8);
  }

  // Writing past the header leaves it a log page.
  lemma StillLogPage(s: seq<Byte>, off: nat, data: seq<Byte>)
    requires IsLogPage(s) && 12 <= off && off + |data| <= PAGE_SIZE
    ensures IsLogPage(Splice(s, off, data))
  {
    hide Splice;
    SpliceElsewhere(s, off, data, 0, 8);
    SpliceElsewhere(s, off, data, 8, 12);
    var t := Splice(s, off, data);
    assert t[..8] == t[0..8] == s[0..8] == s[..8];
  }

  method NewLogPage() returns (page: array<Byte>)
    ensures fresh(page) && page.Length == PAGE_SIZE && Stores(page[..], 0, [])
  {
    hide ToLe, FromLe, Splice;
    page := new Byte[PAGE_SIZE](i => 0);
    ghost var z := page[..];
    SpliceNothing(z, 0);
    Emit(page, 0, z, [], 0, MAGIC);
    ghost var d := [] + MAGIC;
    Emit(page, 0, z, d, 8, ToLe(VERSION, 4));
    d := d + ToLe(VERSION, 4);
    Emit(page, 0, z, d, OFF_NEXT, ToLe(0, 8));
    d := d + ToLe(0, 8);
    Emit(page, 0, z, d, OFF_USED, ToLe(0, 2));
    d := d + ToLe(0, 2);
    assert [] + MAGIC == MAGIC;
    BlankPage(page[..]);
  }

  lemma BlankPage(s: seq<Byte>)
    requires |s| == PAGE_SIZE && s[0..OFF_DATA] == MAGIC + ToLe(VERSION, 4) + ToLe(0, 8) + ToLe(0, 2)
    ensures Stores(s, 0, [])
  {
    Pow256Values();
    LeRoundTrip(VERSION, 4);
    hide ToLe, FromLe;
    assert s[..OFF_DATA] == s[0..OFF_DATA];
    SplitPrefix(s, MAGIC + ToLe(VERSION, 4) + ToLe(0, 8), ToLe(0, 2));
    SplitPrefix(s, MAGIC + ToLe(VERSION, 4), ToLe(0, 8));
    SplitPrefix(s, MAGIC, ToLe(VERSION, 4));
  }

  lemma {:induction false} NextStored(s: seq<Byte>, next: PageId, recs: seq<Rec>, next2: PageId)
    requires Stores(s, next, recs) && next2 < U64_LIMIT
    ensures Stores(Splice(s, OFF_NEXT, ToLe(next2, 8)), next2, recs)
  {
    hide Splice, ToLe, DataBytes, IsLogPage;
    var w := ToLe(next2, 8);
    assert |s| == PAGE_SIZE by { LogPageStarts(s); }
    StillLogPage(s, OFF_NEXT, w);
    SpliceElsewhere(s, OFF_NEXT, w, OFF_USED, OFF_DATA);
    SpliceElsewhere(s, OFF_NEXT, w, OFF_DATA, OFF_DATA + |DataBytes(recs)|);
  }

  lemma LogPageStarts(s: seq<Byte>)
    ensures IsLogPage(s) <==> |s| == PAGE_SIZE && s[..8] == MAGIC && ReadLe(s, 8, 4) == VERSION
  {
  }

  method WriteNext(page: array<Byte>, next: PageId, ghost was: PageId, ghost recs: seq<Rec>) returns (e: Option<Error>)
    requires next < U64_LIMIT && (IsLogPage(page[..]) ==> Stores(page[..], was, recs))
    modifies page
    ensures var p := old(page[..]);
            e == None <==> |p| == PAGE_SIZE && p[..8] == MAGIC && ReadLe(p, 8, 4) == VERSION
    ensures if e == None then Stores(page[..], next, recs) else page[..] == old(page[..])
  {
    hide Splice, ToLe, DataBytes, IsLogPage;
    LogPageStarts(page[..]);
    if !IsLogPage(page[..]) {
      return Some(InvalidPage);
    }
    NextStored(page[..], was, recs, next);
    CopyInto(page, OFF_NEXT, ToLe(next, 8));
    e := None;
  }

  method ReadNext(page: seq<Byte>, ghost next: PageId, ghost recs: seq<Rec>) returns (r: Result<PageId, Error>)
    requires IsLogPage(page) ==> Stores(page, next, recs)
    ensures IsLogPage(page) ==> r == Ok(next)
    ensures r.Ok? <==> |page| == PAGE_SIZE && page[..8] == MAGIC && ReadLe(page, 8, 4) == VERSION
    ensures r.Err? ==> r.error == InvalidPage
  {
    hide ToLe, FromLe, DataBytes;
    if !IsLogPage(page) {
      return Err(InvalidPage);
    }
    UsedReads(page, next, recs);
    r := Ok(ReadLe(page, OFF_NEXT, 8));
  }

  lemma {:induction false} RecordStored(s: seq<Byte>, next: PageId, recs: seq<Rec>, r: Rec)
    requires Stores(s, next, recs) && RecFits(r)
    requires OFF_DATA + |DataBytes(recs)| + |RecBytes(r)| <= PAGE_SIZE
    ensures var used := |DataBytes(recs)|;
            Stores(Splice(Splice(s, OFF_DATA + used, RecBytes(r)), OFF_USED, ToLe(used + |RecBytes(r)|, 2)),
                   next, recs + [r])
  {
    hide Splice, ToLe, DataBytes, IsLogPage, RecBytes;
    LogPageStarts(s);
    DataPush(recs, r);
    var (data, w) := (DataBytes(recs), RecBytes(r));
    var (used, n) := (|data|, |data| + |w|);
    var t := Splice(s, OFF_DATA + used, w);
    var u := Splice(t, OFF_USED, ToLe(n, 2));
    StillLogPage(s, OFF_DATA + used, w);
    StillLogPage(t, OFF_USED, ToLe(n, 2));
    SpliceElsewhere(s, OFF_DATA + used, w, OFF_NEXT, OFF_USED);
    SpliceElsewhere(t, OFF_USED, ToLe(n, 2), OFF_NEXT, OFF_USED);
    SpliceElsewhere(s, OFF_DATA + used, w, OFF_DATA, OFF_DATA + used);
    JoinSlices(t, OFF_DATA, OFF_DATA + used, OFF_DATA + n);
    SpliceElsewhere(t, OFF_USED, ToLe(n, 2), OFF_DATA, OFF_DATA + n);
  }

  method WriteRec(page: array<Byte>, off: nat, r: Rec)
    requires off + |RecBytes(r)| <= page.Length
    modifies page
    ensures page[..] == Splice(old(page[..]), off, RecBytes(r))
  {
    hide Splice, ToLe;
    var (name, skey) := (r.m.index, r.m.skey);
    ghost var s := page[..];
    SpliceNothing(s, off);
    Emit(page, off, s, [], 0, ToLe(r.lsn, 8));
    ghost var d := [] + ToLe(r.lsn, 8);
    var flag: seq<Byte> := [if r.m.present then 1 else 0];
    Emit(page, off, s, d, 8, flag);
    d := d + flag;
    Emit(page, off, s, d, 9, ToLe(|name|, 2));
    d := d + ToLe(|name|, 2);
    Emit(page, off, s, d, 11, name);
    d := d + name;
    Emit(page, off, s, d, 11 + |name|, ToLe(|skey|, 2));
    d := d + ToLe(|skey|, 2);
    Emit(page, off, s, d, 13 + |name|, skey);
    d := d + skey;
    Emit(page, off, s, d, 13 + |name| + |skey|, r.m.pk);
    d := d + r.m.pk;
    assert [] + ToLe(r.lsn, 8) == ToLe(r.lsn, 8);
    assert d == RecBytes(r);
  }

  /** Appends the record if it fits in what is left of the page; says whether it did. */
  method AppendRecord(page: array<Byte>, r: Rec, ghost next: PageId, ghost recs: seq<Rec>)
    returns (ok: Result<bool, Error>)
    requires r.lsn < U64_LIMIT && |r.m.pk| == KEY_SIZE
    requires IsLogPage(page[..]) ==> Stores(page[..], next, recs)
    modifies page
    ensures ok != Ok(true) ==> page[..] == old(page[..])
    ensures var p := old(page[..]);
            ok == Err(InvalidPage) <==> |p| != PAGE_SIZE || p[..8] != MAGIC || ReadLe(p, 8, 4) != VERSION
    ensures IsLogPage(old(page[..])) ==>
              if !RecFits(r) then ok.Err?
              else if OFF_DATA + |DataBytes(recs)| + |RecBytes(r)| > PAGE_SIZE then ok == Ok(false)
              else ok == Ok(true) && Stores(page[..], next, recs + [r])
  {
    hide Splice, ToLe, DataBytes, FromLe, RecBytes, IsLogPage;
    LogPageStarts(page[..]);
    if !IsLogPage(page[..]) {
      return Err(InvalidPage);
    }
    UsedReads(page[..], next, recs);
    var used := ReadLe(page[..], OFF_USED, 2);
    if r.m.index == [] || |r.m.index| >= 0x1_0000 {
      return Err(InvalidName);
    }
    if |r.m.skey| >= 0x1_0000 {
      return Err(InvalidKey);
    }
    var len := 13 + |r.m.index| + |r.m.skey| + KEY_SIZE;
    if OFF_DATA + used + len > PAGE_SIZE {
      return Ok(false);
    }
    RecordStored(page[..], next, recs, r);
    WriteRec(page, OFF_DATA + used, r);
    CopyInto(page, OFF_USED, ToLe(AsU16(used + len), 2));
    ok := Ok(true);
  }

  /** The cursor loop over a page's records. */
  method DecodeRecords(page: seq<Byte>, ghost next: PageId, ghost recs: seq<Rec>) returns (r: Result<seq<Rec>, Error>)
    requires IsLogPage(page) ==> Stores(page, next, recs)
    ensures IsLogPage(page) ==> r == Ok(recs)
    ensures r.Ok? <==> |page| == PAGE_SIZE && page[..8] == MAGIC && ReadLe(page, 8, 4) == VERSION
    ensures r.Err? ==> r.error == InvalidPage
  {
    hide ToLe, FromLe, DataBytes, ParseRec, IsLogPage;
    LogPageStarts(page);
    if !IsLogPage(page) {
      return Err(InvalidPage);
    }
    UsedReads(page, next, recs);
    ParseRecsInverts(recs);
    var data := page[OFF_DATA..OFF_DATA + ReadLe(page, OFF_USED, 2)];
    var out, off := [], 0;
    assert data[0..] == data && [] + recs == recs;
    while off < |data|
      invariant off <= |data|
      invariant ParseRecs(data[off..]).Ok? && out + ParseRecs(data[off..]).value == recs
      decreases |data| - off
    {
      var one := ParseRec(data[off..]);
      var (rec, n) := one.value;
      assert data[off..][n..] == data[off + n..];
      assert out + ([rec] + ParseRecs(data[off + n..]).value) == out + [rec] + ParseRecs(data[off + n..]).value;
      out := out + [rec];
      off := off + n;
    }
    assert data[off..] == [] && out + [] == out;
    r := Ok(out);
  }
}
