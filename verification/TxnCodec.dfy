/** The transaction log and snapshot formats of txn_kv (src/txn_kv/codec.rs). */
module TxnCodec {
  import opened Bytes
  import opened Params

  type Key = seq<Byte>
  type Value = seq<Byte>

  const U32_LIMIT := 0x1_0000_0000
  const WAL_MAGIC := 0x534B5657
  const WAL_HEADER_LEN := 12

  datatype Op = Op(key: Key, value: Option<Value>)

  datatype Commit = Commit(ts: nat, ops: seq<Op>)

  datatype Error = TooShort | Truncated | InvalidValueSize(len: nat) | UnknownOp | LengthMismatch
                 | BadMagic | BadVersion

  predicate OpFits(op: Op) {
    |op.key| == KEY_SIZE && (op.value.Some? ==> |op.value.value| <= VALUE_SIZE)
  }

  predicate CommitFits(c: Commit) {
    && c.ts < U64_LIMIT && |c.ops| < U32_LIMIT
    && (forall i :: 0 <= i < |c.ops| ==> OpFits(c.ops[i]))
  }

  // ---- One operation ----

  function OpBytes(op: Op): (s: seq<Byte>)
    ensures OpFits(op) ==> |s| >= KEY_SIZE + 1
  {
    match op.value
    case None => op.key + [0]
    case Some(v) => op.key + [1] + ToLe(|v|, 4) + v
  }

  /** Reads the operation at the front of `s`; also how many bytes it takes. */
  function ParseOp(s: seq<Byte>): (r: Result<(Op, nat), Error>)
    ensures r.Ok? ==> KEY_SIZE < r.value.1 <= |s|
  {
    if |s| < KEY_SIZE + 1 then Err(Truncated)
    else if s[KEY_SIZE] == 0 then Ok((Op(s[..KEY_SIZE], None), KEY_SIZE + 1))
    else if s[KEY_SIZE] != 1 then Err(UnknownOp)
    else if |s| < KEY_SIZE + 5 then Err(Truncated)
    else
      var len := ReadLe(s, KEY_SIZE + 1, 4);
      if len > VALUE_SIZE then Err(InvalidValueSize(len))
      else if |s| < KEY_SIZE + 5 + len then Err(Truncated)
      else Ok((Op(s[..KEY_SIZE], Some(s[KEY_SIZE + 5..KEY_SIZE + 5 + len])), KEY_SIZE + 5 + len))
  }

  lemma ParseOpInverts(op: Op, rest: seq<Byte>)
    requires OpFits(op)
    ensures ParseOp(OpBytes(op) + rest) == Ok((op, |OpBytes(op)|))
  {
    var s := OpBytes(op) + rest;
    match op.value {
      case None =>
        assert s[..KEY_SIZE] == op.key;
      case Some(v) =>
        Pow256Values();
        LeRoundTrip(|v|, 4);
        hide ToLe, FromLe;
        assert s[..KEY_SIZE] == op.key && s[KEY_SIZE] == 1;
        assert s[KEY_SIZE + 1..KEY_SIZE + 5] == ToLe(|v|, 4);
        assert s[KEY_SIZE + 5..KEY_SIZE + 5 + |v|] == v;
    }
  }

  lemma ParseOpOnly(s: seq<Byte>)
    requires ParseOp(s).Ok?
    ensures var (op, n) := ParseOp(s).value; OpFits(op) && OpBytes(op) == s[..n]
  {
    var (op, n) := ParseOp(s).value;
    if op.value.Some? {
      LeOf(s[KEY_SIZE + 1..KEY_SIZE + 5]);
      hide ToLe, FromLe;
      assert s[..n] == s[..KEY_SIZE] + [s[KEY_SIZE]] + s[KEY_SIZE + 1..KEY_SIZE + 5] + s[KEY_SIZE + 5..n];
    } else {
      assert s[..n] == s[..KEY_SIZE] + [s[KEY_SIZE]];
    }
  }

  // ---- Operation lists ----

  function OpsBytes(ops: seq<Op>): seq<Byte> {
    if ops == [] then [] else OpBytes(ops[0]) + OpsBytes(ops[1..])
  }

  /** Reads `n` operations that must fill `s` exactly. */
  function ParseOps(s: seq<Byte>, n: nat): Result<seq<Op>, Error> {
    if n == 0 then
      if s == [] then Ok([]) else Err(LengthMismatch)
    else
      match ParseOp(s)
      case Err(e) => Err(e)
      case Ok((op, used)) =>
        match ParseOps(s[used..], n - 1)
        case Err(e) => Err(e)
        case Ok(rest) => Ok([op] + rest)
  }

  lemma {:induction false} ParseOpsInverts(ops: seq<Op>)
    requires forall i :: 0 <= i < |ops| ==> OpFits(ops[i])
    ensures ParseOps(OpsBytes(ops), |ops|) == Ok(ops)
  {
    if ops != [] {
      ParseOpInverts(ops[0], OpsBytes(ops[1..]));
      ParseOpsInverts(ops[1..]);
      hide OpBytes, ParseOp;
      assert OpsBytes(ops)[|OpBytes(ops[0])|..] == OpsBytes(ops[1..]);
      assert [ops[0]] + ops[1..] == ops;
    }
  }

  lemma {:induction false} ParseOpsOnly(s: seq<Byte>, n: nat)
    requires ParseOps(s, n).Ok?
    ensures var ops := ParseOps(s, n).value;
            |ops| == n && OpsBytes(ops) == s && forall i :: 0 <= i < n ==> OpFits(ops[i])
    decreases n
  {
    hide OpBytes, OpFits, ParseOp;
    if n > 0 {
      ParseOpOnly(s);
      var (op, used) := ParseOp(s).value;
      ParseOpsOnly(s[used..], n - 1);
      OpsBytesCons(op, ParseOps(s[used..], n - 1).value);
      assert s == s[..used] + s[used..];
    }
  }

  lemma {:induction false} OpsBytesCons(op: Op, ops: seq<Op>)
    ensures OpsBytes([op] + ops) == OpBytes(op) + OpsBytes(ops)
  {
    assert ([op] + ops)[1..] == ops;
  }

  // ---- Payloads ----

  function PayloadBytes(c: Commit): seq<Byte> {
    ToLe(c.ts, 8) + ToLe(|c.ops|, 4) + OpsBytes(c.ops)
  }

  function ParsePayload(s: seq<Byte>): Result<Commit, Error> {
    if |s| < 12 then Err(TooShort)
    else
      match ParseOps(s[12..], ReadLe(s, 8, 4))
      case Err(e) => Err(e)
      case Ok(ops) => Ok(Commit(ReadLe(s, 0, 8), ops))
  }

  lemma PayloadInverts(c: Commit)
    requires CommitFits(c)
    ensures ParsePayload(PayloadBytes(c)) == Ok(c)
  {
    Pow256Values();
    LeRoundTrip(c.ts, 8);
    LeRoundTrip(|c.ops|, 4);
    ParseOpsInverts(c.ops);
    hide ToLe, FromLe, ParseOps, OpsBytes;
    var s := PayloadBytes(c);
    assert s[0..8] == ToLe(c.ts, 8) && s[8..12] == ToLe(|c.ops|, 4) && s[12..] == OpsBytes(c.ops);
  }

  lemma PayloadOnly(s: seq<Byte>)
    requires ParsePayload(s).Ok?
    ensures CommitFits(ParsePayload(s).value) && PayloadBytes(ParsePayload(s).value) == s
  {
    var (ts, n) := (ReadLe(s, 0, 8), ReadLe(s, 8, 4));
    ParseOpsOnly(s[12..], n);
    Pow256Values();
    LeOf(s[0..8]);
    LeOf(s[8..12]);
    hide ToLe, FromLe, ParseOps, OpsBytes, OpFits;
    assert s == s[0..8] + s[8..12] + s[12..];
  }

  /** The decoder accepts exactly the encodings of commits, and gives back what was encoded. */
  lemma DecodesExactlyEncodings(s: seq<Byte>, c: Commit)
    ensures ParsePayload(s) == Ok(c) <==> CommitFits(c) && s == PayloadBytes(c)
  {
    if ParsePayload(s) == Ok(c) {
      PayloadOnly(s);
    }
    if CommitFits(c) {
      PayloadInverts(c);
    }
  }

  /** The cursor loop of the decoder. */
  method DecodePayload(s: seq<Byte>) returns (r: Result<Commit, Error>)
    ensures r == ParsePayload(s)
  {
    hide ParseOp, FromLe;
    if |s| < 12 {
      return Err(TooShort);
    }
    var n := ReadLe(s, 8, 4);
    var ops, cursor, i := [], 12, 0;
    PrependNothing(ParseOps(s[12..], n));
    while i < n
      invariant i <= n && 12 <= cursor <= |s|
      invariant ParseOps(s[12..], n) == Prepend(ops, ParseOps(s[cursor..], n - i))
    {
      var one := ParseOp(s[cursor..]);
      if one.Err? {
        return Err(one.error);
      }
      assert s[cursor..][one.value.1..] == s[cursor + one.value.1..];
      PrependMore(ops, one.value.0, ParseOps(s[cursor + one.value.1..], n - i - 1));
      ops := ops + [one.value.0];
      cursor := cursor + one.value.1;
      i := i + 1;
    }
    if cursor != |s| {
      return Err(LengthMismatch);
    }
    assert s[cursor..] == [] && ops + [] == ops;
    r := Ok(Commit(ReadLe(s, 0, 8), ops));
  }

  ghost function Prepend(ops: seq<Op>, r: Result<seq<Op>, Error>): Result<seq<Op>, Error> {
    match r
    case Err(e) => Err(e)
    case Ok(rest) => Ok(ops + rest)
  }

  lemma PrependNothing(r: Result<seq<Op>, Error>)
    ensures Prepend([], r) == r
  {
    if r.Ok? {
      assert [] + r.value == r.value;
    }
  }

  lemma PrependMore(ops: seq<Op>, op: Op, r: Result<seq<Op>, Error>)
    ensures Prepend(ops, Prepend([op], r)) == Prepend(ops + [op], r)
  {
    if r.Ok? {
      assert ops + ([op] + r.value) == ops + [op] + r.value;
    }
  }

  method EncodePayload(c: Commit) returns (r: Result<seq<Byte>, Error>)
    requires c.ts < U64_LIMIT && |c.ops| < U32_LIMIT
    requires forall i :: 0 <= i < |c.ops| ==> |c.ops[i].key| == KEY_SIZE
    ensures r.Ok? <==> CommitFits(c)
    ensures r.Ok? ==> r.value == PayloadBytes(c)
  {
    hide ToLe, OpBytes;
    var buf, i := ToLe(c.ts, 8) + ToLe(|c.ops|, 4), 0;
    while i < |c.ops|
      invariant i <= |c.ops| && forall j :: 0 <= j < i ==> OpFits(c.ops[j])
      invariant buf + OpsBytes(c.ops[i..]) == PayloadBytes(c)
    {
      var op := c.ops[i];
      if op.value.Some? && |op.value.value| > VALUE_SIZE {
        return Err(InvalidValueSize(|op.value.value|));
      }
      assert c.ops[i..][1..] == c.ops[i + 1..];
      assert buf + OpsBytes(c.ops[i..]) == buf + OpBytes(op) + OpsBytes(c.ops[i + 1..]);
      buf := buf + OpBytes(op);
      i := i + 1;
    }
    r := Ok(buf);
  }

  // ---- The log: a sequence of records ----

  // The checksum is any function of the payload that fits in 32 bits.
  type Checksum = seq<Byte> -> nat

  ghost predicate ChecksumFits(crc: Checksum) {
    forall p :: crc(p) < U32_LIMIT
  }

  ghost predicate RecordFits(c: Commit) {
    CommitFits(c) && |PayloadBytes(c)| < U32_LIMIT
  }

  function RecordBytes(crc: Checksum, c: Commit): (s: seq<Byte>)
    ensures |s| == WAL_HEADER_LEN + |PayloadBytes(c)|
  {
    var payload := PayloadBytes(c);
    ToLe(WAL_MAGIC, 4) + ToLe(|payload|, 4) + ToLe(crc(payload), 4) + payload
  }

  /** The commit in the record at the front of `s` and the record's length, if one is there whole and intact. */
  function ReadRecord(crc: Checksum, s: seq<Byte>): (r: Option<(Commit, nat)>)
    ensures r.Some? ==> WAL_HEADER_LEN <= r.value.1 <= |s|
  {
    if |s| < WAL_HEADER_LEN || ReadLe(s, 0, 4) != WAL_MAGIC then None
    else
      var end := WAL_HEADER_LEN + ReadLe(s, 4, 4);
      if end > |s| || crc(s[WAL_HEADER_LEN..end]) != ReadLe(s, 8, 4) then None
      else
        match ParsePayload(s[WAL_HEADER_LEN..end])
        case Err(_) => None
        case Ok(c) => Some((c, end))
  }

  /** The commits of the records at the front of `s`, up to the first that is torn or damaged, and their length. */
  function Scan(crc: Checksum, s: seq<Byte>): (r: (seq<Commit>, nat))
    ensures r.1 <= |s|
  {
    match ReadRecord(crc, s)
    case None => ([], 0)
    case Some((c, n)) =>
      var (cs, len) := Scan(crc, s[n..]);
      ([c] + cs, n + len)
  }

  function Log(crc: Checksum, cs: seq<Commit>): seq<Byte> {
    if cs == [] then [] else RecordBytes(crc, cs[0]) + Log(crc, cs[1..])
  }

  /** How many of the records of `cs` lie wholly within the first `n` bytes. */
  function Whole(crc: Checksum, cs: seq<Commit>, n: nat): (k: nat)
    ensures k <= |cs|
  {
    if cs == [] || n < |RecordBytes(crc, cs[0])| then 0
    else 1 + Whole(crc, cs[1..], n - |RecordBytes(crc, cs[0])|)
  }

  lemma HeaderReads(crc: Checksum, c: Commit, s: seq<Byte>)
    requires ChecksumFits(crc) && RecordFits(c)
    requires |s| >= WAL_HEADER_LEN && s[..WAL_HEADER_LEN] == RecordBytes(crc, c)[..WAL_HEADER_LEN]
    ensures ReadLe(s, 0, 4) == WAL_MAGIC
    ensures ReadLe(s, 4, 4) == |PayloadBytes(c)| && ReadLe(s, 8, 4) == crc(PayloadBytes(c))
  {
    Pow256Values();
    var payload := PayloadBytes(c);
    LeRoundTrip(WAL_MAGIC, 4);
    LeRoundTrip(|payload|, 4);
    LeRoundTrip(crc(payload), 4);
    hide ToLe, FromLe, PayloadBytes;
    var h := s[..WAL_HEADER_LEN];
    HeaderPart(ToLe(WAL_MAGIC, 4), ToLe(|payload|, 4), ToLe(crc(payload), 4), payload);
    assert s[0..WAL_HEADER_LEN] == h;
    SubSlice(s, 0, WAL_HEADER_LEN, 0, 4);
    SubSlice(s, 0, WAL_HEADER_LEN, 4, 8);
    SubSlice(s, 0, WAL_HEADER_LEN, 8, 12);
  }

  lemma HeaderPart(a: seq<Byte>, b: seq<Byte>, c: seq<Byte>, rest: seq<Byte>)
    requires |a| == |b| == |c| == 4
    ensures var h := (a + b + c + rest)[..12]; h[0..4] == a && h[4..8] == b && h[8..12] == c
  {
  }

  lemma WholeRecordReads(crc: Checksum, c: Commit, rest: seq<Byte>)
    requires ChecksumFits(crc) && RecordFits(c)
    ensures ReadRecord(crc, RecordBytes(crc, c) + rest) == Some((c, |RecordBytes(crc, c)|))
  {
    hide ToLe, FromLe, ParsePayload, PayloadBytes;
    var s := RecordBytes(crc, c) + rest;
    assert s[..WAL_HEADER_LEN] == RecordBytes(crc, c)[..WAL_HEADER_LEN];
    HeaderReads(crc, c, s);
    assert s[WAL_HEADER_LEN..|RecordBytes(crc, c)|] == PayloadBytes(c);
    assert ParsePayload(PayloadBytes(c)) == Ok(c) by { FitsCommit(c); PayloadInverts(c); }
  }

  lemma FitsCommit(c: Commit)
    requires RecordFits(c)
    ensures CommitFits(c)
  {
  }

  lemma TornRecordStops(crc: Checksum, c: Commit, s: seq<Byte>)
    requires ChecksumFits(crc) && RecordFits(c)
    requires |s| < |RecordBytes(crc, c)| && s == RecordBytes(crc, c)[..|s|]
    ensures ReadRecord(crc, s) == None
  {
    hide ToLe, FromLe, ParsePayload, PayloadBytes;
    if |s| >= WAL_HEADER_LEN {
      assert s[..WAL_HEADER_LEN] == RecordBytes(crc, c)[..WAL_HEADER_LEN];
      HeaderReads(crc, c, s);
    }
  }

  /**
   * Torn logs: of any byte prefix of the log of any commits, replay finds exactly the commits whose
   * records are wholly contained, and reports their total length as the valid length.
   */
  lemma {:induction false} PrefixReplays(crc: Checksum, cs: seq<Commit>, n: nat)
    requires ChecksumFits(crc) && (forall i :: 0 <= i < |cs| ==> RecordFits(cs[i])) && n <= |Log(crc, cs)|
    ensures var k := Whole(crc, cs, n);
            Scan(crc, Log(crc, cs)[..n]) == (cs[..k], |Log(crc, cs[..k])|)
    decreases |cs|
  {
    hide RecordBytes, ReadRecord, RecordFits, Scan, Log;
    if cs == [] {
      NothingReads(crc);
    } else {
      var (rec, rest) := (RecordBytes(crc, cs[0]), Log(crc, cs[1..]));
      LogCons(crc, cs[0], cs[1..]);
      assert cs == [cs[0]] + cs[1..];
      if n < |rec| {
        assert (rec + rest)[..n] == rec[..n];
        TornRecordStops(crc, cs[0], rec[..n]);
        NothingReads(crc);
        ScanNone(crc, rec[..n]);
      } else {
        var m := n - |rec|;
        assert (rec + rest)[..n] == rec + rest[..m];
        PrefixReplays(crc, cs[1..], m);
        ScanCons(crc, cs[0], rest[..m]);
        var k := Whole(crc, cs[1..], m);
        assert cs[..k + 1] == [cs[0]] + cs[1..][..k];
        LogCons(crc, cs[0], cs[1..][..k]);
      }
    }
  }

  lemma {:induction false} LogCons(crc: Checksum, c: Commit, cs: seq<Commit>)
    ensures Log(crc, [c] + cs) == RecordBytes(crc, c) + Log(crc, cs)
  {
    assert ([c] + cs)[1..] == cs;
  }

  lemma {:induction false} ScanNone(crc: Checksum, s: seq<Byte>)
    requires ReadRecord(crc, s) == None
    ensures Scan(crc, s) == ([], 0)
  {
  }

  lemma {:induction false} ScanCons(crc: Checksum, c: Commit, s: seq<Byte>)
    requires ChecksumFits(crc) && RecordFits(c)
    ensures Scan(crc, RecordBytes(crc, c) + s) == ([c] + Scan(crc, s).0, |RecordBytes(crc, c)| + Scan(crc, s).1)
  {
    hide RecordBytes, ReadRecord, RecordFits;
    WholeRecordReads(crc, c, s);
    assert (RecordBytes(crc, c) + s)[|RecordBytes(crc, c)|..] == s;
  }

  lemma NothingReads(crc: Checksum)
    ensures ReadRecord(crc, []) == None && Scan(crc, []) == ([], 0) && Log(crc, []) == []
  {
  }

  lemma ReadRecordOnly(crc: Checksum, s: seq<Byte>)
    requires ReadRecord(crc, s).Some?
    ensures var (c, n) := ReadRecord(crc, s).value; RecordFits(c) && RecordBytes(crc, c) == s[..n]
  {
    hide ToLe, FromLe, ParsePayload, PayloadBytes, CommitFits;
    var (c, n) := ReadRecord(crc, s).value;
    var payload := s[WAL_HEADER_LEN..n];
    PayloadOnly(payload);
    Pow256Values();
    LeOf(s[0..4]);
    LeOf(s[4..8]);
    LeOf(s[8..12]);
    assert s[..n] == s[0..4] + s[4..8] + s[8..12] + payload;
  }

  /** Whatever bytes are in the file, the valid part is exactly the log of the commits found. */
  lemma {:induction false} ScanFindsALog(crc: Checksum, s: seq<Byte>)
    ensures var (cs, n) := Scan(crc, s); s[..n] == Log(crc, cs) && forall i :: 0 <= i < |cs| ==> RecordFits(cs[i])
    decreases |s|
  {
    hide RecordBytes, ReadRecord, RecordFits, Log;
    NothingReads(crc);
    if ReadRecord(crc, s).Some? {
      ReadRecordOnly(crc, s);
      var (c, n) := ReadRecord(crc, s).value;
      ScanFindsALog(crc, s[n..]);
      var (cs, len) := Scan(crc, s[n..]);
      LogCons(crc, c, cs);
      assert s[..n + len] == s[..n] + s[n..][..len];
    }
  }
}
