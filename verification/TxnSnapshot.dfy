/** The snapshot file of txn_kv: the latest live value of every key, at one timestamp. */
module TxnSnapshot {
  import opened Bytes
  import opened Params
  import opened TxnCodec
  import opened TxnStore

  const SNAPSHOT_MAGIC := 0x53534E50
  const SNAPSHOT_VERSION := 1

  datatype Entry = Entry(key: Key, value: Value)

  predicate EntryFits(e: Entry) {
    |e.key| == KEY_SIZE && |e.value| <= VALUE_SIZE
  }

  function EntryBytes(e: Entry): seq<Byte> {
    e.key + ToLe(|e.value|, 4) + e.value
  }

  function ParseEntry(s: seq<Byte>): (r: Result<(Entry, nat), Error>)
    ensures r.Ok? ==> KEY_SIZE < r.value.1 <= |s|
  {
    if |s| < KEY_SIZE + 4 then Err(Truncated)
    else
      var len := ReadLe(s, KEY_SIZE, 4);
      if len > VALUE_SIZE then Err(InvalidValueSize(len))
      else if |s| < KEY_SIZE + 4 + len then Err(Truncated)
      else Ok((Entry(s[..KEY_SIZE], s[KEY_SIZE + 4..KEY_SIZE + 4 + len]), KEY_SIZE + 4 + len))
  }

  function EntriesBytes(es: seq<Entry>): seq<Byte> {
    if es == [] then [] else EntryBytes(es[0]) + EntriesBytes(es[1..])
  }

  function ParseEntries(s: seq<Byte>, n: nat): Result<seq<Entry>, Error> {
    if n == 0 then
      if s == [] then Ok([]) else Err(LengthMismatch)
    else
      match ParseEntry(s)
      case Err(e) => Err(e)
      case Ok((e, used)) =>
        match ParseEntries(s[used..], n - 1)
        case Err(x) => Err(x)
        case Ok(rest) => Ok([e] + rest)
  }

  function SnapshotBytes(ts: nat, es: seq<Entry>): seq<Byte> {
    ToLe(SNAPSHOT_MAGIC, 4) + ToLe(SNAPSHOT_VERSION, 4) + ToLe(ts, 8) + ToLe(|es|, 4) + EntriesBytes(es)
  }

  function StoreOf(es: seq<Entry>, ts: nat): Store {
    if es == [] then map[]
    else Push(StoreOf(es[..|es| - 1], ts), es[|es| - 1].key, Version(ts, Some(es[|es| - 1].value)))
  }

  function ParseSnapshot(s: seq<Byte>): Result<(Store, nat), Error> {
    if |s| < 20 then Err(TooShort)
    else if ReadLe(s, 0, 4) != SNAPSHOT_MAGIC then Err(BadMagic)
    else if ReadLe(s, 4, 4) != SNAPSHOT_VERSION then Err(BadVersion)
    else
      match ParseEntries(s[20..], ReadLe(s, 16, 4))
      case Err(e) => Err(e)
      case Ok(es) => Ok((StoreOf(es, ReadLe(s, 8, 8)), ReadLe(s, 8, 8)))
  }

  lemma ParseEntryInverts(e: Entry, rest: seq<Byte>)
    requires EntryFits(e)
    ensures ParseEntry(EntryBytes(e) + rest) == Ok((e, |EntryBytes(e)|))
  {
    Pow256Values();
    LeRoundTrip(|e.value|, 4);
    hide ToLe, FromLe;
    var s := EntryBytes(e) + rest;
    assert s[..KEY_SIZE] == e.key && s[KEY_SIZE..KEY_SIZE + 4] == ToLe(|e.value|, 4);
    assert s[KEY_SIZE + 4..KEY_SIZE + 4 + |e.value|] == e.value;
  }

  lemma {:induction false} ParseEntriesInverts(es: seq<Entry>)
    requires forall i :: 0 <= i < |es| ==> EntryFits(es[i])
    ensures ParseEntries(EntriesBytes(es), |es|) == Ok(es)
  {
    if es != [] {
      ParseEntryInverts(es[0], EntriesBytes(es[1..]));
      ParseEntriesInverts(es[1..]);
      hide EntryBytes, ParseEntry;
      assert EntriesBytes(es)[|EntryBytes(es[0])|..] == EntriesBytes(es[1..]);
      assert [es[0]] + es[1..] == es;
    }
  }

  lemma {:induction false} SnapshotInverts(ts: nat, es: seq<Entry>)
    requires ts < U64_LIMIT && |es| < U32_LIMIT && forall i :: 0 <= i < |es| ==> EntryFits(es[i])
    ensures ParseSnapshot(SnapshotBytes(ts, es)) == Ok((StoreOf(es, ts), ts))
  {
    hide ToLe, FromLe, EntriesBytes, ParseEntries, StoreOf, SnapshotBytes, EntryFits;
    ParseEntriesInverts(es);
    SnapshotFields(ts, es);
  }

  lemma ParseEntryExactly(s: seq<Byte>)
    requires ParseEntry(s).Ok?
    ensures var (e, used) := ParseEntry(s).value; EntryFits(e) && used <= |s| && s[..used] == EntryBytes(e)
  {
    hide ToLe, FromLe;
    LeOf(s[KEY_SIZE..KEY_SIZE + 4]);
    var (e, used) := ParseEntry(s).value;
    assert s[..used] == s[..KEY_SIZE] + s[KEY_SIZE..KEY_SIZE + 4] + s[KEY_SIZE + 4..used];
  }

  lemma {:induction false} ParseEntriesExactly(s: seq<Byte>, n: nat)
    requires ParseEntries(s, n).Ok?
    ensures var es := ParseEntries(s, n).value;
            |es| == n && s == EntriesBytes(es) && forall i :: 0 <= i < n ==> EntryFits(es[i])
  {
    hide EntryFits, EntryBytes, ParseEntry;
    if n > 0 {
      var (e, used) := ParseEntry(s).value;
      ParseEntryExactly(s);
      ParseEntriesExactly(s[used..], n - 1);
      var es := ParseEntries(s, n).value;
      assert es[1..] == ParseEntries(s[used..], n - 1).value;
      assert s == s[..used] + s[used..];
    }
  }

  /** Only snapshots load: what is accepted is the encoding, byte for byte, of the entries it loads. */
  lemma {:induction false} LoadsOnlySnapshots(s: seq<Byte>)
    requires ParseSnapshot(s).Ok?
    ensures var (store, ts) := ParseSnapshot(s).value;
            exists es ::
              && s == SnapshotBytes(ts, es) && store == StoreOf(es, ts) && |es| < U32_LIMIT && ts < U64_LIMIT
              && forall i :: 0 <= i < |es| ==> EntryFits(es[i])
  {
    hide FromLe, ToLe, EntriesBytes, ParseEntries, StoreOf, EntryFits;
    Pow256Values();
    LeOf(s[0..4]);
    LeOf(s[4..8]);
    LeOf(s[8..16]);
    LeOf(s[16..20]);
    var ts, n := ReadLe(s, 8, 8), ReadLe(s, 16, 4);
    ParseEntriesExactly(s[20..], n);
    var es := ParseEntries(s[20..], n).value;
    assert s == s[0..4] + s[4..8] + s[8..16] + s[16..20] + s[20..];
    assert s == SnapshotBytes(ts, es);
  }

  lemma {:induction false} SnapshotFields(ts: nat, es: seq<Entry>)
    requires ts < U64_LIMIT && |es| < U32_LIMIT
    ensures var s := SnapshotBytes(ts, es);
            && |s| >= 20 && ReadLe(s, 0, 4) == SNAPSHOT_MAGIC && ReadLe(s, 4, 4) == SNAPSHOT_VERSION
            && ReadLe(s, 8, 8) == ts && ReadLe(s, 16, 4) == |es| && s[20..] == EntriesBytes(es)
  {
    Pow256Values();
    LeRoundTrip(SNAPSHOT_MAGIC, 4);
    LeRoundTrip(SNAPSHOT_VERSION, 4);
    LeRoundTrip(ts, 8);
    LeRoundTrip(|es|, 4);
    hide ToLe, FromLe, EntriesBytes;
    FileParts(ToLe(SNAPSHOT_MAGIC, 4), ToLe(SNAPSHOT_VERSION, 4), ToLe(ts, 8), ToLe(|es|, 4), EntriesBytes(es));
  }

  lemma FileParts(a: seq<Byte>, b: seq<Byte>, c: seq<Byte>, d: seq<Byte>, rest: seq<Byte>)
    requires |a| == |b| == |d| == 4 && |c| == 8
    ensures var s := a + b + c + d + rest;
            s[0..4] == a && s[4..8] == b && s[8..16] == c && s[16..20] == d && s[20..] == rest
  {
  }

  // ---- What a snapshot keeps ----

  /** `es` lists the latest value of every key that has one, each key once. */
  ghost predicate Lists(es: seq<Entry>, store: Store) {
    && (forall i, j :: 0 <= i < j < |es| ==> es[i].key != es[j].key)
    && (forall i :: 0 <= i < |es| ==> Latest(store, es[i].key) == Some(es[i].value))
    && (forall k :: Latest(store, k).Some? ==> exists i :: 0 <= i < |es| && es[i].key == k)
  }

  lemma {:induction false} StoreOfAt(es: seq<Entry>, ts: nat, k: Key)
    requires forall i, j :: 0 <= i < j < |es| ==> es[i].key != es[j].key
    ensures forall i :: 0 <= i < |es| && es[i].key == k ==>
              VersionsOf(StoreOf(es, ts), k) == [Version(ts, Some(es[i].value))]
    ensures (forall i :: 0 <= i < |es| ==> es[i].key != k) ==> VersionsOf(StoreOf(es, ts), k) == []
  {
    if es != [] {
      var n := |es| - 1;
      StoreOfAt(es[..n], ts, k);
      forall i | 0 <= i < |es| && es[i].key == k
        ensures VersionsOf(StoreOf(es, ts), k) == [Version(ts, Some(es[i].value))]
      {
        if i < n {
          assert es[..n][i] == es[i];
        }
      }
    }
  }

  /** Loading a snapshot gives a store with the same latest values, all at the snapshot's timestamp. */
  lemma {:induction false} SnapshotKeepsLatest(es: seq<Entry>, store: Store, ts: nat)
    requires Lists(es, store)
    ensures forall k :: Latest(StoreOf(es, ts), k) == Latest(store, k)
    ensures forall k, i :: 0 <= i < |VersionsOf(StoreOf(es, ts), k)| ==> VersionsOf(StoreOf(es, ts), k)[i].ts == ts
    ensures forall k :: |VersionsOf(StoreOf(es, ts), k)| <= 1
  {
    forall k
      ensures Latest(StoreOf(es, ts), k) == Latest(store, k)
      ensures |VersionsOf(StoreOf(es, ts), k)| <= 1
      ensures forall i :: 0 <= i < |VersionsOf(StoreOf(es, ts), k)| ==> VersionsOf(StoreOf(es, ts), k)[i].ts == ts
    {
      StoreOfAt(es, ts, k);
    }
  }

  method CollectEntries(store: Store) returns (es: seq<Entry>)
    ensures Lists(es, store)
  {
    hide Latest;
    var todo := store.Keys;
    es := [];
    NoVersions(store);
    while todo != {}
      invariant todo <= store.Keys
      invariant forall i, j :: 0 <= i < j < |es| ==> es[i].key != es[j].key
      invariant forall i :: 0 <= i < |es| ==> es[i].key !in todo && Latest(store, es[i].key) == Some(es[i].value)
      invariant forall k :: Latest(store, k).Some? && k !in todo ==> exists i :: 0 <= i < |es| && es[i].key == k
    {
      var k :| k in todo;
      var v := Latest(store, k);
      ghost var before := es;
      if v.Some? {
        es := es + [Entry(k, v.value)];
        assert es[|before|].key == k;
      }
      assert forall i :: 0 <= i < |before| ==> es[i] == before[i];
      todo := todo - {k};
    }
  }

  lemma NoVersions(store: Store)
    ensures forall k :: k !in store ==> Latest(store, k) == None
  {
  }

  /** The keys whose latest version holds a value. */
  ghost function LiveKeys(store: Store): set<Key> {
    set k | k in store && Latest(store, k).Some?
  }

  lemma {:induction false} KeysCounted(es: seq<Entry>, n: nat)
    requires n <= |es| && forall i, j :: 0 <= i < j < |es| ==> es[i].key != es[j].key
    ensures |set i | 0 <= i < n :: es[i].key| == n
  {
    if n > 0 {
      KeysCounted(es, n - 1);
      var less := set i | 0 <= i < n - 1 :: es[i].key;
      assert (set i | 0 <= i < n :: es[i].key) == less + {es[n - 1].key};
      assert es[n - 1].key !in less;
    }
  }

  /** A listing has one entry for each live key, so its size and its values are the store's own. */
  lemma {:induction false} ListsCount(es: seq<Entry>, store: Store)
    requires Lists(es, store)
    ensures |es| == |LiveKeys(store)|
    ensures (forall i :: 0 <= i < |es| ==> |es[i].value| <= VALUE_SIZE) <==>
              forall k :: k in LiveKeys(store) ==> |Latest(store, k).value| <= VALUE_SIZE
  {
    hide Latest;
    NoVersions(store);
    KeysCounted(es, |es|);
    forall k ensures k in LiveKeys(store) <==> exists i :: 0 <= i < |es| && es[i].key == k {
    }
    assert LiveKeys(store) == set i | 0 <= i < |es| :: es[i].key;
    forall i | 0 <= i < |es| ensures es[i].key in LiveKeys(store) && Latest(store, es[i].key).value == es[i].value {
    }
  }

  method WriteEntries(entries: seq<Entry>) returns (r: Result<seq<Byte>, Error>)
    ensures r.Ok? <==> forall i :: 0 <= i < |entries| ==> |entries[i].value| <= VALUE_SIZE
    ensures r.Ok? ==> r.value == EntriesBytes(entries)
  {
    hide ToLe, EntryBytes;
    var body, i := [], 0;
    assert [] + EntriesBytes(entries[0..]) == EntriesBytes(entries) by { assert entries[0..] == entries; }
    while i < |entries|
      invariant i <= |entries| && forall j :: 0 <= j < i ==> |entries[j].value| <= VALUE_SIZE
      invariant body + EntriesBytes(entries[i..]) == EntriesBytes(entries)
    {
      if |entries[i].value| > VALUE_SIZE {
        return Err(InvalidValueSize(|entries[i].value|));
      }
      assert entries[i..][1..] == entries[i + 1..];
      assert body + (EntryBytes(entries[i]) + EntriesBytes(entries[i + 1..]))
          == body + EntryBytes(entries[i]) + EntriesBytes(entries[i + 1..]);
      body := body + EntryBytes(entries[i]);
      i := i + 1;
    }
    assert body == EntriesBytes(entries) by { assert entries[i..] == [] && body + [] == body; }
    r := Ok(body);
  }

  /** Writes the snapshot, or fails when there are too many entries or a value is too long. */
  method WriteSnapshot(ts: nat, store: Store) returns (r: Result<seq<Byte>, Error>, ghost es: seq<Entry>)
    ensures Lists(es, store)
    ensures r.Ok? <==>
              && |LiveKeys(store)| < U32_LIMIT
              && forall k :: k in LiveKeys(store) ==> |Latest(store, k).value| <= VALUE_SIZE
    ensures r.Ok? ==> |es| < U32_LIMIT && forall i :: 0 <= i < |es| ==> |es[i].value| <= VALUE_SIZE
    ensures r.Ok? ==> r.value == SnapshotBytes(ts, es)
  {
    hide ToLe, EntriesBytes, Lists, LiveKeys, Latest;
    var entries := CollectEntries(store);
    es := entries;
    ListsCount(es, store);
    if |entries| >= U32_LIMIT {
      return Err(Truncated), es;
    }
    var head := ToLe(SNAPSHOT_MAGIC, 4) + ToLe(SNAPSHOT_VERSION, 4) + ToLe(ts, 8) + ToLe(|entries|, 4);
    var body := WriteEntries(entries);
    if body.Err? {
      return Err(body.error), es;
    }
    r := Ok(head + body.value);
  }

  /** The cursor loop that loads a snapshot file. */
  method LoadSnapshot(s: seq<Byte>) returns (r: Result<(Store, nat), Error>)
    ensures r == ParseSnapshot(s)
  {
    hide ParseEntry, FromLe, StoreOf;
    if |s| < 20 {
      return Err(TooShort);
    }
    if ReadLe(s, 0, 4) != SNAPSHOT_MAGIC {
      return Err(BadMagic);
    }
    if ReadLe(s, 4, 4) != SNAPSHOT_VERSION {
      return Err(BadVersion);
    }
    var ts, n := ReadLe(s, 8, 8), ReadLe(s, 16, 4);
    ghost var es := [];
    var store, cursor, i := map[], 20, 0;
    StoreOfNone(ts);
    AppendNothing(ParseEntries(s[20..], n));
    while i < n
      invariant i <= n && 20 <= cursor <= |s| && store == StoreOf(es, ts)
      invariant ParseEntries(s[20..], n) == After(es, ParseEntries(s[cursor..], n - i))
    {
      var one := ParseEntry(s[cursor..]);
      if one.Err? {
        return Err(one.error);
      }
      var (e, used) := one.value;
      assert s[cursor..][used..] == s[cursor + used..];
      AfterMore(es, e, ParseEntries(s[cursor + used..], n - i - 1));
      StoreOfPush(es, e, ts);
      store := Push(store, e.key, Version(ts, Some(e.value)));
      es := es + [e];
      cursor := cursor + used;
      i := i + 1;
    }
    if cursor != |s| {
      return Err(LengthMismatch);
    }
    assert s[cursor..] == [] && es + [] == es;
    r := Ok((store, ts));
  }

  ghost function After(es: seq<Entry>, r: Result<seq<Entry>, Error>): Result<seq<Entry>, Error> {
    match r
    case Err(e) => Err(e)
    case Ok(rest) => Ok(es + rest)
  }

  lemma AppendNothing(r: Result<seq<Entry>, Error>)
    ensures After([], r) == r
  {
    if r.Ok? {
      assert [] + r.value == r.value;
    }
  }

  lemma AfterMore(es: seq<Entry>, e: Entry, r: Result<seq<Entry>, Error>)
    ensures After(es, After([e], r)) == After(es + [e], r)
  {
    if r.Ok? {
      assert es + ([e] + r.value) == es + [e] + r.value;
    }
  }

  lemma {:induction false} StoreOfNone(ts: nat)
    ensures StoreOf([], ts) == map[]
  {
  }

  lemma {:induction false} StoreOfPush(es: seq<Entry>, e: Entry, ts: nat)
    ensures StoreOf(es + [e], ts) == Push(StoreOf(es, ts), e.key, Version(ts, Some(e.value)))
  {
    assert (es + [e])[..|es|] == es;
  }
}
