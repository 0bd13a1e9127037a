/** A range scan of the page B+Tree that goes wrong, on a tree built by inserts. */
module RangeLimit {
  import opened Bytes
  import opened Params
  import opened KeyOrder
  import opened TreePage
  import opened TreeHeight
  import opened TreeScan
  import opened TreeCount
  import opened BPlusTree

  /** `i` as `n` bytes, most significant first. */
  function BigEndian(i: nat, n: nat): (s: seq<Byte>)
    ensures |s| == n
    decreases n
  {
    if n == 0 then [] else BigEndian(i / 256, n - 1) + [i % 256]
  }

  lemma {:induction false} NumSnoc(s: seq<Byte>, b: Byte)
    ensures Num(s + [b]) == Num(s) * 256 + b
  {
    if s == [] {
      assert s + [b] == [b];
    } else {
      NumSnoc(s[1..], b);
      assert (s + [b])[1..] == s[1..] + [b];
      assert Pow256(|s|) == 256 * Pow256(|s| - 1);
    }
  }

  lemma {:induction false} NumOfBigEndian(i: nat, n: nat)
    requires i < Pow256(n)
    ensures Num(BigEndian(i, n)) == i
    decreases n
  {
    if n > 0 {
      NumOfBigEndian(i / 256, n - 1);
      NumSnoc(BigEndian(i / 256, n - 1), i % 256);
    }
  }

  const MANY := LEAF_CAPACITY * MAX_SCAN_LEAF_HOPS + 1

  function RowKey(i: nat): seq<Byte> {
    BigEndian(i, KEY_SIZE)
  }

  lemma RowKeyNumber(i: nat)
    requires i <= MANY
    ensures |RowKey(i)| == KEY_SIZE && Num(RowKey(i)) == i
  {
    assert Pow256(3) <= Pow256(KEY_SIZE) by { Pow256Grows(3, KEY_SIZE); }
    assert Pow256(3) == 16_777_216;
    NumOfBigEndian(i, KEY_SIZE);
  }

  lemma {:induction false} Pow256Grows(a: nat, b: nat)
    requires a <= b
    ensures Pow256(a) <= Pow256(b)
    decreases b
  {
    if a < b {
      Pow256Grows(a, b - 1);
    }
  }

  lemma {:induction false} CountBelow(m: map<nat, seq<Byte>>, n: nat)
    requires forall k: nat :: k in m <==> k < n
    ensures |KeysWithin(m, 0, n)| == n
  {
    assert KeysWithin(m, 0, n) == m.Keys;
    SizeBelow(m.Keys, n);
  }

  lemma {:induction false} SizeBelow(s: set<nat>, n: nat)
    requires forall k: nat :: k in s <==> k < n
    ensures |s| == n
    decreases n
  {
    if n == 0 {
      assert s == {};
    } else {
      SizeBelow(s - {n - 1}, n - 1);
    }
  }

  /** A tree holding the row keys of the first 122881 numbers. */
  method Build(value: seq<Byte>) returns (t: PageBPlusTree)
    requires |value| == LEAF_VALUE_SIZE
    ensures fresh(t) && t.Valid() && forall k: nat :: k in t.store <==> k < MANY
  {
    hide Tree, PagesHold, Num, BigEndian, RowKey;
    t := new PageBPlusTree();
    var i := 0;
    while i < MANY
      invariant 0 <= i <= MANY && fresh(t) && t.Valid()
      invariant t.nextPageId <= 2 + 131 * i
      invariant forall k: nat :: k in t.store <==> k < i
    {
      RowKeyNumber(i);
      var r := t.Insert(RowKey(i), value);
      i := i + 1;
    }
  }

  /** The range over all of its keys comes back out of order, with keys repeated. */
  method UnsortedRange(value: seq<Byte>) returns (out: seq<Entry>)
    requires |value| == LEAF_VALUE_SIZE
    ensures !Ascending(out)
  {
    hide Tree, PagesHold, Num, BigEndian, RowKey, Ascending, Listing, ScanSet, KeysWithin;
    var t := Build(value);
    RowKeyNumber(0);
    RowKeyNumber(MANY - 1);
    CountBelow(t.store, MANY);
    out := t.Range(RowKey(0), RowKey(MANY - 1));
  }
}
