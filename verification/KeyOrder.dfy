/**
 Row keys compare as byte strings. Keys of one length compare exactly as the
 big-endian numbers they spell, which is the form the tree invariants use.
 */
module KeyOrder {
  import opened Bytes
  import opened Params

  predicate LexLess(a: seq<Byte>, b: seq<Byte>)
    decreases |a|
  {
    b != [] && (a == [] || a[0] < b[0] || (a[0] == b[0] && LexLess(a[1..], b[1..])))
  }

  lemma {:induction false} ScaledMonotone(d: nat, e: nat, w: nat)
    requires d < e
    ensures d * w + w <= e * w
  {
    assert e * w == (e - 1) * w + w;
    if d + 1 < e {
      ScaledMonotone(d, e - 1, w);
    }
  }

  function Num(k: seq<Byte>): nat
  {
    if k == [] then 0 else k[0] * Pow256(|k| - 1) + Num(k[1..])
  }

  lemma {:induction false} NumBound(k: seq<Byte>)
    ensures Num(k) < Pow256(|k|)
  {
    if k != [] {
      NumBound(k[1..]);
      ScaledMonotone(k[0], 256, Pow256(|k| - 1));
    }
  }

  lemma {:induction false} LexIsNumeric(a: seq<Byte>, b: seq<Byte>)
    requires |a| == |b|
    ensures LexLess(a, b) <==> Num(a) < Num(b)
    ensures a == b <==> Num(a) == Num(b)
  {
    if a != [] {
      LexIsNumeric(a[1..], b[1..]);
      var w := Pow256(|a| - 1);
      assert a == [a[0]] + a[1..] && b == [b[0]] + b[1..];
      NumBound(a[1..]);
      NumBound(b[1..]);
      if a[0] < b[0] {
        ScaledMonotone(a[0], b[0], w);
      } else if b[0] < a[0] {
        ScaledMonotone(b[0], a[0], w);
      }
    }
  }

  method Smallest(keys: set<seq<Byte>>) returns (k: seq<Byte>)
    requires keys != {}
    ensures k in keys && forall j :: j in keys ==> Num(k) <= Num(j)
  {
    hide Num;
    k :| k in keys;
    var todo := keys;
    while todo != {}
      invariant todo <= keys && k in keys && forall j :: j in keys && j !in todo ==> Num(k) <= Num(j)
    {
      var j :| j in todo;
      if Num(j) < Num(k) {
        k := j;
      }
      todo := todo - {j};
    }
  }

  /** One past the largest 16-byte key. */
  const KEY_LIMIT: nat := Pow256(KEY_SIZE)
}
