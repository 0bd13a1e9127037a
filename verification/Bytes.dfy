/** Bytes, little-endian integers and in-place writes into a page buffer. */
module Bytes {

  type Byte = b: int | 0 <= b < 256

  datatype Option<+T> = None | Some(value: T)

  datatype Result<+T, +E> = Ok(value: T) | Err(error: E)

  function Pow256(n: nat): (p: nat)
    ensures p >= 1
  {
    if n == 0 then 1 else 256 * Pow256(n - 1)
  }

  lemma Pow256Values()
    ensures Pow256(2) == 0x1_0000
    ensures Pow256(4) == 0x1_0000_0000
    ensures Pow256(8) == 0x1_0000_0000_0000_0000
  {
    assert Pow256(1) == 256;
    assert Pow256(3) == 0x100_0000;
    assert Pow256(5) == 0x100_0000_0000;
    assert Pow256(6) == 0x1_0000_0000_0000;
    assert Pow256(7) == 0x100_0000_0000_0000;
  }

  /** The low `n` bytes of `v`, least significant first; higher bytes are cut off as by an `as` cast. */
  function ToLe(v: nat, n: nat): (s: seq<Byte>)
    ensures |s| == n
  {
    if n == 0 then [] else [v % 256] + ToLe(v / 256, n - 1)
  }

  function FromLe(s: seq<Byte>): (v: nat)
    ensures v < Pow256(|s|)
  {
    if s == [] then 0 else s[0] + 256 * FromLe(s[1..])
  }

  lemma {:induction false} LeRoundTrip(v: nat, n: nat)
    requires v < Pow256(n)
    ensures FromLe(ToLe(v, n)) == v
  {
    if n > 0 {
      LeRoundTrip(v / 256, n - 1);
      assert ToLe(v, n)[1..] == ToLe(v / 256, n - 1);
    }
  }

  lemma {:induction false} LeInjective(s: seq<Byte>, t: seq<Byte>)
    requires |s| == |t| && FromLe(s) == FromLe(t)
    ensures s == t
  {
    if s != [] {
      assert s[0] == FromLe(s) % 256 == t[0];
      LeInjective(s[1..], t[1..]);
      assert s == [s[0]] + s[1..] && t == [t[0]] + t[1..];
    }
  }

  /** Reading bytes and writing the number back gives the same bytes. */
  lemma {:induction false} LeOf(w: seq<Byte>)
    ensures ToLe(FromLe(w), |w|) == w
  {
    LeRoundTrip(FromLe(w), |w|);
    LeInjective(ToLe(FromLe(w), |w|), w);
  }

  /** An `as u16` cast. */
  function AsU16(v: nat): (r: nat)
    ensures r < 0x1_0000 && r <= v
    ensures v < 0x1_0000 ==> r == v
  {
    v % 0x1_0000
  }

  function Zeros(n: nat): (s: seq<Byte>)
    ensures |s| == n && forall i :: 0 <= i < n ==> s[i] == 0
  {
    seq(n, i => 0)
  }

  /** `s` with the bytes from `off` on overwritten by `data`. */
  function Splice(s: seq<Byte>, off: nat, data: seq<Byte>): (t: seq<Byte>)
    requires off + |data| <= |s|
    ensures |t| == |s|
    ensures t[off..off + |data|] == data
    ensures t[..off] == s[..off] && t[off + |data|..] == s[off + |data|..]
  {
    s[..off] + data + s[off + |data|..]
  }

  /** A slice that does not meet the overwritten window is unchanged. */
  lemma SpliceElsewhere(s: seq<Byte>, off: nat, data: seq<Byte>, lo: nat, hi: nat)
    requires off + |data| <= |s|
    requires lo <= hi <= |s|
    requires hi <= off || off + |data| <= lo
    ensures Splice(s, off, data)[lo..hi] == s[lo..hi]
  {
    var t := Splice(s, off, data);
    if hi <= off {
      assert t[lo..hi] == t[..off][lo..hi] == s[..off][lo..hi] == s[lo..hi];
    } else {
      var e := off + |data|;
      assert t[lo..hi] == t[e..][lo - e..hi - e] == s[e..][lo - e..hi - e] == s[lo..hi];
    }
  }

  method CopyInto(a: array<Byte>, off: nat, data: seq<Byte>)
    requires off + |data| <= a.Length
    modifies a
    ensures a[..] == Splice(old(a[..]), off, data)
  {
    ghost var before := a[..];
    var i := 0;
    while i < |data|
      invariant 0 <= i <= |data|
      invariant forall j :: 0 <= j < i ==> a[off + j] == data[j]
      invariant forall j :: 0 <= j < a.Length && !(off <= j < off + i) ==> a[j] == before[j]
    {
      a[off + i] := data[i];
      i := i + 1;
    }
  }

  function ReadLe(s: seq<Byte>, off: nat, n: nat): (v: nat)
    requires off + n <= |s|
    ensures v < Pow256(n)
  {
    FromLe(s[off..off + n])
  }

  /** Consecutive slices join. */
  lemma JoinSlices(s: seq<Byte>, a: nat, b: nat, c: nat)
    requires a <= b <= c <= |s|
    ensures s[a..b] + s[b..c] == s[a..c]
  {
  }

  lemma SubSlice(s: seq<Byte>, a: nat, b: nat, i: nat, j: nat)
    requires a <= b <= |s| && i <= j <= b - a
    ensures s[a..b][i..j] == s[a + i..a + j]
  {
    forall k | 0 <= k < j - i
      ensures s[a..b][i..j][k] == s[a + i..a + j][k]
    {
    }
  }

  /** A prefix spelled as `a + b` splits at `|a|`. */
  lemma SplitPrefix(s: seq<Byte>, a: seq<Byte>, b: seq<Byte>)
    requires |a| + |b| <= |s| && s[..|a| + |b|] == a + b
    ensures s[..|a|] == a && s[|a|..|a| + |b|] == b
  {
    var w := s[..|a| + |b|];
    assert s[..|a|] == w[..|a|] && s[|a|..|a| + |b|] == w[|a|..];
  }

  lemma TailSlices(p: seq<Byte>, k: seq<Byte>, v: seq<Byte>)
    ensures var s := p + (k + v);
            && s[|p|..|p| + |k|] == k
            && s[|p| + |k|..|p| + |k| + |v|] == v
            && s[..|p|] == p
  {
  }

  lemma SpliceNothing(s: seq<Byte>, off: nat)
    requires off <= |s|
    ensures Splice(s, off, []) == s
  {
  }

  // ---- Writing a run of fields one after the other ----

  lemma SpliceJoin(s: seq<Byte>, off: nat, a: seq<Byte>, b: seq<Byte>)
    requires off + |a| + |b| <= |s|
    ensures Splice(Splice(s, off, a), off + |a|, b) == Splice(s, off, a + b)
  {
    var t := Splice(s, off, a);
    assert t[..off + |a|] == s[..off] + a;
    assert t[off + |a| + |b|..] == s[off + |a| + |b|..];
  }

  /** Bytes stepped over keep what they had. */
  lemma SpliceSkip(s: seq<Byte>, off: nat, a: seq<Byte>, n: nat)
    requires off + |a| + n <= |s|
    ensures Splice(s, off, a) == Splice(s, off, a + s[off + |a|..off + |a| + n])
  {
  }

  /** Writes `data` right after the bytes `done` already written from `off` on. */
  method Emit(a: array<Byte>, off: nat, ghost before: seq<Byte>, ghost done: seq<Byte>, pos: nat, data: seq<Byte>)
    requires |before| == a.Length && pos == |done| && off + pos + |data| <= a.Length
    requires a[..] == Splice(before, off, done)
    modifies a
    ensures a[..] == Splice(before, off, done + data)
  {
    CopyInto(a, off + pos, data);
    SpliceJoin(before, off, done, data);
  }

  // ---- Counting ----

  lemma {:induction false} SubsetSize<T>(a: set<T>, b: set<T>)
    requires a <= b
    ensures |a| <= |b|
  {
    if a != {} {
      var x :| x in a;
      SubsetSize(a - {x}, b - {x});
    }
  }
}
