/**
 The leaf chain: it lists the leaves in key order, and scanning it lists the
 stored entries of a key range in ascending order.
 */
module TreeScan {
  import opened Bytes
  import opened Params
  import opened KeyOrder
  import opened TreePage
  import opened TreeModel
  import opened TreePut

  // ------------------------------------------------------- in-order leaves

  /** The leaves under page `p` at height `h`, left to right. */
  ghost function Leaves(n: Nodes, p: PageId, h: nat): seq<PageId>
    decreases h, if p in n then |n[p].entries| + 2 else 0
  {
    if h == 0 || p !in n then [p] else KidLeaves(n, p, h, |n[p].entries| + 1)
  }

  /** The leaves under the first `i` children of `p`. */
  ghost function KidLeaves(n: Nodes, p: PageId, h: nat, i: nat): seq<PageId>
    requires p in n && h > 0 && i <= |n[p].entries| + 1
    decreases h, i
  {
    if i == 0 then [] else KidLeaves(n, p, h, i - 1) + Leaves(n, Kid(n[p], i - 1), h - 1)
  }

  lemma KidBelow(n: Nodes, g: Places, root: PageId, p: PageId, i: nat)
    requires Wf(n, g, root) && p in g && !IsLeaf(n[p]) && i <= |n[p].entries|
    ensures p in n && KidOk(n[p], g, p, i) && Kid(n[p], i) in g && g[Kid(n[p], i)].level < g[p].level
  {
    hide Wf, Sorted, KeysSized, KeysInRange, HighKeyOk, K, Kid;
    NodeOf(n, g, root, p);
    assert KidOk(n[p], g, p, i);
  }

  /** Leaves whose ranges follow each other from `lo` to `hi`. */
  ghost predicate Run(g: Places, ids: seq<PageId>, lo: nat, hi: nat) {
    && |ids| > 0
    && (forall i :: 0 <= i < |ids| ==> ids[i] in g && g[ids[i]].level == 0)
    && g[ids[0]].lo == lo && g[ids[|ids| - 1]].hi == hi
    && (forall i :: 0 <= i < |ids| - 1 ==> g[ids[i]].hi == g[ids[i + 1]].lo)
  }

  lemma RunJoin(g: Places, a: seq<PageId>, b: seq<PageId>, lo: nat, mid: nat, hi: nat)
    requires Run(g, a, lo, mid) && Run(g, b, mid, hi)
    ensures Run(g, a + b, lo, hi)
  {
    var s := a + b;
    forall i | 0 <= i < |s| - 1
      ensures g[s[i]].hi == g[s[i + 1]].lo
    {
      if i == |a| - 1 {
        assert s[i] == a[|a| - 1] && s[i + 1] == b[0];
      } else if i >= |a| {
        assert s[i] == b[i - |a|] && s[i + 1] == b[i - |a| + 1];
      }
    }
  }

  lemma {:induction false} LeavesRun(n: Nodes, g: Places, root: PageId, p: PageId)
    requires Wf(n, g, root) && p in g
    ensures Run(g, Leaves(n, p, g[p].level), g[p].lo, g[p].hi)
    decreases g[p].level, |n[p].entries| + 2
  {
    hide Wf, Run, NodeOk;
    NodeOf(n, g, root, p);
    LeafBounds(n, g, root, p);
    if IsLeaf(n[p]) {
      RunOfOne(n, g, p);
    } else {
      KidLeavesRun(n, g, root, p, |n[p].entries| + 1);
    }
  }

  lemma RunOfOne(n: Nodes, g: Places, p: PageId)
    requires p in g && p in n && NodeOk(n[p], g, p) && IsLeaf(n[p])
    ensures Run(g, [p], g[p].lo, g[p].hi)
  {
  }

  lemma {:induction false} KidLeavesRun(n: Nodes, g: Places, root: PageId, p: PageId, i: nat)
    requires Wf(n, g, root) && p in g && p in n && !IsLeaf(n[p]) && g[p].level > 0 && 0 < i <= |n[p].entries| + 1
    ensures Run(g, KidLeaves(n, p, g[p].level, i), g[p].lo, KidHi(n[p], g[p], i - 1))
    decreases g[p].level, i
  {
    hide Wf, Run, K, Kid;
    KidBelow(n, g, root, p, i - 1);
    var c := Kid(n[p], i - 1);
    LeavesRun(n, g, root, c);
    if i == 1 {
      assert KidLeaves(n, p, g[p].level, 0) == [];
      assert KidLeaves(n, p, g[p].level, 1) == Leaves(n, c, g[c].level);
    } else {
      KidLeavesRun(n, g, root, p, i - 1);
      RunJoin(g, KidLeaves(n, p, g[p].level, i - 1), Leaves(n, c, g[c].level), g[p].lo, g[c].lo, g[c].hi);
    }
  }

  lemma LeafBounds(n: Nodes, g: Places, root: PageId, p: PageId)
    requires Wf(n, g, root) && p in g
    ensures p in n && g[p].lo < g[p].hi <= KEY_LIMIT && (g[p].level == 0 <==> IsLeaf(n[p]))
    ensures IsLeaf(n[p]) ==> NextOk(n[p], g, p)
  {
    hide Wf, NextOk;
    NodeOf(n, g, root, p);
    if IsLeaf(n[p]) {
      LeafNext(n, g, root, p);
    }
  }

  /** Two leaves that start at the same key are one leaf. */
  lemma SameStart(n: Nodes, g: Places, root: PageId, p: PageId, q: PageId)
    requires Wf(n, g, root) && p in g && q in g && g[p].level == 0 && g[q].level == 0 && g[p].lo == g[q].lo
    ensures p == q
  {
    hide Wf;
    LeafBounds(n, g, root, p);
    LeafBounds(n, g, root, q);
    CoverUnique(n, g, root, p, q, g[p].lo);
  }

  /** Some leaf of a run covers any key of its span. */
  lemma {:induction false} RunCovers(g: Places, ids: seq<PageId>, lo: nat, hi: nat, k: nat) returns (i: nat)
    requires Run(g, ids, lo, hi) && lo <= k < hi
    ensures i < |ids| && Covers(g[ids[i]], k)
  {
    i := 0;
    while g[ids[i]].hi <= k
      invariant i < |ids| && g[ids[i]].lo <= k
      decreases |ids| - i
    {
      assert i < |ids| - 1;
      i := i + 1;
    }
  }

  /** Following next-leaf links from the leftmost leaf visits exactly the leaves, in key order. */
  lemma {:induction false} ChainIsInOrder(n: Nodes, g: Places, root: PageId)
    requires Wf(n, g, root)
    ensures root in g
    ensures var ids := Leaves(n, root, g[root].level);
            && |ids| > 0
            && (forall i :: 0 <= i < |ids| ==> ids[i] in g && IsLeaf(n[ids[i]]))
            && (forall i :: 0 <= i < |ids| - 1 ==> n[ids[i]].header.nextLeaf == Some(ids[i + 1]))
            && n[ids[|ids| - 1]].header.nextLeaf == None
            && (forall p :: p in g && IsLeaf(n[p]) ==> p in ids)
            && (forall i, j :: 0 <= i < j < |ids| ==> g[ids[i]].hi <= g[ids[j]].lo)
  {
    hide Wf, Leaves, NodeOk;
    WfDomain(n, g, root);
    RootFull(n, g, root);
    LeavesRun(n, g, root, root);
    var ids := Leaves(n, root, g[root].level);
    forall i | 0 <= i < |ids|
      ensures ids[i] in g && IsLeaf(n[ids[i]])
    {
      LeafBounds(n, g, root, ids[i]);
    }
    forall i | 0 <= i < |ids| - 1
      ensures n[ids[i]].header.nextLeaf == Some(ids[i + 1])
    {
      NextInRun(n, g, root, ids[i], ids[i + 1]);
    }
    LastInRun(n, g, root, ids[|ids| - 1]);
    forall p | p in g && IsLeaf(n[p])
      ensures p in ids
    {
      LeafBounds(n, g, root, p);
      var i := RunCovers(g, ids, 0, KEY_LIMIT, g[p].lo);
      CoverUnique(n, g, root, p, ids[i], g[p].lo);
    }
    forall i, j | 0 <= i < j < |ids|
      ensures g[ids[i]].hi <= g[ids[j]].lo
    {
      RunOrdered(n, g, root, ids, 0, KEY_LIMIT, i, j);
    }
  }

  lemma RootFull(n: Nodes, g: Places, root: PageId)
    requires Wf(n, g, root)
    ensures root in g && g[root].lo == 0 && g[root].hi == KEY_LIMIT
  {
    hide NodeOk, NextOk;
  }

  lemma NextInRun(n: Nodes, g: Places, root: PageId, p: PageId, q: PageId)
    requires Wf(n, g, root) && p in g && q in g && g[p].level == 0 && g[q].level == 0 && g[p].hi == g[q].lo
    ensures p in n && n[p].header.nextLeaf == Some(q)
  {
    hide Wf;
    LeafBounds(n, g, root, p);
    LeafBounds(n, g, root, q);
    SameStart(n, g, root, n[p].header.nextLeaf.value, q);
  }

  lemma LastInRun(n: Nodes, g: Places, root: PageId, p: PageId)
    requires Wf(n, g, root) && p in g && g[p].level == 0 && g[p].hi == KEY_LIMIT
    ensures p in n && n[p].header.nextLeaf == None
  {
    hide Wf;
    LeafBounds(n, g, root, p);
    if n[p].header.nextLeaf.Some? {
      LeafBounds(n, g, root, n[p].header.nextLeaf.value);
    }
  }

  lemma {:induction false} RunOrdered(n: Nodes, g: Places, root: PageId, ids: seq<PageId>, lo: nat, hi: nat, i: nat,
                                      j: nat)
    requires Wf(n, g, root) && i < j < |ids| && Run(g, ids, lo, hi)
    ensures g[ids[i]].hi <= g[ids[j]].lo
    decreases j
  {
    hide Wf;
    if i < j - 1 {
      RunOrdered(n, g, root, ids, lo, hi, i, j - 1);
      LeafBounds(n, g, root, ids[j - 1]);
    }
  }

  /** A leaf's high key is the separator above it and the first key of the leaf its next link leads to. */
  lemma HighKeyIsNextFirst(n: Nodes, g: Places, root: PageId, p: PageId)
    requires Wf(n, g, root) && g.Keys <= n.Keys && Anchored(n, g)
    requires p in g && IsLeaf(n[p]) && n[p].header.nextLeaf.Some?
    ensures var q := n[p].header.nextLeaf.value;
            && q in g && n[q].entries != []
            && n[p].header.highKey == Some(n[q].entries[0].key)
            && Num(n[q].entries[0].key) == g[p].hi == g[q].lo
  {
    hide Wf, Num, KidOk;
    LeafBounds(n, g, root, p);
    NodeOf(n, g, root, p);
    var q := n[p].header.nextLeaf.value;
    LeafBounds(n, g, root, q);
    NodeOf(n, g, root, q);
    assert HasKey(n[q], g[q].lo);
    var i :| 0 <= i < |n[q].entries| && K(n[q], i) == g[q].lo;
    assert K(n[q], 0) == g[q].lo;
    LexIsNumeric(n[p].header.highKey.value, n[q].entries[0].key);
  }

  // --------------------------------------------------------------- listings

  ghost predicate Ascending(out: seq<Entry>) {
    forall i, j :: 0 <= i < j < |out| ==> Num(out[i].key) < Num(out[j].key)
  }

  /** `out` lists exactly the entries of `m` with keys in `[lo, hi)`, ascending and without duplicates. */
  ghost predicate Listing(out: seq<Entry>, m: map<nat, seq<Byte>>, lo: nat, hi: nat) {
    && Ascending(out)
    && (forall i :: 0 <= i < |out| ==>
          && |out[i].key| == KEY_SIZE
          && lo <= Num(out[i].key) < hi
          && Num(out[i].key) in m
          && m[Num(out[i].key)] == out[i].value)
    && (forall k :: k in m && lo <= k < hi ==> Listed(out, k))
  }

  ghost predicate Listed(out: seq<Entry>, k: nat) {
    exists i :: 0 <= i < |out| && Num(out[i].key) == k
  }

  lemma ListingPush(out: seq<Entry>, m: map<nat, seq<Byte>>, lo: nat, b: nat, e: Entry)
    requires Listing(out, m, lo, b) && lo <= b <= Num(e.key) && |e.key| == KEY_SIZE
    requires Num(e.key) in m && m[Num(e.key)] == e.value
    requires forall k :: k in m ==> !(b <= k < Num(e.key))
    ensures Listing(out + [e], m, lo, Num(e.key) + 1)
  {
    hide Num;
    var out' := out + [e];
    assert out'[|out|] == e;
    forall k | k in m && lo <= k < Num(e.key) + 1
      ensures Listed(out', k)
    {
      if k < b {
        assert Listed(out, k);
        var i :| 0 <= i < |out| && Num(out[i].key) == k;
        assert out'[i] == out[i];
      }
    }
  }

  lemma ListingWiden(out: seq<Entry>, m: map<nat, seq<Byte>>, lo: nat, b: nat, hi: nat)
    requires Listing(out, m, lo, b) && b <= hi
    requires forall k :: k in m && lo <= k ==> !(b <= k < hi)
    ensures Listing(out, m, lo, hi)
  {
    hide Num, Listed;
  }

  lemma ListingNarrow(out: seq<Entry>, m: map<nat, seq<Byte>>, lo: nat, b: nat, hi: nat)
    requires Listing(out, m, lo, b) && hi <= b
    requires forall i :: 0 <= i < |out| ==> Num(out[i].key) < hi
    ensures Listing(out, m, lo, hi)
  {
    hide Num, Listed;
  }

  /** A listing is the beginning of any longer one from the same start, and the only one of its range. */
  lemma ListingsAgree(a: seq<Entry>, b: seq<Entry>, m: map<nat, seq<Byte>>, lo: nat, ha: nat, hb: nat)
    requires Listing(a, m, lo, ha) && Listing(b, m, lo, hb) && ha <= hb
    ensures a <= b && (ha == hb ==> a == b)
  {
    hide Num, Listing;
    ListingPrefix(a, b, m, lo, ha, hb, |a|);
    assert a[..|a|] == a;
    if ha == hb {
      ListingPrefix(b, a, m, lo, hb, ha, |b|);
    }
  }

  lemma {:induction false} ListingPrefix(a: seq<Entry>, b: seq<Entry>, m: map<nat, seq<Byte>>, lo: nat, ha: nat,
                                         hb: nat, n: nat)
    requires Listing(a, m, lo, ha) && Listing(b, m, lo, hb) && ha <= hb && n <= |a|
    ensures n <= |b| && a[..n] == b[..n]
    decreases n
  {
    hide Num, Listing;
    if n > 0 {
      ListingPrefix(a, b, m, lo, ha, hb, n - 1);
      NextListed(a, b, m, lo, ha, hb, n - 1);
      assert a[..n] == a[..n - 1] + [a[n - 1]] && b[..n] == b[..n - 1] + [b[n - 1]];
    }
  }

  lemma NextListed(a: seq<Entry>, b: seq<Entry>, m: map<nat, seq<Byte>>, lo: nat, ha: nat, hb: nat, i: nat)
    requires Listing(a, m, lo, ha) && Listing(b, m, lo, hb) && ha <= hb && i < |a| && i <= |b| && a[..i] == b[..i]
    ensures i < |b| && b[i] == a[i]
  {
    hide Num;
    forall j | 0 <= j < i ensures a[j] == b[j] {
      assert a[..i][j] == b[..i][j];
    }
    assert Listed(b, Num(a[i].key));
    var j :| 0 <= j < |b| && Num(b[j].key) == Num(a[i].key);
    assert j >= i;
    assert Listed(a, Num(b[i].key));
    LexIsNumeric(a[i].key, b[i].key);
  }

  /** The stored keys a leaf covers are exactly its entries. */
  lemma LeafGap(n: Nodes, g: Places, root: PageId, m: map<nat, seq<Byte>>, home: map<nat, PageId>, p: PageId,
                idx: nat, lo: nat, hi: nat)
    requires Wf(n, g, root) && Contents(n, g, m, home) && p in g && IsLeaf(n[p]) && idx <= |n[p].entries|
    requires g[p].lo <= lo <= hi <= g[p].hi
    requires forall i :: 0 <= i < idx ==> K(n[p], i) < lo
    requires forall i :: idx <= i < |n[p].entries| ==> hi <= K(n[p], i)
    ensures forall k :: k in m ==> !(lo <= k < hi)
  {
    hide Wf, K;
    forall k | k in m && lo <= k < hi
      ensures false
    {
      LeafDecides(n, g, root, m, home, p, k);
    }
  }

  /** The leaves a scan of `[s, e]` has to look at. */
  ghost function ScanSet(n: Nodes, g: Places, m: map<nat, seq<Byte>>, s: nat, e: nat): set<PageId>
    requires g.Keys <= n.Keys
  {
    set p | p in g && IsLeaf(n[p]) && g[p].hi > s && (forall k :: k in m && s <= k < g[p].lo ==> k <= e)
  }

  ghost predicate KeysAtMost(out: seq<Entry>, e: nat) {
    forall i :: 0 <= i < |out| ==> Num(out[i].key) <= e
  }

  /** What a scan knows on reaching leaf `p` after the leaves in `visited`. */
  ghost predicate Scanned(n: Nodes, g: Places, m: map<nat, seq<Byte>>, s: nat, e: nat,
                          p: PageId, visited: set<PageId>, pass: seq<Entry>)
    requires g.Keys <= n.Keys
  {
    && p in g && g[p].level == 0 && g[p].hi > s
    && Listing(pass, m, s, From(g[p], s)) && KeysAtMost(pass, e)
    && visited <= ScanSet(n, g, m, s, e)
    && (forall q :: q in visited ==> g[q].hi <= g[p].lo)
    && (forall q :: q in g && g[q].level == 0 && g[q].hi > s && g[q].lo < g[p].lo ==> q in visited)
    && (|visited| >= 2 ==> pass != [])
    && (visited == {} <==> g[p].lo <= s)
  }

  /** Where the part of a leaf that a scan from `s` looks at begins. */
  function From(at: Place, s: nat): nat {
    if at.lo <= s then s else at.lo
  }

  /** A leaf reached by the scan is one it has to look at, and is not visited yet. */
  lemma ReachedLeaf(n: Nodes, g: Places, root: PageId, m: map<nat, seq<Byte>>, s: nat, e: nat,
                    p: PageId, visited: set<PageId>, pass: seq<Entry>)
    requires Wf(n, g, root) && g.Keys <= n.Keys && Scanned(n, g, m, s, e, p, visited, pass)
    ensures p in ScanSet(n, g, m, s, e) && p !in visited
  {
    hide Wf, Num;
    LeafBounds(n, g, root, p);
    forall k | k in m && s <= k < g[p].lo
      ensures k <= e
    {
      assert Listed(pass, k);
    }
  }

  /** The scan moves on to the next leaf. */
  lemma ScanAdvances(n: Nodes, g: Places, root: PageId, m: map<nat, seq<Byte>>, s: nat, e: nat,
                     p: PageId, q: PageId, visited: set<PageId>, pass: seq<Entry>, pass': seq<Entry>)
    requires Wf(n, g, root) && g.Keys <= n.Keys && Scanned(n, g, m, s, e, p, visited, pass)
    requires n[p].header.nextLeaf == Some(q)
    requires Listing(pass', m, s, g[p].hi) && KeysAtMost(pass', e) && (g[p].lo > s ==> pass' != [])
    ensures Scanned(n, g, m, s, e, q, visited + {p}, pass')
  {
    hide Wf, Num, Listing, KeysAtMost, ScanSet;
    LeafBounds(n, g, root, p);
    ReachedLeaf(n, g, root, m, s, e, p, visited, pass);
    LeafBounds(n, g, root, q);
    forall x | x in g && g[x].level == 0 && g[x].hi > s && g[x].lo < g[q].lo
      ensures x in visited + {p}
    {
      if g[x].lo >= g[p].lo {
        LeafBounds(n, g, root, x);
        CoverUnique(n, g, root, p, x, g[x].lo);
      }
    }
  }

  /** The scan stopped at leaf `p`: nothing beyond it has to be looked at. */
  lemma ScanEnds(n: Nodes, g: Places, root: PageId, m: map<nat, seq<Byte>>, s: nat, e: nat,
                 p: PageId, visited: set<PageId>, pass: seq<Entry>)
    requires Wf(n, g, root) && g.Keys <= n.Keys && Scanned(n, g, m, s, e, p, visited, pass)
    requires n[p].header.nextLeaf == None || exists k :: k in m && s <= k < g[p].hi && k > e
    ensures ScanSet(n, g, m, s, e) == visited + {p}
  {
    hide Wf, Num, Listing, KeysAtMost;
    LeafBounds(n, g, root, p);
    ReachedLeaf(n, g, root, m, s, e, p, visited, pass);
    forall x | x in ScanSet(n, g, m, s, e)
      ensures x in visited + {p}
    {
      LeafBounds(n, g, root, x);
      if g[p].lo <= g[x].lo < g[p].hi {
        CoverUnique(n, g, root, p, x, g[x].lo);
      }
    }
  }
}
