/** How tall a tree can be: every level at least doubles the number of keys, and keys have 16 bytes. */
module TreeHeight {
  import opened Bytes
  import opened Params
  import opened KeyOrder
  import opened TreePage
  import opened TreeModel
  import opened TreePut

  function Pow2(n: nat): (p: nat)
    ensures p >= 1
  {
    if n == 0 then 1 else 2 * Pow2(n - 1)
  }

  lemma {:induction false} Pow2Monotone(a: nat, b: nat)
    requires a <= b
    ensures Pow2(a) <= Pow2(b)
  {
    if a < b {
      Pow2Monotone(a, b - 1);
    }
  }

  lemma {:induction false} Pow256IsPow2(n: nat)
    ensures Pow256(n) == Pow2(8 * n)
  {
    if n > 0 {
      Pow256IsPow2(n - 1);
      var e := 8 * n - 8;
      assert Pow2(e + 8) == 2 * Pow2(e + 7);
      assert Pow2(e + 7) == 2 * Pow2(e + 6);
      assert Pow2(e + 6) == 2 * Pow2(e + 5);
      assert Pow2(e + 5) == 2 * Pow2(e + 4);
      assert Pow2(e + 4) == 2 * Pow2(e + 3);
      assert Pow2(e + 3) == 2 * Pow2(e + 2);
      assert Pow2(e + 2) == 2 * Pow2(e + 1);
    }
  }

  /** The stored keys in `[lo, hi)`. */
  ghost function KeysWithin(m: map<nat, seq<Byte>>, lo: nat, hi: nat): set<nat> {
    set k | k in m && lo <= k < hi
  }

  lemma {:induction false} FewBelow(s: set<nat>, bound: nat)
    requires forall k :: k in s ==> k < bound
    ensures |s| <= bound
    decreases bound
  {
    if bound == 0 {
      assert s == {};
    } else {
      var t := s - {bound - 1};
      FewBelow(t, bound - 1);
      assert s <= t + {bound - 1};
      SubsetSize(s, t + {bound - 1});
    }
  }

  lemma DisjointCard(a: set<nat>, b: set<nat>, c: set<nat>)
    requires a <= c && b <= c && a !! b
    ensures |a| + |b| <= |c|
  {
    assert |a + b| == |a| + |b|;
    SubsetSize(a + b, c);
  }

  /** A subtree of height `h` holds at least `2^h` keys. */
  lemma {:induction false} SubtreeSize(n: Nodes, g: Places, root: PageId, m: map<nat, seq<Byte>>,
                                       home: map<nat, PageId>, p: PageId)
    requires Wf(n, g, root) && Contents(n, g, m, home) && Occupied(n, g, root)
    requires p in g && n[p].entries != []
    ensures |KeysWithin(m, g[p].lo, g[p].hi)| >= Pow2(g[p].level)
    decreases g[p].level
  {
    hide Wf, Contents, Occupied, Sorted, KeysSized, HighKeyOk, Kid, Pow2;
    var all := KeysWithin(m, g[p].lo, g[p].hi);
    NodeOf(n, g, root, p);
    WfDomain(n, g, root);
    if IsLeaf(n[p]) {
      FirstKeyStored(n, g, m, home, p);
      assert all != {};
      Pow2Zero();
    } else {
      var x := n[p];
      var a, b := Kid(x, 0), Kid(x, 1);
      assert KidOk(x, g, p, 0) && KidOk(x, g, p, 1);
      KidRange(x, g, p, 0);
      KidRange(x, g, p, 1);
      KidOccupied(n, g, root, p, a);
      KidOccupied(n, g, root, p, b);
      SubtreeSize(n, g, root, m, home, a);
      SubtreeSize(n, g, root, m, home, b);
      DisjointCard(KeysWithin(m, g[a].lo, g[a].hi), KeysWithin(m, g[b].lo, g[b].hi), all);
      Pow2Step(g[p].level);
    }
  }

  lemma Pow2Zero()
    ensures Pow2(0) == 1
  {
  }

  lemma Pow2Step(n: nat)
    requires n > 0
    ensures Pow2(n) == Pow2(n - 1) + Pow2(n - 1)
  {
  }

  lemma FirstKeyStored(n: Nodes, g: Places, m: map<nat, seq<Byte>>, home: map<nat, PageId>, p: PageId)
    requires g.Keys <= n.Keys && Contents(n, g, m, home)
    requires p in g && NodeOk(n[p], g, p) && IsLeaf(n[p]) && n[p].entries != []
    ensures K(n[p], 0) in KeysWithin(m, g[p].lo, g[p].hi)
  {
    hide Sorted, KeysSized, HighKeyOk, K;
  }

  lemma KidOccupied(n: Nodes, g: Places, root: PageId, p: PageId, c: PageId)
    requires Wf(n, g, root) && Occupied(n, g, root) && p in g && c in g && g[c].level < g[p].level
    ensures n[c].entries != []
  {
    hide NodeOk, NextOk;
  }

  /** The root lies at most 128 levels above the leaves. */
  lemma HeightBound(n: Nodes, g: Places, root: PageId, m: map<nat, seq<Byte>>, home: map<nat, PageId>)
    requires Wf(n, g, root) && Contents(n, g, m, home) && Occupied(n, g, root)
    ensures g[root].level <= 128
    ensures n[root].entries != [] ==> Pow2(g[root].level) <= |m|
  {
    hide Wf, Contents, Occupied, Pow2, Pow256;
    RootSpan(n, g, root);
    if n[root].entries != [] {
      SubtreeSize(n, g, root, m, home, root);
      var all := KeysWithin(m, 0, KEY_LIMIT);
      FewBelow(all, KEY_LIMIT);
      SubsetSize(all, m.Keys);
      Pow256IsPow2(KEY_SIZE);
      LevelFits(g[root].level);
    } else {
      RootLeafLevel(n, g, root);
    }
  }

  lemma {:induction false} LevelFits(level: nat)
    requires Pow2(level) <= Pow2(128)
    ensures level <= 128
  {
    hide Pow2;
    if level > 128 {
      Pow2Step(129);
      Pow2Monotone(129, level);
    }
  }

  lemma RootSpan(n: Nodes, g: Places, root: PageId)
    requires Wf(n, g, root)
    ensures root in g && root in n && g[root].lo == 0 && g[root].hi == KEY_LIMIT
  {
    hide NodeOk, NextOk;
  }

  lemma RootLeafLevel(n: Nodes, g: Places, root: PageId)
    requires Wf(n, g, root) && Occupied(n, g, root) && n[root].entries == []
    ensures g[root].level == 0
  {
    hide NextOk, KidOk, Sorted, KeysSized, HighKeyOk, KeysInRange;
    assert NodeOk(n[root], g, root);
  }
}
