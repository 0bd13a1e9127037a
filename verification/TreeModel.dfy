/**
 The B+Tree as a graph of pages. Ghost information per page (level, key range,
 parent) turns the global tree shape into conditions that are local to a page,
 its children and its right neighbour; the steps of `insert` keep them.
 */
module TreeModel {
  import opened Bytes
  import opened Params
  import opened KeyOrder
  import opened TreePage
  import opened TreeSplit

  /** The place of a page in the tree: keys in `[lo, hi)`, `level` steps above the leaves. */
  datatype Place = Place(level: nat, lo: nat, hi: nat, parent: PageId)

  type Nodes = map<PageId, Node>
  type Places = map<PageId, Place>

  function KidLo(x: Node, at: Place, i: nat): nat
    requires i <= |x.entries|
  {
    if i == 0 then at.lo else K(x, i - 1)
  }

  function KidHi(x: Node, at: Place, i: nat): nat
    requires i <= |x.entries|
  {
    if i == |x.entries| then at.hi else K(x, i)
  }

  ghost predicate KidOk(x: Node, g: Places, p: PageId, i: nat)
    requires p in g && i <= |x.entries|
  {
    var c := Kid(x, i);
    && c in g
    && g[c].parent == p
    && g[c].level + 1 == g[p].level
    && g[c].lo == KidLo(x, g[p], i)
    && g[c].hi == KidHi(x, g[p], i)
  }

  /** The stored high key is the upper separator; no high key means no upper bound. */
  ghost predicate HighKeyOk(x: Node, at: Place) {
    match x.header.highKey
    case None => at.hi == KEY_LIMIT
    case Some(k) => |k| == KEY_SIZE && at.hi == Num(k)
  }

  ghost predicate KeysInRange(x: Node, at: Place) {
    forall i :: 0 <= i < |x.entries| ==> at.lo <= K(x, i) < at.hi && (!IsLeaf(x) ==> at.lo < K(x, i))
  }

  ghost predicate KeysSized(x: Node) {
    forall i :: 0 <= i < |x.entries| ==> |x.entries[i].key| == KEY_SIZE
  }

  ghost predicate NodeOk(x: Node, g: Places, p: PageId)
    requires p in g
  {
    && x.header.keyCount == |x.entries|
    && KeysSized(x)
    && g[p].lo < g[p].hi <= KEY_LIMIT
    && HighKeyOk(x, g[p])
    && Sorted(x)
    && KeysInRange(x, g[p])
    && (g[p].level == 0 <==> IsLeaf(x))
    && (!IsLeaf(x) ==>
          && x.header.pageType == PAGE_TYPE_INTERNAL
          && forall i :: 0 <= i <= |x.entries| ==> KidOk(x, g, p, i))
  }

  ghost predicate IsKid(x: Node, c: PageId) {
    exists i :: 0 <= i <= |x.entries| && Kid(x, i) == c
  }

  /** Every page but the root is a child of its parent, and no page lies above the root. */
  ghost predicate ParentsOk(n: Nodes, g: Places, root: PageId) {
    && root in g && root in n
    && g[root].lo == 0 && g[root].hi == KEY_LIMIT
    && (forall c :: c in g && c != root ==>
          g[c].parent in g && g[c].parent in n && !IsLeaf(n[g[c].parent]) && IsKid(n[g[c].parent], c))
    && (forall c :: c in g ==> g[c].level <= g[root].level)
  }

  /** The next-leaf link leads to the leaf whose range starts where this one ends. */
  ghost predicate NextOk(x: Node, g: Places, p: PageId)
    requires p in g
  {
    match x.header.nextLeaf
    case None => g[p].hi == KEY_LIMIT
    case Some(q) => q in g && g[q].level == 0 && g[q].lo == g[p].hi
  }

  ghost predicate Wf(n: Nodes, g: Places, root: PageId) {
    && g.Keys <= n.Keys
    && ParentsOk(n, g, root)
    && (forall p :: p in g ==> NodeOk(n[p], g, p))
    && (forall p :: p in g && IsLeaf(n[p]) ==> NextOk(n[p], g, p))
  }

  /** Only an empty tree has an empty leaf, and every internal page has a separator. */
  ghost predicate Occupied(n: Nodes, g: Places, root: PageId)
    requires g.Keys <= n.Keys
  {
    forall p :: p in g ==> n[p].entries != [] || (p == root && IsLeaf(n[p]))
  }

  // -------------------------------------------------------------- contents

  ghost predicate HasKey(x: Node, k: nat) {
    exists i :: 0 <= i < |x.entries| && K(x, i) == k
  }

  /** The leaves hold exactly the map `m`; `home` says which leaf holds a key. */
  ghost predicate Contents(n: Nodes, g: Places, m: map<nat, seq<Byte>>, home: map<nat, PageId>)
    requires g.Keys <= n.Keys
  {
    && home.Keys == m.Keys
    && (forall p, i :: p in g && IsLeaf(n[p]) && 0 <= i < |n[p].entries| ==>
          var k := K(n[p], i);
          k in m && m[k] == n[p].entries[i].value && home[k] == p)
    && (forall k :: k in m ==> home[k] in g && IsLeaf(n[home[k]]) && HasKey(n[home[k]], k))
  }

  /** Every leaf but the leftmost starts with the key that bounds it from below. */
  ghost predicate Anchored(n: Nodes, g: Places)
    requires g.Keys <= n.Keys
  {
    forall p :: p in g && IsLeaf(n[p]) && g[p].lo > 0 ==> HasKey(n[p], g[p].lo)
  }

  // ----------------------------------------------------------- uniqueness

  ghost predicate Covers(at: Place, k: nat) {
    at.lo <= k < at.hi
  }

  lemma KidRange(x: Node, g: Places, p: PageId, i: nat)
    requires p in g && NodeOk(x, g, p) && !IsLeaf(x) && i <= |x.entries|
    ensures KidOk(x, g, p, i)
    ensures g[p].lo <= g[Kid(x, i)].lo && g[Kid(x, i)].hi <= g[p].hi
  {
    assert KidOk(x, g, p, i);
    if i > 0 {
      assert g[p].lo < K(x, i - 1);
    }
    if i < |x.entries| {
      assert K(x, i) < g[p].hi;
    }
  }

  /** Two children of one page that cover the same key are the same child. */
  lemma KidUnique(x: Node, g: Places, p: PageId, i: nat, j: nat, k: nat)
    requires p in g && NodeOk(x, g, p) && !IsLeaf(x) && i <= |x.entries| && j <= |x.entries|
    requires Kid(x, i) in g && Kid(x, j) in g && Covers(g[Kid(x, i)], k) && Covers(g[Kid(x, j)], k)
    ensures i == j
  {
    hide K, Kid;
    assert KidOk(x, g, p, i) && KidOk(x, g, p, j);
  }

  lemma BelowRoot(n: Nodes, g: Places, root: PageId, c: PageId)
    requires Wf(n, g, root) && c in g && c != root
    ensures g[c].level < g[root].level
    ensures g[c].parent in g && !IsLeaf(n[g[c].parent]) && g[g[c].parent].level == g[c].level + 1
    ensures forall k :: Covers(g[c], k) ==> Covers(g[g[c].parent], k)
  {
    hide K, Kid, HighKeyOk, Sorted, KeysInRange, NextOk;
    var p := g[c].parent;
    var i :| 0 <= i <= |n[p].entries| && Kid(n[p], i) == c;
    KidRange(n[p], g, p, i);
  }

  /** On each level exactly one page covers a key. */
  lemma {:induction false} CoverUnique(n: Nodes, g: Places, root: PageId, p: PageId, q: PageId, k: nat)
    requires Wf(n, g, root) && p in g && q in g
    requires g[p].level == g[q].level && Covers(g[p], k) && Covers(g[q], k)
    ensures p == q
    decreases g[root].level - g[p].level
  {
    hide K, Kid, HighKeyOk, Sorted, KeysInRange, NextOk;
    if p != root {
      BelowRoot(n, g, root, p);
    }
    if q != root {
      BelowRoot(n, g, root, q);
    }
    if p != root && q != root {
      var pp := g[p].parent;
      CoverUnique(n, g, root, pp, g[q].parent, k);
      var i :| 0 <= i <= |n[pp].entries| && Kid(n[pp], i) == p;
      var j :| 0 <= j <= |n[pp].entries| && Kid(n[pp], j) == q;
      KidUnique(n[pp], g, pp, i, j, k);
    }
  }

  /** A key is in the map exactly when the leaf covering it holds it. */
  lemma LeafDecides(n: Nodes, g: Places, root: PageId, m: map<nat, seq<Byte>>, home: map<nat, PageId>, p: PageId,
                    k: nat)
    requires Wf(n, g, root) && Contents(n, g, m, home)
    requires p in g && IsLeaf(n[p]) && Covers(g[p], k)
    ensures k in m <==> HasKey(n[p], k)
    ensures k in m ==> home[k] == p
    ensures forall i :: 0 <= i < |n[p].entries| && K(n[p], i) == k ==> k in m && m[k] == n[p].entries[i].value
  {
    if k in m {
      var q := home[k];
      assert NodeOk(n[q], g, q) && NodeOk(n[p], g, p);
      assert KeysInRange(n[q], g[q]);
      CoverUnique(n, g, root, p, q, k);
    }
  }
}
