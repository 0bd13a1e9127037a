/** How the number of keys in a range bounds the number of leaves a scan of it looks at, both ways. */
module TreeCount {
  import opened Bytes
  import opened Params
  import opened KeyOrder
  import opened TreePage
  import opened TreeModel
  import opened TreePut
  import opened TreeHeight
  import opened TreeScan

  const LEAF_CAPACITY := 15

  /** A leaf holds at most 15 entries. */
  lemma LeafCapacity(page: seq<Byte>, x: Node)
    requires Holds(page, x) && IsLeaf(x)
    ensures |x.entries| <= LEAF_CAPACITY
  {
    hide Span, OffsetTable, Packed, HeaderBytes;
    SpanIsProduct(LEAF_VALUE_SIZE, |x.entries|);
  }

  ghost predicate SmallLeaves(n: Nodes, g: Places) {
    forall p :: p in g && p in n && IsLeaf(n[p]) ==> |n[p].entries| <= LEAF_CAPACITY
  }

  // ---- Many keys need many leaves ----

  /** The stored keys that live on the pages `ps`. */
  ghost function KeysOn(m: map<nat, seq<Byte>>, home: map<nat, PageId>, ps: set<PageId>): set<nat> {
    set k | k in m && k in home && home[k] in ps
  }

  lemma {:induction false} FewKeys(keys: set<nat>, x: Node, n: nat)
    requires n <= |x.entries| && forall k :: k in keys ==> exists i :: 0 <= i < n && K(x, i) == k
    ensures |keys| <= n
    decreases n
  {
    hide K;
    if n > 0 {
      FewKeys(keys - {K(x, n - 1)}, x, n - 1);
      SubsetSize(keys, keys - {K(x, n - 1)} + {K(x, n - 1)});
    } else {
      assert keys == {};
    }
  }

  lemma KeysOnLeaf(n: Nodes, g: Places, m: map<nat, seq<Byte>>, home: map<nat, PageId>, p: PageId)
    requires g.Keys <= n.Keys && Contents(n, g, m, home) && p in g && IsLeaf(n[p])
    ensures |KeysOn(m, home, {p})| <= |n[p].entries|
  {
    hide K;
    FewKeys(KeysOn(m, home, {p}), n[p], |n[p].entries|);
  }

  lemma {:induction false} KeysOnLeaves(n: Nodes, g: Places, m: map<nat, seq<Byte>>, home: map<nat, PageId>,
                                        ps: set<PageId>)
    requires g.Keys <= n.Keys && Contents(n, g, m, home) && SmallLeaves(n, g)
    requires forall p :: p in ps ==> p in g && IsLeaf(n[p])
    ensures |KeysOn(m, home, ps)| <= LEAF_CAPACITY * |ps|
    decreases |ps|
  {
    hide Contents;
    if ps == {} {
      assert KeysOn(m, home, ps) == {};
    } else {
      var p :| p in ps;
      var rest := ps - {p};
      KeysOnLeaves(n, g, m, home, rest);
      KeysOnLeaf(n, g, m, home, p);
      assert KeysOn(m, home, ps) == KeysOn(m, home, rest) + KeysOn(m, home, {p});
      SizeOfUnion(KeysOn(m, home, rest), KeysOn(m, home, {p}));
    }
  }

  lemma SizeOfUnion<T>(a: set<T>, b: set<T>)
    ensures |a + b| <= |a| + |b|
  {
    assert |a + b| == |a| + |b| - |a * b|;
  }

  /** A scan looks at the leaf of every key in its range. */
  lemma ManyKeys(n: Nodes, g: Places, root: PageId, m: map<nat, seq<Byte>>, home: map<nat, PageId>, s: nat, e: nat)
    requires Wf(n, g, root) && g.Keys <= n.Keys && Contents(n, g, m, home) && SmallLeaves(n, g)
    ensures |KeysWithin(m, s, e + 1)| <= LEAF_CAPACITY * |ScanSet(n, g, m, s, e)|
  {
    hide Wf, Contents, K;
    var ps := ScanSet(n, g, m, s, e);
    forall k | k in KeysWithin(m, s, e + 1) ensures k in KeysOn(m, home, ps) {
      Housed(n, g, root, m, home, k);
    }
    KeysOnLeaves(n, g, m, home, ps);
    SubsetSize(KeysWithin(m, s, e + 1), KeysOn(m, home, ps));
  }

  lemma Housed(n: Nodes, g: Places, root: PageId, m: map<nat, seq<Byte>>, home: map<nat, PageId>, k: nat)
    requires Wf(n, g, root) && g.Keys <= n.Keys && Contents(n, g, m, home) && k in m
    ensures k in home && home[k] in g && IsLeaf(n[home[k]]) && Covers(g[home[k]], k)
  {
    hide Wf, K;
    NodeOf(n, g, root, home[k]);
  }

  // ---- Few keys need few leaves ----

  /** The leaves of a scan that begin inside the range; each begins with a key of its own. */
  ghost function Inner(n: Nodes, g: Places, m: map<nat, seq<Byte>>, s: nat, e: nat): set<PageId>
    requires g.Keys <= n.Keys
  {
    set p | p in ScanSet(n, g, m, s, e) && s < g[p].lo <= e
  }

  lemma {:induction false} DistinctStarts(n: Nodes, g: Places, root: PageId, ps: set<PageId>, keys: set<nat>)
    requires Wf(n, g, root)
    requires forall p :: p in ps ==> p in g && g[p].level == 0 && g[p].lo in keys
    ensures |ps| <= |keys|
    decreases |ps|
  {
    hide Wf;
    if ps != {} {
      var p :| p in ps;
      forall q | q in ps - {p} ensures g[q].lo in keys - {g[p].lo} {
        if g[q].lo == g[p].lo {
          SameStart(n, g, root, p, q);
        }
      }
      DistinctStarts(n, g, root, ps - {p}, keys - {g[p].lo});
    }
  }

  lemma InnerFew(n: Nodes, g: Places, root: PageId, m: map<nat, seq<Byte>>, home: map<nat, PageId>, s: nat, e: nat)
    requires Wf(n, g, root) && g.Keys <= n.Keys && Contents(n, g, m, home) && Anchored(n, g)
    ensures |Inner(n, g, m, s, e)| <= |KeysWithin(m, s, e + 1)|
  {
    hide Wf, K;
    var keys := KeysWithin(m, s, e + 1);
    forall p | p in Inner(n, g, m, s, e) ensures p in g && g[p].level == 0 && g[p].lo in keys {
      LeafBounds(n, g, root, p);
      StartStored(n, g, m, home, p);
    }
    DistinctStarts(n, g, root, Inner(n, g, m, s, e), keys);
  }

  lemma StartStored(n: Nodes, g: Places, m: map<nat, seq<Byte>>, home: map<nat, PageId>, p: PageId)
    requires g.Keys <= n.Keys && Contents(n, g, m, home) && Anchored(n, g)
    requires p in g && IsLeaf(n[p]) && g[p].lo > 0
    ensures g[p].lo in m
  {
    hide K;
    assert HasKey(n[p], g[p].lo);
    var i :| 0 <= i < |n[p].entries| && K(n[p], i) == g[p].lo;
  }

  ghost function StartLeaf(n: Nodes, g: Places, m: map<nat, seq<Byte>>, s: nat, e: nat): set<PageId>
    requires g.Keys <= n.Keys
  {
    set p | p in ScanSet(n, g, m, s, e) && g[p].lo <= s
  }

  ghost function EndLeaf(n: Nodes, g: Places, m: map<nat, seq<Byte>>, s: nat, e: nat): set<PageId>
    requires g.Keys <= n.Keys
  {
    set p | p in ScanSet(n, g, m, s, e) && g[p].lo > s && g[p].lo > e
  }

  lemma OneFirst(n: Nodes, g: Places, root: PageId, m: map<nat, seq<Byte>>, s: nat, e: nat)
    requires Wf(n, g, root) && g.Keys <= n.Keys
    ensures |StartLeaf(n, g, m, s, e)| <= 1
  {
    hide Wf;
    var first := StartLeaf(n, g, m, s, e);
    forall p, q | p in first && q in first ensures p == q {
      LeafBounds(n, g, root, p);
      LeafBounds(n, g, root, q);
      CoverUnique(n, g, root, p, q, s);
    }
    AtMostOne(first);
  }

  lemma OneLast(n: Nodes, g: Places, root: PageId, m: map<nat, seq<Byte>>, home: map<nat, PageId>, s: nat, e: nat)
    requires Wf(n, g, root) && g.Keys <= n.Keys && Contents(n, g, m, home) && Anchored(n, g)
    ensures |EndLeaf(n, g, m, s, e)| <= 1
  {
    hide Wf, Contents, Anchored;
    var last := EndLeaf(n, g, m, s, e);
    forall p, q | p in last && q in last ensures p == q {
      LeafBounds(n, g, root, p);
      LeafBounds(n, g, root, q);
      StartStored(n, g, m, home, p);
      StartStored(n, g, m, home, q);
      SameStart(n, g, root, p, q);
    }
    AtMostOne(last);
  }

  /** Besides these a scan looks at one leaf that holds its start, and at one past its end. */
  lemma FewKeysFewLeaves(n: Nodes, g: Places, root: PageId, m: map<nat, seq<Byte>>, home: map<nat, PageId>, s: nat,
                         e: nat)
    requires Wf(n, g, root) && g.Keys <= n.Keys && Contents(n, g, m, home) && Anchored(n, g)
    ensures |ScanSet(n, g, m, s, e)| <= |KeysWithin(m, s, e + 1)| + 2
  {
    hide Wf, Contents, Anchored, KeysWithin;
    OneFirst(n, g, root, m, s, e);
    OneLast(n, g, root, m, home, s, e);
    InnerFew(n, g, root, m, home, s, e);
    var first, last, inner := StartLeaf(n, g, m, s, e), EndLeaf(n, g, m, s, e), Inner(n, g, m, s, e);
    assert ScanSet(n, g, m, s, e) == inner + (first + last);
    SizeOfUnion(first, last);
    SizeOfUnion(inner, first + last);
  }

  lemma AtMostOne<T>(a: set<T>)
    requires forall x, y :: x in a && y in a ==> x == y
    ensures |a| <= 1
  {
    if a != {} {
      var x :| x in a;
      SubsetSize(a, {x});
    }
  }
}
