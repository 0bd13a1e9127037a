/**
 Two steps an insert takes on the page graph: raising a new root and writing one
 leaf entry. Each keeps the tree shape, the high keys and the leaf chain; the
 write changes the stored map at one key.
 */
module TreePut {
  import opened Bytes
  import opened Params
  import opened KeyOrder
  import opened TreePage
  import opened TreeSplit
  import opened TreeModel

  // ---------------------------------------------------------- a new root

  function NewRoot(level: Byte, left: PageId): Node {
    Node(Header(PAGE_TYPE_INTERNAL, level, 0, None, None, left, None), [])
  }

  ghost function PlacesRaised(g: Places, root: PageId, t: PageId): Places
    requires root in g
  {
    g[root := g[root].(parent := t)][t := Place(g[root].level + 1, 0, KEY_LIMIT, t)]
  }

  /** A root without separators over the old root: the state just before the old root is split. */
  lemma RaiseKeepsTree(n: Nodes, g: Places, root: PageId, t: PageId, level: Byte)
    requires Wf(n, g, root) && t !in n
    ensures Wf(n[t := NewRoot(level, root)], PlacesRaised(g, root, t), t)
  {
    hide K, HighKeyOk, Sorted, KeysInRange, KeysSized;
    var n', g' := n[t := NewRoot(level, root)], PlacesRaised(g, root, t);
    assert Kid(n'[t], 0) == root;
    forall p | p in g'
      ensures NodeOk(n'[p], g', p)
    {
      if p == t {
        RootNodeOk(g', t, level, root);
      } else {
        RaiseKeepsNode(n, g, root, t, p);
      }
    }
    forall p | p in g' && IsLeaf(n'[p])
      ensures NextOk(n'[p], g', p)
    {
      assert NextOk(n[p], g, p);
    }
    RaiseKeepsParents(n, g, root, t, level);
  }

  lemma RootNodeOk(g: Places, t: PageId, level: Byte, left: PageId)
    requires t in g && g[t].lo == 0 && g[t].hi == KEY_LIMIT && g[t].level > 0
    requires left in g && g[left].parent == t && g[left].level + 1 == g[t].level && g[left].lo == 0
             && g[left].hi == KEY_LIMIT
    ensures NodeOk(NewRoot(level, left), g, t)
  {
    assert KidOk(NewRoot(level, left), g, t, 0);
  }

  lemma NodeOf(n: Nodes, g: Places, root: PageId, p: PageId)
    requires Wf(n, g, root) && p in g
    ensures root in g && p in n && NodeOk(n[p], g, p) && g[p].level <= g[root].level
  {
    hide NodeOk, NextOk;
  }

  lemma RaiseKeepsNode(n: Nodes, g: Places, root: PageId, t: PageId, p: PageId)
    requires Wf(n, g, root) && t !in n && p in g
    ensures NodeOk(n[p], PlacesRaised(g, root, t), p)
  {
    hide K, Sorted, KeysSized, Kid, IsKid, NextOk, Wf;
    NodeOf(n, g, root, p);
    WfDomain(n, g, root);
    var g' := PlacesRaised(g, root, t);
    if !IsLeaf(n[p]) {
      forall i | 0 <= i <= |n[p].entries|
        ensures KidOk(n[p], g', p, i)
      {
        assert KidOk(n[p], g, p, i);
      }
    }
  }

  lemma RaiseKeepsParents(n: Nodes, g: Places, root: PageId, t: PageId, level: Byte)
    requires Wf(n, g, root) && t !in n
    ensures ParentsOk(n[t := NewRoot(level, root)], PlacesRaised(g, root, t), t)
  {
    hide NodeOk, NextOk, Kid;
    var n', g' := n[t := NewRoot(level, root)], PlacesRaised(g, root, t);
    RootKid(level, root);
    forall c | c in g' && c != t
      ensures g'[c].parent in g' && g'[c].parent in n' && !IsLeaf(n'[g'[c].parent]) && IsKid(n'[g'[c].parent], c)
    {
      if c == root {
        assert Kid(n'[t], 0) == root;
      } else {
        assert IsKid(n[g[c].parent], c);
      }
    }
  }

  lemma RootKid(level: Byte, left: PageId)
    ensures !IsLeaf(NewRoot(level, left)) && Kid(NewRoot(level, left), 0) == left
  {
  }

  lemma RaiseKeepsContents(n: Nodes, g: Places, root: PageId, t: PageId, level: Byte,
                           m: map<nat, seq<Byte>>, home: map<nat, PageId>)
    requires Wf(n, g, root) && t !in n && Contents(n, g, m, home)
    ensures PlacesRaised(g, root, t).Keys <= n[t := NewRoot(level, root)].Keys
    ensures Contents(n[t := NewRoot(level, root)], PlacesRaised(g, root, t), m, home)
  {
    hide Wf, K, HasKey;
    WfDomain(n, g, root);
  }

  lemma RaiseKeepsAnchored(n: Nodes, g: Places, root: PageId, t: PageId, level: Byte)
    requires Wf(n, g, root) && t !in n && Anchored(n, g)
    ensures PlacesRaised(g, root, t).Keys <= n[t := NewRoot(level, root)].Keys
    ensures Anchored(n[t := NewRoot(level, root)], PlacesRaised(g, root, t))
  {
    hide Wf, HasKey;
    WfDomain(n, g, root);
  }

  // ------------------------------------------------------- a leaf entry

  /** `y` is leaf `x` with key `k` holding `v` and every other entry as before. */
  ghost predicate LeafPut(x: Node, y: Node, k: nat, v: seq<Byte>) {
    && IsLeaf(x) && IsLeaf(y)
    && y.header.keyCount == |y.entries|
    && y.header.highKey == x.header.highKey && y.header.nextLeaf == x.header.nextLeaf
    && Sorted(y) && KeysSized(y)
    && HasKey(y, k)
    && (forall i :: 0 <= i < |y.entries| ==>
          if K(y, i) == k then y.entries[i].value == v
          else exists j :: 0 <= j < |x.entries| && x.entries[j] == y.entries[i])
    && (forall j :: 0 <= j < |x.entries| ==> HasKey(y, K(x, j)))
  }

  lemma PutKeepsTree(n: Nodes, g: Places, root: PageId, p: PageId, y: Node, k: nat, v: seq<Byte>)
    requires Wf(n, g, root) && p in g && LeafPut(n[p], y, k, v) && Covers(g[p], k)
    ensures Wf(n[p := y], g, root)
  {
    hide NodeOk, NextOk, LeafPut;
    var n' := n[p := y];
    PutKeepsPage(n, g, root, p, y, k, v);
    PutKeepsParents(n, g, root, p, y);
    forall q | q in g && IsLeaf(n'[q])
      ensures NextOk(n'[q], g, q)
    {
      assert q != p ==> NextOk(n[q], g, q);
    }
    forall q | q in g
      ensures NodeOk(n'[q], g, q)
    {
      assert q != p ==> NodeOk(n[q], g, q);
    }
  }

  lemma PutKeepsPage(n: Nodes, g: Places, root: PageId, p: PageId, y: Node, k: nat, v: seq<Byte>)
    requires Wf(n, g, root) && p in g && LeafPut(n[p], y, k, v) && Covers(g[p], k)
    ensures NodeOk(y, g, p) && NextOk(y, g, p) && IsLeaf(y) && IsLeaf(n[p])
  {
    hide Wf, Sorted, KeysSized, HasKey, KidOk, K;
    NodeOf(n, g, root, p);
    PutKeepsRange(n[p], y, g[p], k, v);
    assert NextOk(n[p], g, p) by { LeafNext(n, g, root, p); }
  }

  lemma LeafNext(n: Nodes, g: Places, root: PageId, p: PageId)
    requires Wf(n, g, root) && p in g && IsLeaf(n[p])
    ensures NextOk(n[p], g, p)
  {
    hide NodeOk, NextOk;
  }

  lemma PutKeepsParents(n: Nodes, g: Places, root: PageId, p: PageId, y: Node)
    requires Wf(n, g, root) && p in g && IsLeaf(n[p])
    ensures ParentsOk(n[p := y], g, root)
  {
    hide NodeOk, NextOk, IsKid;
  }

  lemma PutKeepsRange(x: Node, y: Node, at: Place, k: nat, v: seq<Byte>)
    requires LeafPut(x, y, k, v) && KeysInRange(x, at) && Covers(at, k)
    ensures KeysInRange(y, at)
  {
    hide Sorted, KeysSized, HasKey;
    forall i | 0 <= i < |y.entries|
      ensures at.lo <= K(y, i) < at.hi
    {
      if K(y, i) != k {
        var j :| 0 <= j < |x.entries| && x.entries[j] == y.entries[i];
        assert K(x, j) == K(y, i);
      }
    }
  }

  /** Writing key `k` in the leaf that covers it updates the stored map at `k` only. */
  lemma PutKeepsContents(n: Nodes, g: Places, root: PageId, p: PageId, y: Node, k: nat, v: seq<Byte>,
                         m: map<nat, seq<Byte>>, home: map<nat, PageId>)
    requires Wf(n, g, root) && Contents(n, g, m, home)
    requires p in g && LeafPut(n[p], y, k, v) && Covers(g[p], k)
    ensures Contents(n[p := y], g, m[k := v], home[k := p])
  {
    hide Wf, NodeOk, Sorted, KeysSized, HasKey, K, Covers;
    WfDomain(n, g, root);
    var n', m', home' := n[p := y], m[k := v], home[k := p];
    forall q, i | q in g && IsLeaf(n'[q]) && 0 <= i < |n'[q].entries|
      ensures var kk := K(n'[q], i); kk in m' && m'[kk] == n'[q].entries[i].value && home'[kk] == q
    {
      PutKeepsEntry(n, g, root, p, y, k, v, m, home, q, i);
    }
    forall kk | kk in m'
      ensures home'[kk] in g && IsLeaf(n'[home'[kk]]) && HasKey(n'[home'[kk]], kk)
    {
      if kk != k && home[kk] == p {
        PutKeepsKey(n[p], y, k, v, kk);
      }
    }
  }

  lemma WfDomain(n: Nodes, g: Places, root: PageId)
    requires Wf(n, g, root)
    ensures g.Keys <= n.Keys && root in g
  {
  }

  lemma PutKeepsKey(x: Node, y: Node, k: nat, v: seq<Byte>, kk: nat)
    requires LeafPut(x, y, k, v) && HasKey(x, kk)
    ensures HasKey(y, kk)
  {
    hide Sorted, KeysSized, K;
    var j :| 0 <= j < |x.entries| && K(x, j) == kk;
  }

  lemma PutKeepsEntry(n: Nodes, g: Places, root: PageId, p: PageId, y: Node, k: nat, v: seq<Byte>,
                      m: map<nat, seq<Byte>>, home: map<nat, PageId>, q: PageId, i: nat)
    requires Wf(n, g, root) && Contents(n, g, m, home)
    requires p in g && LeafPut(n[p], y, k, v) && Covers(g[p], k)
    requires q in g && IsLeaf(n[p := y][q]) && i < |n[p := y][q].entries|
    ensures var x := n[p := y][q];
            var kk := K(x, i);
            kk in m[k := v] && m[k := v][kk] == x.entries[i].value && home[k := p][kk] == q
  {
    hide Wf, NodeOk, Sorted, KeysSized;
    WfDomain(n, g, root);
    LeafDecides(n, g, root, m, home, p, k);
    if q == p && K(y, i) != k {
      var j :| 0 <= j < |n[p].entries| && n[p].entries[j] == y.entries[i];
      assert K(n[p], j) == K(y, i);
    }
  }

  lemma PutKeepsOccupied(n: Nodes, g: Places, root: PageId, p: PageId, y: Node, k: nat, v: seq<Byte>)
    requires g.Keys <= n.Keys && p in g && Occupied(n, g, root) && LeafPut(n[p], y, k, v)
    ensures Occupied(n[p := y], g, root)
  {
    hide Sorted, KeysSized;
  }

  lemma PutKeepsAnchored(n: Nodes, g: Places, p: PageId, y: Node, k: nat, v: seq<Byte>)
    requires g.Keys <= n.Keys && p in g && Anchored(n, g) && LeafPut(n[p], y, k, v)
    ensures Anchored(n[p := y], g)
  {
    hide Sorted, KeysSized, HasKey, LeafPut, K;
    if IsLeaf(y) && g[p].lo > 0 {
      assert IsLeaf(n[p]) by { PutOnLeaf(n[p], y, k, v); }
      PutKeepsKey(n[p], y, k, v, g[p].lo);
    }
  }

  lemma PutOnLeaf(x: Node, y: Node, k: nat, v: seq<Byte>)
    requires LeafPut(x, y, k, v)
    ensures IsLeaf(x)
  {
  }

  lemma OverwriteIsPut(x: Node, i: nat, v: seq<Byte>)
    requires IsLeaf(x) && i < |x.entries| && Sorted(x) && KeysSized(x) && x.header.keyCount == |x.entries|
    ensures LeafPut(x, WithValue(x, i, v), K(x, i), v)
  {
    var y := WithValue(x, i, v);
    forall j | 0 <= j < |x.entries|
      ensures K(y, j) == K(x, j)
    {
    }
    forall j | 0 <= j < |x.entries|
      ensures HasKey(y, K(x, j))
    {
      assert K(y, j) == K(x, j);
    }
  }

  lemma {:induction false} InsertIsPut(x: Node, pos: nat, key: seq<Byte>, v: seq<Byte>)
    requires IsLeaf(x) && pos <= |x.entries| && Sorted(x) && KeysSized(x) && |key| == KEY_SIZE
    requires forall i :: 0 <= i < pos ==> K(x, i) < Num(key)
    requires forall i :: pos <= i < |x.entries| ==> Num(key) < K(x, i)
    ensures var y := Node(x.header.(keyCount := |x.entries| + 1), InsertedAt(x.entries, pos, Entry(key, v)));
            LeafPut(x, y, Num(key), v)
  {
    hide Num, InsertedAt, K, HasKey, Sorted, KeysSized;
    var y := Node(x.header.(keyCount := |x.entries| + 1), InsertedAt(x.entries, pos, Entry(key, v)));
    InsertedEntries(x, pos, Entry(key, v));
    forall j | 0 <= j < |x.entries|
      ensures HasKey(y, K(x, j))
    {
      HasKeyAt(y, if j < pos then j else j + 1);
    }
    HasKeyAt(y, pos);
    InsertKeepsSorted(x, pos, key, v);
    forall i | 0 <= i < |y.entries|
      ensures if K(y, i) == Num(key) then y.entries[i].value == v
              else exists j :: 0 <= j < |x.entries| && x.entries[j] == y.entries[i]
    {
      if i != pos {
        assert x.entries[if i < pos then i else i - 1] == y.entries[i];
      }
    }
  }

  lemma {:induction false} InsertKeepsSorted(x: Node, pos: nat, key: seq<Byte>, v: seq<Byte>)
    requires pos <= |x.entries| && Sorted(x) && KeysSized(x) && |key| == KEY_SIZE
    requires forall i :: 0 <= i < pos ==> K(x, i) < Num(key)
    requires forall i :: pos <= i < |x.entries| ==> Num(key) < K(x, i)
    ensures var y := Node(x.header.(keyCount := |x.entries| + 1), InsertedAt(x.entries, pos, Entry(key, v)));
            Sorted(y) && KeysSized(y)
  {
    hide Num, InsertedAt, K;
    var y := Node(x.header.(keyCount := |x.entries| + 1), InsertedAt(x.entries, pos, Entry(key, v)));
    InsertedEntries(x, pos, Entry(key, v));
    forall i, j | 0 <= i < j < |y.entries|
      ensures K(y, i) < K(y, j)
    {
      if i != pos && j != pos {
        assert K(x, if i < pos then i else i - 1) < K(x, if j < pos then j else j - 1);
      }
    }
  }

  lemma HasKeyAt(y: Node, i: nat)
    requires i < |y.entries|
    ensures HasKey(y, K(y, i))
  {
  }

  lemma InsertedEntries(x: Node, pos: nat, e: Entry)
    requires pos <= |x.entries|
    ensures var y := Node(x.header.(keyCount := |x.entries| + 1), InsertedAt(x.entries, pos, e));
            && |y.entries| == |x.entries| + 1
            && y.entries[pos] == e && K(y, pos) == Num(e.key)
            && (forall i :: 0 <= i < pos ==> y.entries[i] == x.entries[i] && K(y, i) == K(x, i))
            && (forall i :: pos < i <= |x.entries| ==> y.entries[i] == x.entries[i - 1] && K(y, i) == K(x, i - 1))
  {
    hide Num;
  }
}
