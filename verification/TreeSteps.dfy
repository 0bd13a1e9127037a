/**
 The main step an insert takes on the page graph: splitting a full child under a
 parent with room keeps the tree shape, the high keys, the leaf chain and the
 stored map.
 */
module TreeSteps {
  import opened Bytes
  import opened Params
  import opened KeyOrder
  import opened TreePage
  import opened TreeSplit
  import opened TreeModel

  // ------------------------------------------------------- splitting a child

  function ParentAfter(x: Node, j: nat, sep: seq<Byte>, r: PageId): Node
    requires j <= |x.entries|
  {
    Node(x.header.(keyCount := |x.entries| + 1), InsertedAt(x.entries, j, Entry(sep, ToLe(r, 8))))
  }

  ghost predicate CanSplit(n: Nodes, g: Places, root: PageId, p: PageId, j: nat, c: PageId, r: PageId) {
    && Wf(n, g, root)
    && p in g && !IsLeaf(n[p]) && j <= |n[p].entries|
    && c == Kid(n[p], j) && c in g
    && r !in n && 0 < r < U64_LIMIT
    && |n[c].entries| >= (if IsLeaf(n[c]) then 2 else 3)
  }

  ghost function NodesAfterSplit(n: Nodes, p: PageId, j: nat, c: PageId, r: PageId): Nodes
    requires p in n && c in n && n[c].entries != [] && j <= |n[p].entries|
  {
    n[c := SplitLeft(n[c], r)][r := SplitRight(n[c], c)][p := ParentAfter(n[p], j, Separator(n[c]), r)]
  }

  ghost function PlacesAfterSplit(n: Nodes, g: Places, p: PageId, c: PageId, r: PageId): Places
    requires c in n && c in g && n[c].entries != []
  {
    map q | q in g.Keys + {r} ::
      if q == r then Place(g[c].level, Num(Separator(n[c])), g[c].hi, p)
      else if q == c then g[c].(hi := Num(Separator(n[c])))
      else if !IsLeaf(n[c]) && IsKid(SplitRight(n[c], c), q) then g[q].(parent := r)
      else g[q]
  }

  ghost function HomeAfterSplit(n: Nodes, home: map<nat, PageId>, c: PageId, r: PageId): map<nat, PageId>
    requires c in n && n[c].entries != []
  {
    map k | k in home :: if home[k] == c && k >= Num(Separator(n[c])) then r else home[k]
  }

  /** Keys and children of the two halves, in terms of the page that was split. */
  lemma HalvesOf(x: Node, r: PageId, c: PageId)
    requires |x.entries| >= (if IsLeaf(x) then 2 else 3)
    ensures var L, R, mid := SplitLeft(x, r), SplitRight(x, c), Mid(x);
            var skip := if IsLeaf(x) then mid else mid + 1;
            && 1 <= mid < |x.entries|
            && |L.entries| == mid && |R.entries| == |x.entries| - skip >= 1
            && L.header.keyCount == |L.entries| && R.header.keyCount == |R.entries|
            && (forall i :: 0 <= i < mid ==> L.entries[i] == x.entries[i] && K(L, i) == K(x, i))
            && (forall i :: 0 <= i < |R.entries| ==> R.entries[i] == x.entries[skip + i] && K(R, i) == K(x, skip + i))
            && (!IsLeaf(x) ==> forall i :: 0 <= i <= mid ==> Kid(L, i) == Kid(x, i))
            && (!IsLeaf(x) ==> forall i :: 0 <= i <= |R.entries| ==> Kid(R, i) == Kid(x, mid + 1 + i))
            && L.header.pageType == x.header.pageType == R.header.pageType
            && L.header.highKey == Some(Separator(x)) && R.header.highKey == x.header.highKey
            && Num(Separator(x)) == K(x, mid)
            && (IsLeaf(x) ==> L.header.nextLeaf == Some(r) && R.header.nextLeaf == x.header.nextLeaf)
  {
  }

  /** Keys and children of the parent after it takes the separator and the new page. */
  lemma {:induction false} ParentOf(x: Node, j: nat, sep: seq<Byte>, r: PageId)
    requires j <= |x.entries| && r < U64_LIMIT
    ensures var P := ParentAfter(x, j, sep, r);
            && |P.entries| == |x.entries| + 1 == P.header.keyCount
            && P.header.pageType == x.header.pageType && P.header.highKey == x.header.highKey
            && (forall i :: 0 <= i < j ==> P.entries[i] == x.entries[i] && K(P, i) == K(x, i))
            && P.entries[j].key == sep && K(P, j) == Num(sep)
            && (forall i :: j < i <= |x.entries| ==> P.entries[i] == x.entries[i - 1] && K(P, i) == K(x, i - 1))
            && (forall i :: 0 <= i <= j ==> Kid(P, i) == Kid(x, i))
            && Kid(P, j + 1) == r
            && (forall i :: j + 1 < i <= |x.entries| + 1 ==> Kid(P, i) == Kid(x, i - 1))
  {
    hide ToLe, FromLe, Num;
    Pow256Values();
    LeRoundTrip(r, 8);
  }

  /** What the split does to the place of each page. */
  lemma PlacesMove(n: Nodes, g: Places, root: PageId, p: PageId, j: nat, c: PageId, r: PageId)
    requires CanSplit(n, g, root, p, j, c, r)
    ensures var x, g' := n[c], PlacesAfterSplit(n, g, p, c, r);
            var sep := Num(Separator(x));
            && g'.Keys == g.Keys + {r}
            && c != p && c != root && r != p && r != c && r != root && r !in g
            && g[c].parent == p && g[c].level + 1 == g[p].level
            && g'[r] == Place(g[c].level, sep, g[c].hi, p)
            && g'[c] == g[c].(hi := sep)
            && g'[p] == g[p] && g'[root] == g[root]
            && g[c].lo < sep < g[c].hi
            && (forall q :: q in g && q != c ==> g'[q] == g[q] || g'[q] == g[q].(parent := r))
            && (forall q :: q in g && q != c && g[q].parent != c ==> g'[q] == g[q])
  {
    hide ParentAfter, SplitLeft, SplitRight, Separator, HighKeyOk, NextOk, K, Kid, IsKid, KeysSized;
    var x := n[c];
    assert NodeOk(n[p], g, p) && NodeOk(x, g, c);
    assert KidOk(n[p], g, p, j);
    HalvesOf(x, r, c);
    if !IsLeaf(x) {
      RightKidsOfC(n, g, root, c, r);
    }
    assert g[c].level < g[root].level;
    assert K(x, 0) < K(x, Mid(x));
  }

  lemma RightKidsOfC(n: Nodes, g: Places, root: PageId, c: PageId, r: PageId)
    requires Wf(n, g, root) && c in g && !IsLeaf(n[c]) && |n[c].entries| >= 3
    ensures forall q :: IsKid(SplitRight(n[c], c), q) ==>
              q in g && g[q].parent == c && q != root && g[q].level < g[c].level
    ensures c != root ==> g[root].level > g[c].level
  {
    hide HighKeyOk, NextOk, SplitRight, K, Sorted, KeysInRange;
    var x := n[c];
    HalvesOf(x, r, c);
    if c != root {
      BelowRoot(n, g, root, c);
    }
    forall q | IsKid(SplitRight(x, c), q)
      ensures q in g && g[q].parent == c && q != root && g[q].level < g[c].level
    {
      var i :| 0 <= i <= |SplitRight(x, c).entries| && Kid(SplitRight(x, c), i) == q;
      assert KidOk(x, g, c, Mid(x) + 1 + i);
      assert g[q].level < g[c].level <= g[root].level;
    }
  }

  lemma SplitSite(n: Nodes, g: Places, root: PageId, p: PageId, j: nat, c: PageId, r: PageId)
    requires CanSplit(n, g, root, p, j, c, r)
    ensures Wf(n, g, root)
    ensures p in g && p in n && c in g && c in n && r !in g && r < U64_LIMIT
    ensures NodeOk(n[p], g, p) && NodeOk(n[c], g, c)
    ensures !IsLeaf(n[p]) && j <= |n[p].entries| && c == Kid(n[p], j)
    ensures |n[c].entries| >= (if IsLeaf(n[c]) then 2 else 3)
    ensures g.Keys <= n.Keys
  {
    hide NodeOk, ParentsOk, NextOk, Kid;
  }

  /** Children left of the middle stay with the left half. */
  lemma LeftKidsStay(n: Nodes, g: Places, root: PageId, p: PageId, j: nat, c: PageId, r: PageId, i: nat)
    requires CanSplit(n, g, root, p, j, c, r) && !IsLeaf(n[c]) && i <= Mid(n[c])
    ensures Kid(n[c], i) in g && PlacesAfterSplit(n, g, p, c, r)[Kid(n[c], i)] == g[Kid(n[c], i)]
  {
    hide SplitLeft, SplitRight, Separator, HighKeyOk, KeysSized, KeysInRange, Sorted, K, Kid, CanSplit, Wf, KidLo,
         KidHi;
    SplitSite(n, g, root, p, j, c, r);
    var x := n[c];
    HalvesOf(x, r, c);
    assert KidOk(x, g, c, i);
    var kid := Kid(x, i);
    if IsKid(SplitRight(x, c), kid) {
      var t :| 0 <= t <= |SplitRight(x, c).entries| && Kid(SplitRight(x, c), t) == kid;
      DistinctKids(n, g, root, c, i, Mid(x) + 1 + t);
    }
  }

  lemma DistinctKids(n: Nodes, g: Places, root: PageId, p: PageId, i: nat, j: nat)
    requires Wf(n, g, root) && p in g && !IsLeaf(n[p]) && i <= |n[p].entries| && j <= |n[p].entries| && i != j
    ensures Kid(n[p], i) != Kid(n[p], j)
  {
    hide HighKeyOk, NextOk, KeysSized, K, Kid, KeysInRange, IsKid, Sorted;
    var x := n[p];
    assert KidOk(x, g, p, i) && KidOk(x, g, p, j);
    var c := Kid(x, i);
    assert NodeOk(n[c], g, c);
    if Kid(x, i) == Kid(x, j) {
      KidUnique(x, g, p, i, j, g[c].lo);
    }
  }

  lemma SplitKeepsLeft(n: Nodes, g: Places, root: PageId, p: PageId, j: nat, c: PageId, r: PageId)
    requires CanSplit(n, g, root, p, j, c, r)
    ensures c in PlacesAfterSplit(n, g, p, c, r)
    ensures NodeOk(SplitLeft(n[c], r), PlacesAfterSplit(n, g, p, c, r), c)
  {
    hide SplitLeft, SplitRight, PlacesAfterSplit, K, Kid, CanSplit, Wf;
    SplitSite(n, g, root, p, j, c, r);
    var x, g', L := n[c], PlacesAfterSplit(n, g, p, c, r), SplitLeft(n[c], r);
    PlacesMove(n, g, root, p, j, c, r);
    HalvesOf(x, r, c);
    assert NodeOk(x, g, c);
    if !IsLeaf(x) {
      forall i | 0 <= i <= |L.entries|
        ensures KidOk(L, g', c, i)
      {
        assert KidOk(x, g, c, i);
        LeftKidsStay(n, g, root, p, j, c, r, i);
      }
    }
  }

  lemma RightKidsMove(n: Nodes, g: Places, root: PageId, p: PageId, j: nat, c: PageId, r: PageId, i: nat)
    requires CanSplit(n, g, root, p, j, c, r) && !IsLeaf(n[c]) && i <= |SplitRight(n[c], c).entries|
    ensures var kid := Kid(SplitRight(n[c], c), i);
            kid in g && PlacesAfterSplit(n, g, p, c, r)[kid] == g[kid].(parent := r)
  {
    hide SplitLeft, SplitRight, Separator, NodeOk, NextOk, K, Kid, ParentsOk;
    var R := SplitRight(n[c], c);
    RightKidsOfC(n, g, root, c, r);
    assert IsKid(R, Kid(R, i));
  }

  lemma SplitKeepsRight(n: Nodes, g: Places, root: PageId, p: PageId, j: nat, c: PageId, r: PageId)
    requires CanSplit(n, g, root, p, j, c, r)
    ensures r in PlacesAfterSplit(n, g, p, c, r)
    ensures NodeOk(SplitRight(n[c], c), PlacesAfterSplit(n, g, p, c, r), r)
  {
    hide SplitLeft, SplitRight, PlacesAfterSplit, K, Kid, CanSplit, Wf;
    SplitSite(n, g, root, p, j, c, r);
    var x, g', R := n[c], PlacesAfterSplit(n, g, p, c, r), SplitRight(n[c], c);
    PlacesMove(n, g, root, p, j, c, r);
    HalvesOf(x, r, c);
    assert NodeOk(x, g, c);
    if !IsLeaf(x) {
      forall i | 0 <= i <= |R.entries|
        ensures KidOk(R, g', r, i)
      {
        assert KidOk(x, g, c, Mid(x) + 1 + i);
        RightKidsMove(n, g, root, p, j, c, r, i);
      }
    }
  }

  lemma SplitKeepsParent(n: Nodes, g: Places, root: PageId, p: PageId, j: nat, c: PageId, r: PageId)
    requires CanSplit(n, g, root, p, j, c, r)
    ensures p in PlacesAfterSplit(n, g, p, c, r)
    ensures NodeOk(ParentAfter(n[p], j, Separator(n[c]), r), PlacesAfterSplit(n, g, p, c, r), p)
  {
    hide SplitLeft, SplitRight, PlacesAfterSplit, ParentAfter, K, Kid, Separator, CanSplit, Wf, Sorted, KeysInRange,
         KeysSized;
    SplitSite(n, g, root, p, j, c, r);
    var x, g', sep := n[p], PlacesAfterSplit(n, g, p, c, r), Separator(n[c]);
    var P := ParentAfter(x, j, sep, r);
    PlacesMove(n, g, root, p, j, c, r);
    ParentOf(x, j, sep, r);
    assert NodeOk(x, g, p) && KidOk(x, g, p, j);
    assert |sep| == KEY_SIZE by { SeparatorSized(n, g, c); }
    assert KeysSized(P) && KeysInRange(P, g'[p]) && Sorted(P) by {
      KeysAroundSeparator(x, g, p, j, sep, r);
    }
    forall i | 0 <= i <= |P.entries|
      ensures KidOk(P, g', p, i)
    {
      if i < j {
        assert KidOk(x, g, p, i);
        DistinctKids(n, g, root, p, i, j);
      } else if i > j + 1 {
        assert KidOk(x, g, p, i - 1);
        DistinctKids(n, g, root, p, i - 1, j);
      }
    }
  }

  lemma SeparatorSized(n: Nodes, g: Places, c: PageId)
    requires c in n && c in g && NodeOk(n[c], g, c) && n[c].entries != []
    ensures |Separator(n[c])| == KEY_SIZE
  {
  }

  /** A separator strictly inside child `j`'s range keeps the parent's keys sorted and in range. */
  lemma {:induction false} KeysAroundSeparator(x: Node, g: Places, p: PageId, j: nat, sep: seq<Byte>, r: PageId)
    requires p in g && NodeOk(x, g, p) && !IsLeaf(x) && j <= |x.entries| && r < U64_LIMIT
    requires |sep| == KEY_SIZE && KidLo(x, g[p], j) < Num(sep) < KidHi(x, g[p], j)
    ensures var P := ParentAfter(x, j, sep, r); KeysSized(P) && Sorted(P) && KeysInRange(P, g[p])
  {
    hide HighKeyOk, NextOk, KidOk, ParentAfter, K, Kid;
    ParentOf(x, j, sep, r);
  }

  lemma SplitKeepsOther(n: Nodes, g: Places, root: PageId, p: PageId, j: nat, c: PageId, r: PageId, q: PageId)
    requires CanSplit(n, g, root, p, j, c, r) && q in g && q != p && q != c
    ensures q in PlacesAfterSplit(n, g, p, c, r)
    ensures NodeOk(n[q], PlacesAfterSplit(n, g, p, c, r), q)
  {
    hide SplitLeft, SplitRight, PlacesAfterSplit, ParentAfter, NextOk, K, Kid, IsKid, ParentsOk, Separator, Sorted,
         KeysSized;
    var g' := PlacesAfterSplit(n, g, p, c, r);
    PlacesMove(n, g, root, p, j, c, r);
    assert NodeOk(n[q], g, q);
    if !IsLeaf(n[q]) {
      forall i | 0 <= i <= |n[q].entries|
        ensures KidOk(n[q], g', q, i)
      {
        assert KidOk(n[q], g, q, i);
      }
    }
  }

  lemma SplitKeepsParenthood(n: Nodes, g: Places, root: PageId, p: PageId, j: nat, c: PageId, r: PageId, q: PageId)
    requires CanSplit(n, g, root, p, j, c, r) && q in g && q != root && q != c
    ensures var n', g' := NodesAfterSplit(n, p, j, c, r), PlacesAfterSplit(n, g, p, c, r);
            q in g' && g'[q].parent in g' && g'[q].parent in n' && !IsLeaf(n'[g'[q].parent])
                && IsKid(n'[g'[q].parent], q)
  {
    hide SplitLeft, SplitRight, ParentAfter, PlacesAfterSplit, K, Kid, Separator, NodeOk, Wf, CanSplit;
    SplitSite(n, g, root, p, j, c, r);
    PlacesMove(n, g, root, p, j, c, r);
    var x, L, R, P := n[c], SplitLeft(n[c], r), SplitRight(n[c], c), ParentAfter(n[p], j, Separator(n[c]), r);
    HalvesOf(x, r, c);
    var pp := g[q].parent;
    var i := KidIndex(n, g, root, q);
    if pp == p {
      ParentOf(n[p], j, Separator(x), r);
      assert Kid(P, if i <= j then i else i + 1) == q;
    } else if pp == c {
      if i <= Mid(x) {
        LeftKidsStay(n, g, root, p, j, c, r, i);
        assert Kid(L, i) == q;
      } else {
        RightKidsMove(n, g, root, p, j, c, r, i - Mid(x) - 1);
        assert Kid(R, i - Mid(x) - 1) == q;
      }
    }
  }

  lemma KidIndex(n: Nodes, g: Places, root: PageId, q: PageId) returns (i: nat)
    requires Wf(n, g, root) && q in g && q != root
    ensures g[q].parent in g && g[q].parent in n && !IsLeaf(n[g[q].parent])
    ensures i <= |n[g[q].parent].entries| && Kid(n[g[q].parent], i) == q
  {
    i :| 0 <= i <= |n[g[q].parent].entries| && Kid(n[g[q].parent], i) == q;
  }

  lemma NextOf(n: Nodes, g: Places, root: PageId, q: PageId)
    requires Wf(n, g, root) && q in g && IsLeaf(n[q])
    ensures NextOk(n[q], g, q)
  {
  }

  lemma SplitKeepsParents(n: Nodes, g: Places, root: PageId, p: PageId, j: nat, c: PageId, r: PageId)
    requires CanSplit(n, g, root, p, j, c, r)
    ensures ParentsOk(NodesAfterSplit(n, p, j, c, r), PlacesAfterSplit(n, g, p, c, r), root)
  {
    hide SplitLeft, SplitRight, ParentAfter, PlacesAfterSplit, NextOk, K, Kid, Separator, NodeOk, CanSplit;
    SplitSite(n, g, root, p, j, c, r);
    PlacesMove(n, g, root, p, j, c, r);
    ParentOf(n[p], j, Separator(n[c]), r);
    var n', g' := NodesAfterSplit(n, p, j, c, r), PlacesAfterSplit(n, g, p, c, r);
    assert Kid(n'[p], j) == c && Kid(n'[p], j + 1) == r;
    forall q | q in g' && q != root
      ensures g'[q].parent in g' && g'[q].parent in n' && !IsLeaf(n'[g'[q].parent]) && IsKid(n'[g'[q].parent], q)
    {
      if q != c && q != r {
        SplitKeepsParenthood(n, g, root, p, j, c, r, q);
      }
    }
  }

  lemma SplitKeepsNext(n: Nodes, g: Places, root: PageId, p: PageId, j: nat, c: PageId, r: PageId, q: PageId)
    requires CanSplit(n, g, root, p, j, c, r)
    requires q in PlacesAfterSplit(n, g, p, c, r) && q in NodesAfterSplit(n, p, j, c, r)
    requires IsLeaf(NodesAfterSplit(n, p, j, c, r)[q])
    ensures NextOk(NodesAfterSplit(n, p, j, c, r)[q], PlacesAfterSplit(n, g, p, c, r), q)
  {
    hide SplitLeft, SplitRight, ParentAfter, PlacesAfterSplit, K, Kid, Separator, HighKeyOk, KeysInRange, Sorted,
         KeysSized, KidOk, Wf, CanSplit;
    SplitSite(n, g, root, p, j, c, r);
    PlacesMove(n, g, root, p, j, c, r);
    HalvesOf(n[c], r, c);
    ParentOf(n[p], j, Separator(n[c]), r);
    if q == r {
      NextOf(n, g, root, c);
    } else if q != c {
      NextOf(n, g, root, q);
    }
  }

  /** Splitting a full child under its parent keeps the tree. */
  lemma SplitKeepsTree(n: Nodes, g: Places, root: PageId, p: PageId, j: nat, c: PageId, r: PageId)
    requires CanSplit(n, g, root, p, j, c, r)
    ensures Wf(NodesAfterSplit(n, p, j, c, r), PlacesAfterSplit(n, g, p, c, r), root)
  {
    hide SplitLeft, SplitRight, ParentAfter, PlacesAfterSplit, K, Kid, Separator, NodeOk, NextOk, ParentsOk, CanSplit;
    SplitSite(n, g, root, p, j, c, r);
    PlacesMove(n, g, root, p, j, c, r);
    SplitKeepsParents(n, g, root, p, j, c, r);
    SplitKeepsLeft(n, g, root, p, j, c, r);
    SplitKeepsRight(n, g, root, p, j, c, r);
    SplitKeepsParent(n, g, root, p, j, c, r);
    var n', g' := NodesAfterSplit(n, p, j, c, r), PlacesAfterSplit(n, g, p, c, r);
    forall q | q in g'
      ensures NodeOk(n'[q], g', q)
    {
      if q != c && q != r && q != p {
        SplitKeepsOther(n, g, root, p, j, c, r, q);
      }
    }
    forall q | q in g' && IsLeaf(n'[q])
      ensures NextOk(n'[q], g', q)
    {
      SplitKeepsNext(n, g, root, p, j, c, r, q);
    }
  }

  lemma SplitKeepsLeafContents(n: Nodes, g: Places, root: PageId, p: PageId, j: nat, c: PageId, r: PageId,
                               m: map<nat, seq<Byte>>, home: map<nat, PageId>, q: PageId, i: nat)
    requires CanSplit(n, g, root, p, j, c, r) && Contents(n, g, m, home)
    requires q in PlacesAfterSplit(n, g, p, c, r) && q in NodesAfterSplit(n, p, j, c, r)
    requires IsLeaf(NodesAfterSplit(n, p, j, c, r)[q]) && i < |NodesAfterSplit(n, p, j, c, r)[q].entries|
    ensures var x := NodesAfterSplit(n, p, j, c, r)[q];
            var k := K(x, i);
            k in m && m[k] == x.entries[i].value && HomeAfterSplit(n, home, c, r)[k] == q
  {
    hide SplitLeft, SplitRight, ParentAfter, PlacesAfterSplit, Kid, K, Separator, HighKeyOk, KeysInRange, KeysSized,
         KidOk, Wf, CanSplit, HasKey;
    SplitSite(n, g, root, p, j, c, r);
    PlacesMove(n, g, root, p, j, c, r);
    HalvesOf(n[c], r, c);
    ParentOf(n[p], j, Separator(n[c]), r);
    var x := n[c];
    if q == r {
      assert K(x, Mid(x)) <= K(x, Mid(x) + i);
    } else if q == c {
      assert K(x, i) < K(x, Mid(x));
    }
  }

  lemma SplitKeepsHome(n: Nodes, g: Places, root: PageId, p: PageId, j: nat, c: PageId, r: PageId,
                       m: map<nat, seq<Byte>>, home: map<nat, PageId>, k: nat)
    requires CanSplit(n, g, root, p, j, c, r) && Contents(n, g, m, home) && k in m
    ensures var n', home' := NodesAfterSplit(n, p, j, c, r), HomeAfterSplit(n, home, c, r);
            home'[k] in PlacesAfterSplit(n, g, p, c, r) && home'[k] in n' && IsLeaf(n'[home'[k]])
                && HasKey(n'[home'[k]], k)
  {
    hide SplitLeft, SplitRight, ParentAfter, PlacesAfterSplit, Kid, K, Separator, HighKeyOk, KeysInRange, KeysSized,
         KidOk, Wf, CanSplit;
    SplitSite(n, g, root, p, j, c, r);
    PlacesMove(n, g, root, p, j, c, r);
    HalvesOf(n[c], r, c);
    var x, L, R := n[c], SplitLeft(n[c], r), SplitRight(n[c], c);
    var mid := Mid(x);
    if home[k] == c {
      var i :| 0 <= i < |x.entries| && K(x, i) == k;
      if i < mid {
        assert K(x, i) < K(x, mid);
        assert K(L, i) == k;
      } else {
        assert K(x, mid) <= K(x, i);
        assert K(R, i - mid) == k;
      }
    }
  }

  /** Splitting moves entries between pages and leaves the stored map alone. */
  lemma SplitKeepsContents(n: Nodes, g: Places, root: PageId, p: PageId, j: nat, c: PageId, r: PageId,
                           m: map<nat, seq<Byte>>, home: map<nat, PageId>)
    requires CanSplit(n, g, root, p, j, c, r) && Contents(n, g, m, home)
    ensures PlacesAfterSplit(n, g, p, c, r).Keys <= NodesAfterSplit(n, p, j, c, r).Keys
    ensures Contents(NodesAfterSplit(n, p, j, c, r), PlacesAfterSplit(n, g, p, c, r), m, HomeAfterSplit(n, home, c, r))
  {
    hide SplitLeft, SplitRight, ParentAfter, PlacesAfterSplit, Kid, K, Separator, HasKey, Wf, CanSplit, NodeOk;
    SplitSite(n, g, root, p, j, c, r);
    PlacesMove(n, g, root, p, j, c, r);
    var n', g', home' := NodesAfterSplit(n, p, j, c, r), PlacesAfterSplit(n, g, p, c, r), HomeAfterSplit(n, home, c, r);
    assert home'.Keys == home.Keys;
    forall q, i | q in g' && IsLeaf(n'[q]) && 0 <= i < |n'[q].entries|
      ensures var k := K(n'[q], i); k in m && m[k] == n'[q].entries[i].value && home'[k] == q
    {
      SplitKeepsLeafContents(n, g, root, p, j, c, r, m, home, q, i);
    }
    forall k | k in m
      ensures home'[k] in g' && IsLeaf(n'[home'[k]]) && HasKey(n'[home'[k]], k)
    {
      SplitKeepsHome(n, g, root, p, j, c, r, m, home, k);
    }
  }

  lemma SplitKeepsOccupied(n: Nodes, g: Places, root: PageId, p: PageId, j: nat, c: PageId, r: PageId)
    requires CanSplit(n, g, root, p, j, c, r)
    requires forall q :: q in g && q != p ==> n[q].entries != [] || (q == root && IsLeaf(n[q]))
    ensures PlacesAfterSplit(n, g, p, c, r).Keys <= NodesAfterSplit(n, p, j, c, r).Keys
    ensures Occupied(NodesAfterSplit(n, p, j, c, r), PlacesAfterSplit(n, g, p, c, r), root)
  {
    hide SplitLeft, SplitRight, ParentAfter, PlacesAfterSplit, Kid, K, Separator, Wf, CanSplit, NodeOk;
    SplitSite(n, g, root, p, j, c, r);
    PlacesMove(n, g, root, p, j, c, r);
    HalvesOf(n[c], r, c);
    ParentOf(n[p], j, Separator(n[c]), r);
  }

  lemma SplitKeepsAnchor(n: Nodes, g: Places, root: PageId, p: PageId, j: nat, c: PageId, r: PageId, q: PageId)
    requires CanSplit(n, g, root, p, j, c, r) && Anchored(n, g)
    requires q in PlacesAfterSplit(n, g, p, c, r) && q in NodesAfterSplit(n, p, j, c, r)
    requires IsLeaf(NodesAfterSplit(n, p, j, c, r)[q]) && PlacesAfterSplit(n, g, p, c, r)[q].lo > 0
    ensures HasKey(NodesAfterSplit(n, p, j, c, r)[q], PlacesAfterSplit(n, g, p, c, r)[q].lo)
  {
    hide SplitLeft, SplitRight, ParentAfter, PlacesAfterSplit, Kid, K, Separator, HighKeyOk, KeysInRange, KeysSized,
         KidOk, Wf, CanSplit;
    SplitSite(n, g, root, p, j, c, r);
    PlacesMove(n, g, root, p, j, c, r);
    HalvesOf(n[c], r, c);
    ParentOf(n[p], j, Separator(n[c]), r);
    var x, L, R := n[c], SplitLeft(n[c], r), SplitRight(n[c], c);
    if q == r {
      assert K(R, 0) == K(x, Mid(x));
    } else if q == c {
      var i :| 0 <= i < |x.entries| && K(x, i) == g[c].lo;
      assert i < Mid(x);
      assert K(L, i) == g[c].lo;
    } else {
      assert HasKey(n[q], g[q].lo);
    }
  }

  lemma SplitKeepsAnchored(n: Nodes, g: Places, root: PageId, p: PageId, j: nat, c: PageId, r: PageId)
    requires CanSplit(n, g, root, p, j, c, r) && Anchored(n, g)
    ensures PlacesAfterSplit(n, g, p, c, r).Keys <= NodesAfterSplit(n, p, j, c, r).Keys
    ensures Anchored(NodesAfterSplit(n, p, j, c, r), PlacesAfterSplit(n, g, p, c, r))
  {
    hide SplitLeft, SplitRight, ParentAfter, PlacesAfterSplit, Kid, K, Separator, Wf, CanSplit, NodeOk, HasKey;
    SplitSite(n, g, root, p, j, c, r);
    PlacesMove(n, g, root, p, j, c, r);
    var n', g' := NodesAfterSplit(n, p, j, c, r), PlacesAfterSplit(n, g, p, c, r);
    forall q | q in g' && IsLeaf(n'[q]) && g'[q].lo > 0
      ensures HasKey(n'[q], g'[q].lo)
    {
      SplitKeepsAnchor(n, g, root, p, j, c, r, q);
    }
  }
}
