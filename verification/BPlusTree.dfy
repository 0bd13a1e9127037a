/**
 The page B+Tree (src/page_bptree.rs): a map of byte pages under a root id,
 with top-down inserts that split full pages before descending into them.
 */
module BPlusTree {
  import opened Bytes
  import opened Params
  import opened KeyOrder
  import opened TreePage
  import opened TreeSplit
  import opened TreeModel
  import opened TreeSteps
  import opened TreePut
  import opened TreeHeight
  import opened TreeScan
  import opened TreeCount

  type Pages = map<PageId, seq<Byte>>
  type Store = map<nat, seq<Byte>>
  type Homes = map<nat, PageId>

  ghost predicate PagesHold(pages: Pages, n: Nodes) {
    pages.Keys == n.Keys && forall p :: p in n ==> Holds(pages[p], n[p])
  }

  lemma PageWritten(pages: Pages, n: Nodes, p: PageId, page: seq<Byte>, node: Node)
    requires PagesHold(pages, n) && Holds(page, node)
    ensures PagesHold(pages[p := page], n[p := node])
  {
    hide Holds;
  }

  /** A tree over `n` that stores `m`, all of whose ids were handed out before `next`. */
  ghost predicate Tree(n: Nodes, g: Places, root: PageId, m: Store, home: Homes, next: nat) {
    && Wf(n, g, root)
    && Contents(n, g, m, home)
    && Occupied(n, g, root)
    && Anchored(n, g)
    && (forall p :: p in n ==> 0 < p < next)
  }

  lemma TreeNode(n: Nodes, g: Places, root: PageId, m: Store, home: Homes, next: nat, p: PageId)
    requires Tree(n, g, root, m, home, next) && p in g
    ensures Wf(n, g, root) && g.Keys <= n.Keys && 0 < p < next
    ensures NodeOk(n[p], g, p) && KeysSized(n[p]) && Sorted(n[p]) && n[p].header.keyCount == |n[p].entries|
    ensures IsLeaf(n[p]) || n[p].header.pageType == PAGE_TYPE_INTERNAL
    ensures g[p].level == 0 <==> IsLeaf(n[p])
  {
    hide Contents, Occupied, Anchored, ParentsOk, NextOk, K, Kid, Sorted, KeysSized, KidOk;
  }

  lemma TreeRoot(n: Nodes, g: Places, root: PageId, m: Store, home: Homes, next: nat)
    requires Tree(n, g, root, m, home, next)
    ensures root in g && root in n && forall k: nat :: k < KEY_LIMIT ==> Covers(g[root], k)
  {
    hide Contents, Occupied, Anchored, NextOk, NodeOk;
  }

  lemma EmptyTree(leaf: Node)
    requires leaf == Node(Header(PAGE_TYPE_LEAF, 0, 0, None, None, 0, None), [])
    ensures Tree(map[1 := leaf], map[1 := Place(0, 0, KEY_LIMIT, 1)], 1, map[], map[], 2)
  {
  }

  lemma FreshId(n: Nodes, g: Places, root: PageId, m: Store, home: Homes, next: nat)
    requires Tree(n, g, root, m, home, next)
    ensures next !in n && 0 < next
  {
    hide Contents, Occupied, Anchored, NextOk, NodeOk;
  }

  // -------------------------------------------------------------- capacity

  /** Pages that are full hold many entries: 15 in a leaf, 628 in an internal page. */
  lemma FullMeansMany(x: Node)
    requires x.header.keyCount == |x.entries| && !HasRoomForOneMore(x.header)
    ensures IsLeaf(x) ==> |x.entries| >= 15
    ensures x.header.pageType == PAGE_TYPE_INTERNAL ==> |x.entries| >= 628
  {
    hide Span;
    var n := |x.entries|;
    SpanIsProduct(LEAF_VALUE_SIZE, n + 1);
    SpanIsProduct(CHILD_ID_SIZE, n + 1);
  }

  /** A half of a page has room for one more entry. */
  lemma HalfHasRoom(vs: nat, n: nat, half: nat)
    requires Footprint(vs, n) <= PAGE_SIZE && half + 1 <= n
    ensures Footprint(vs, half + 1) <= PAGE_SIZE
  {
    SpanMonotone(vs, half + 1, n);
  }

  lemma SplitHalvesHaveRoom(page: seq<Byte>, x: Node, r: PageId, c: PageId)
    requires Holds(page, x) && |x.entries| >= 3
    ensures HasRoomForOneMore(SplitLeft(x, r).header) && HasRoomForOneMore(SplitRight(x, c).header)
    ensures SplitLeft(x, r).header.keyCount == |SplitLeft(x, r).entries|
    ensures SplitRight(x, c).header.keyCount == |SplitRight(x, c).entries|
  {
    hide OffsetTable, Packed, HeaderBytes, EntryValueSize, Span;
    var vs, n := EntryValueSize(x.header.pageType), |x.entries|;
    HalfHasRoom(vs, n, Mid(x));
    HalfHasRoom(vs, n, n - Mid(x));
    HalfHasRoom(vs, n, n - Mid(x) - 1);
  }

  // ------------------------------------------------------------ the steps

  /** Splitting child `c` of `p` with fresh page `next`. */
  lemma SplitStep(n: Nodes, g: Places, root: PageId, m: Store, home: Homes, next: nat, p: PageId, j: nat, c: PageId)
    requires Tree(n, g, root, m, home, next) && 0 < next < U64_LIMIT
    requires p in g && !IsLeaf(n[p]) && j <= |n[p].entries| && c == Kid(n[p], j) && c in g
    requires |n[c].entries| >= 3
    ensures Tree(NodesAfterSplit(n, p, j, c, next), PlacesAfterSplit(n, g, p, c, next), root, m,
                 HomeAfterSplit(n, home, c, next), next + 1)
  {
    hide Wf, Contents, Occupied, Anchored, PlacesAfterSplit, SplitLeft, SplitRight, ParentAfter, Kid, HomeAfterSplit,
         Separator;
    WfDomain(n, g, root);
    assert CanSplit(n, g, root, p, j, c, next);
    SplitKeepsTree(n, g, root, p, j, c, next);
    SplitKeepsContents(n, g, root, p, j, c, next, m, home);
    OccupiedBut(n, g, root, p);
    SplitKeepsOccupied(n, g, root, p, j, c, next);
    SplitKeepsAnchored(n, g, root, p, j, c, next);
  }

  lemma OccupiedBut(n: Nodes, g: Places, root: PageId, p: PageId)
    requires g.Keys <= n.Keys && Occupied(n, g, root)
    ensures forall q :: q in g && q != p ==> n[q].entries != [] || (q == root && IsLeaf(n[q]))
  {
  }

  ghost function NodesAfterRootSplit(n: Nodes, root: PageId, r: PageId, t: PageId, level: Byte): Nodes
    requires root in n && n[root].entries != [] && t != root
  {
    NodesAfterSplit(n[t := NewRoot(level, root)], t, 0, root, r)
  }

  ghost function PlacesAfterRootSplit(n: Nodes, g: Places, root: PageId, r: PageId, t: PageId, level: Byte): Places
    requires root in n && root in g && n[root].entries != [] && t != root
  {
    PlacesAfterSplit(n[t := NewRoot(level, root)], PlacesRaised(g, root, t), t, root, r)
  }

  /** Splitting a full root: its right half gets page `next`, the new root page `next + 1`. */
  lemma RootSplitStep(n: Nodes, g: Places, root: PageId, m: Store, home: Homes, next: nat, level: Byte)
    requires Tree(n, g, root, m, home, next) && 0 < next && next + 1 < U64_LIMIT
    requires root in g && root in n && |n[root].entries| >= 3
    ensures Tree(NodesAfterRootSplit(n, root, next, next + 1, level),
                 PlacesAfterRootSplit(n, g, root, next, next + 1, level),
                 next + 1, m, HomeAfterSplit(n, home, root, next), next + 2)
  {
    hide Wf, Contents, Occupied, Anchored, SplitLeft, SplitRight, ParentAfter, HomeAfterSplit, Separator,
         PlacesAfterSplit, PlacesRaised;
    var r, t := next, next + 1;
    var n1, g1 := n[t := NewRoot(level, root)], PlacesRaised(g, root, t);
    RaiseKeepsTree(n, g, root, t, level);
    RaiseKeepsContents(n, g, root, t, level, m, home);
    RaisedSite(n, g, root, t, level);
    assert CanSplit(n1, g1, t, t, 0, root, r);
    SplitKeepsTree(n1, g1, t, t, 0, root, r);
    SplitKeepsContents(n1, g1, t, t, 0, root, r, m, home);
    SplitKeepsOccupied(n1, g1, t, t, 0, root, r);
    RaiseKeepsAnchored(n, g, root, t, level);
    SplitKeepsAnchored(n1, g1, t, t, 0, root, r);
    assert HomeAfterSplit(n1, home, root, r) == HomeAfterSplit(n, home, root, r) by { SameHome(n, n1, home, root, r); }
  }

  lemma RootSplitNodes(n: Nodes, root: PageId, r: PageId, t: PageId, level: Byte)
    requires root in n && n[root].entries != [] && t != root && r != t
    ensures NodesAfterRootSplit(n, root, r, t, level)
         == n[root := SplitLeft(n[root], r)][r := SplitRight(n[root], root)]
              [t := ParentAfter(NewRoot(level, root), 0, Separator(n[root]), r)]
  {
    hide SplitLeft, SplitRight, ParentAfter, Separator;
  }

  lemma SameHome(n: Nodes, n1: Nodes, home: Homes, c: PageId, r: PageId)
    requires c in n && c in n1 && n[c] == n1[c] && n[c].entries != []
    ensures HomeAfterSplit(n, home, c, r) == HomeAfterSplit(n1, home, c, r)
  {
    hide Separator;
  }

  lemma RaisedSite(n: Nodes, g: Places, root: PageId, t: PageId, level: Byte)
    requires Wf(n, g, root) && t !in n && root in g && Occupied(n, g, root) && n[root].entries != []
    ensures var n1, g1 := n[t := NewRoot(level, root)], PlacesRaised(g, root, t);
            && t in g1 && root in g1 && g1.Keys <= n1.Keys
            && !IsLeaf(n1[t]) && Kid(n1[t], 0) == root && n1[root] == n[root]
            && forall q :: q in g1 && q != t ==> n1[q].entries != []
  {
    hide Wf;
    WfDomain(n, g, root);
  }

  class PageBPlusTree {
    var pages: Pages
    var nextPageId: nat
    var rootId: PageId
    var len: nat

    ghost var nodes: Nodes
    ghost var places: Places
    ghost var store: Store
    ghost var home: Homes

    ghost predicate Valid()
      reads this
    {
      && PagesHold(pages, nodes)
      && Tree(nodes, places, rootId, store, home, nextPageId)
      && len == |store|
    }

    constructor ()
      ensures Valid() && store == map[] && nextPageId == 2
    {
      nextPageId, rootId, len := 2, 1, 0;
      var page := NewPage(PAGE_TYPE_LEAF, 0);
      ghost var leaf := Node(Header(PAGE_TYPE_LEAF, 0, 0, None, None, 0, None), []);
      pages, nodes := map[1 := page[..]], map[1 := leaf];
      places, store, home := map[1 := Place(0, 0, KEY_LIMIT, 1)], map[], map[];
      new;
      EmptyTree(leaf);
    }

    /** Replaces the page at `id`, keeping the ghost view in step. */
    method WritePage(id: PageId, page: seq<Byte>, ghost node: Node)
      requires PagesHold(pages, nodes) && Holds(page, node)
      modifies this`pages, this`nodes
      ensures pages == old(pages)[id := page] && nodes == old(nodes)[id := node]
      ensures PagesHold(pages, nodes)
    {
      hide Holds, PagesHold;
      PageWritten(pages, nodes, id, page, node);
      pages, nodes := pages[id := page], nodes[id := node];
    }

    method SplitChildAndUpdateParent(parentId: PageId, childPos: nat, childId: PageId)
      returns (sep: seq<Byte>, rightId: PageId)
      requires PagesHold(pages, nodes) && Tree(nodes, places, rootId, store, home, nextPageId) && nextPageId < U64_LIMIT
      requires parentId in places && !IsLeaf(nodes[parentId]) && childPos <= |nodes[parentId].entries|
      requires childId == Kid(nodes[parentId], childPos) && childId in places
      requires HasRoomForOneMore(nodes[parentId].header) && |nodes[childId].entries| >= 3
      modifies this`pages, this`nodes, this`places, this`home, this`nextPageId
      ensures PagesHold(pages, nodes) && Tree(nodes, places, rootId, store, home, nextPageId)
      ensures rightId == old(nextPageId) && nextPageId == old(nextPageId) + 1
      ensures sep == Separator(old(nodes)[childId])
      ensures nodes == NodesAfterSplit(old(nodes), parentId, childPos, childId, rightId)
      ensures places == PlacesAfterSplit(old(nodes), old(places), parentId, childId, rightId)
    {
      hide Holds, PagesHold, Tree, Kid, SplitLeft, SplitRight, Separator, PlacesAfterSplit, HomeAfterSplit, NodeOk, Wf,
        ParentAfter, HasRoomForOneMore, KeysSized, Sorted;
      ghost var n0 := nodes;
      TreeNode(nodes, places, rootId, store, home, nextPageId, parentId);
      TreeNode(nodes, places, rootId, store, home, nextPageId, childId);
      PageAt(pages, nodes, parentId);
      PageAt(pages, nodes, childId);
      SplitStep(nodes, places, rootId, store, home, nextPageId, parentId, childPos, childId);
      SeparatorSized(nodes, places, childId);

      var parentPage, childPage := pages[parentId], pages[childId];
      rightId := nextPageId;
      nextPageId := nextPageId + 1;
      var leftPage, rightPage;
      sep, leftPage, rightPage := SplitPage(childPage, childId, rightId, n0[childId]);
      WritePage(childId, leftPage, SplitLeft(n0[childId], rightId));
      WritePage(rightId, rightPage, SplitRight(n0[childId], childId));
      var newParent := EncodeParent(parentPage, childPos, sep, rightId, n0[parentId]);
      WritePage(parentId, newParent, ParentAfter(n0[parentId], childPos, sep, rightId));
      assert nodes == NodesAfterSplit(n0, parentId, childPos, childId, rightId);
      places := PlacesAfterSplit(n0, places, parentId, childId, rightId);
      home := HomeAfterSplit(n0, home, childId, rightId);
    }

    method EnsureRootNotFull()
      requires Valid() && nextPageId + 2 < U64_LIMIT
      modifies this`pages, this`nodes, this`places, this`home, this`nextPageId, this`rootId
      ensures Valid() && nextPageId <= old(nextPageId) + 2
      ensures rootId in nodes && HasRoomForOneMore(nodes[rootId].header)
    {
      hide Holds, PagesHold, Tree, SplitLeft, SplitRight, Separator, PlacesAfterRootSplit, HomeAfterSplit, NodeOk, Wf,
        HasRoomForOneMore, KeysSized, Sorted, Covers, ParseHeader;
      TreeRoot(nodes, places, rootId, store, home, nextPageId);
      TreeNode(nodes, places, rootId, store, home, nextPageId, rootId);
      PageAt(pages, nodes, rootId);
      HoldsCount(pages[rootId], nodes[rootId]);
      var root := pages[rootId];
      var header := ParseHeader(root);
      if !HasRoomForOneMore(header) {
        SplitRoot(header);
      }
    }

    method SplitRoot(header: Header)
      requires Valid() && nextPageId + 2 < U64_LIMIT
      requires rootId in nodes && header == nodes[rootId].header && !HasRoomForOneMore(header)
      modifies this`pages, this`nodes, this`places, this`home, this`nextPageId, this`rootId
      ensures Valid() && nextPageId == old(nextPageId) + 2
      ensures rootId in nodes && HasRoomForOneMore(nodes[rootId].header)
      ensures nodes[rootId].header.level == if header.level == 255 then 255 else header.level + 1
    {
      hide Holds, PagesHold, Tree, SplitLeft, SplitRight, Separator, PlacesAfterRootSplit, HomeAfterSplit, NodeOk, Wf,
        HasRoomForOneMore, KeysSized, Sorted, Covers, ParseHeader, ParentAfter, NewRoot, NodesAfterRootSplit,
        IsLeaf;
      ghost var n0, oldRoot := nodes, rootId;
      TreeRoot(nodes, places, rootId, store, home, nextPageId);
      TreeNode(nodes, places, rootId, store, home, nextPageId, rootId);
      PageAt(pages, nodes, rootId);
      FullMeansMany(nodes[rootId]);
      var level := LevelAbove(header.level);
      RootSplitStep(nodes, places, rootId, store, home, nextPageId, level);
      SeparatorSized(nodes, places, rootId);

      var rightId := nextPageId;
      var sep, leftPage, rightPage := SplitPage(pages[rootId], rootId, rightId, n0[oldRoot]);
      WritePage(rootId, leftPage, SplitLeft(n0[oldRoot], rightId));
      WritePage(rightId, rightPage, SplitRight(n0[oldRoot], oldRoot));
      var newRoot := EncodeNewRoot(level, rootId, sep, rightId);
      var newRootId := rightId + 1;
      WritePage(newRootId, newRoot, ParentAfter(NewRoot(level, oldRoot), 0, sep, rightId));
      RootSplitNodes(n0, oldRoot, rightId, newRootId, level);
      nextPageId := nextPageId + 2;
      places := PlacesAfterRootSplit(n0, places, oldRoot, rightId, newRootId, level);
      home := HomeAfterSplit(n0, home, oldRoot, rightId);
      rootId := newRootId;
      NewRootHasRoom(level, oldRoot, sep, rightId);
    }

    /** Writes `key` in leaf `leafId`, over an old value or as a new entry. */
    method PutInLeaf(leafId: PageId, key: seq<Byte>, value: seq<Byte>)
      requires Valid() && |key| == KEY_SIZE && |value| == LEAF_VALUE_SIZE
      requires leafId in places && leafId in nodes && IsLeaf(nodes[leafId]) && HasRoomForOneMore(nodes[leafId].header)
      requires Covers(places[leafId], Num(key))
      modifies this`pages, this`nodes, this`home, this`store, this`len
      ensures Valid() && store == old(store)[Num(key) := value]
    {
      hide Holds, PagesHold, Tree, NodeOk, Wf, HasRoomForOneMore, KeysSized, Sorted, Covers, ParseHeader, K, Num,
        InsertedAt, WithValue, LeafPut, HasKey;
      ghost var x := nodes[leafId];
      TreeNode(nodes, places, rootId, store, home, nextPageId, leafId);
      PageAt(pages, nodes, leafId);
      var page := pages[leafId];
      var found, pos := FindKeyPos(page, key, x);
      ghost var y;
      if found {
        var out := OverwriteValue(page, pos, value, x);
        y := WithValue(x, pos, value);
        OverwriteIsPut(x, pos, value);
        assert K(x, pos) == Num(key) by { KeyNumber(x, pos); }
        PutStep(nodes, places, rootId, store, home, nextPageId, leafId, y, Num(key), value);
        HasKeyAt(x, pos);
        WritePage(leafId, out, y);
      } else {
        var out := RebuildPageWithInsert(page, pos, key, value, x);
        y := Node(x.header.(keyCount := |x.entries| + 1), InsertedAt(x.entries, pos, Entry(key, value)));
        InsertIsPut(x, pos, key, value);
        PutStep(nodes, places, rootId, store, home, nextPageId, leafId, y, Num(key), value);
        NoKey(x, pos, Num(key));
        WritePage(leafId, out, y);
        len := len + 1;
      }
      store, home := store[Num(key) := value], home[Num(key) := leafId];
    }

    method Insert(key: seq<Byte>, value: seq<Byte>) returns (r: Result<(), Error>)
      requires Valid() && |value| == LEAF_VALUE_SIZE
      requires nextPageId + 256 < U64_LIMIT
      modifies this
      ensures Valid()
      ensures r.Ok? <==> |key| == KEY_SIZE
      ensures r.Ok? ==> store == old(store)[Num(key) := value]
      ensures r.Err? ==> unchanged(this)
      ensures nextPageId <= old(nextPageId) + 131
    {
      hide Holds, PagesHold, Tree, NodeOk, Wf, HasRoomForOneMore, KeysSized, Sorted, Covers, ParseHeader, K, Num,
        NodesAfterSplit, PlacesAfterSplit, Kid, Separator;
      if |key| != KEY_SIZE {
        return Err(InvalidKeySize(|key|, KEY_SIZE));
      }
      EnsureRootNotFull();
      TreeRoot(nodes, places, rootId, store, home, nextPageId);
      TreeHeightBound(nodes, places, rootId, store, home, nextPageId);
      NumBelowLimit(key);
      var currentId := rootId;
      TreeNode(nodes, places, rootId, store, home, nextPageId, currentId);
      PageAt(pages, nodes, currentId);
      HoldsCount(pages[currentId], nodes[currentId]);
      while ParseHeader(pages[currentId]).pageType != PAGE_TYPE_LEAF
        invariant Valid() && store == old(store)
        invariant currentId in places && currentId in nodes && currentId in pages
        invariant |pages[currentId]| == PAGE_SIZE && ParseHeader(pages[currentId]) == nodes[currentId].header
        invariant Covers(places[currentId], Num(key))
        invariant HasRoomForOneMore(nodes[currentId].header)
        invariant nextPageId + places[currentId].level <= old(nextPageId) + 131
        decreases places[currentId].level
      {
        currentId := DescendForInsert(currentId, key);
        PageAt(pages, nodes, currentId);
        HoldsCount(pages[currentId], nodes[currentId]);
      }
      PutInLeaf(currentId, key, value);
      return Ok(());
    }

    /**
     * One round of the descent: split the child on the path if it is full, then step into the right
     * half or the child.
     */
    method DescendForInsert(currentId: PageId, key: seq<Byte>) returns (nextId: PageId)
      requires Valid() && |key| == KEY_SIZE && nextPageId < U64_LIMIT
      requires currentId in places && currentId in nodes && !IsLeaf(nodes[currentId])
      requires Covers(places[currentId], Num(key)) && HasRoomForOneMore(nodes[currentId].header)
      modifies this`pages, this`nodes, this`places, this`home, this`nextPageId
      ensures Valid() && nextPageId <= old(nextPageId) + 1
      ensures nextId in places && nextId in nodes && currentId in old(places)
      ensures places[nextId].level + 1 == old(places)[currentId].level
      ensures Covers(places[nextId], Num(key)) && HasRoomForOneMore(nodes[nextId].header)
    {
      hide Holds, PagesHold, Tree, NodeOk, Wf, HasRoomForOneMore, KeysSized, Sorted, Covers, ParseHeader, K, Num,
        NodesAfterSplit, PlacesAfterSplit, Kid, Separator;
      ghost var n0, g0 := nodes, places;
      TreeNode(nodes, places, rootId, store, home, nextPageId, currentId);
      PageAt(pages, nodes, currentId);
      var page := pages[currentId];
      var childPos := ChildInsertPosForKey(page, key, nodes[currentId]);
      ChildIdIsKid(page, nodes[currentId], childPos);
      var childId := ChildIdAtPos(page, childPos);
      KidCovers(nodes, places, rootId, currentId, childPos, Num(key));
      TreeNode(nodes, places, rootId, store, home, nextPageId, childId);
      PageAt(pages, nodes, childId);
      HoldsCount(pages[childId], nodes[childId]);
      if HasRoomForOneMore(ParseHeader(pages[childId])) {
        return childId;
      }
      // The page being left always has room here, so the parent-full error is never returned.
      assert HasRoomForOneMore(nodes[currentId].header);
      FullMeansMany(nodes[childId]);
      SplitHalvesHaveRoom(pages[childId], nodes[childId], nextPageId, childId);
      FreshId(nodes, places, rootId, store, home, nextPageId);
      var sep, rightId := SplitChildAndUpdateParent(currentId, childPos, childId);
      AfterSplit(n0, g0, rootId, currentId, childPos, childId, rightId, Num(key));
      SeparatorSized(n0, g0, childId);
      LexIsNumeric(key, sep);
      nextId := if LexLess(key, sep) then childId else rightId;
    }

    method Get(key: seq<Byte>) returns (r: Option<seq<Byte>>)
      requires Valid() && |key| == KEY_SIZE
      ensures r == if Num(key) in store then Some(store[Num(key)]) else None
    {
      hide Holds, PagesHold, Tree, NodeOk, Wf, KeysSized, Sorted, Covers, ParseHeader, K, Num, HasKey,
        EntryKeyAt, EntryValueAt, TableInside;
      var leafId, hops := FindLeafForRead(key);
      TreeNode(nodes, places, rootId, store, home, nextPageId, leafId);
      PageAt(pages, nodes, leafId);
      var page := pages[leafId];
      ghost var x := nodes[leafId];
      HoldsCount(page, x);
      assert Num(key) < places[leafId].hi by { CoversBelow(places[leafId], Num(key)); }
      StaysOnLeaf(nodes, places, rootId, leafId, key);
      assert !HopsRight(ParseHeader(page), key);
      var found, pos := FindKeyPos(page, key, x);
      LeafLookup(nodes, places, rootId, store, home, nextPageId, leafId, Num(key));
      if found {
        HoldsReadsAt(page, x, pos);
        HasKeyAt(x, pos);
        assert K(x, pos) == Num(key) by { KeyNumber(x, pos); }
        return EntryValueAt(page, pos);
      }
      NoKey(x, pos, Num(key));
      return None;
    }

    /** Descends to the leaf covering `key`, well within the 8192 pages the retry loop allows. */
    method FindLeafForRead(key: seq<Byte>) returns (leafId: PageId, hops: nat)
      requires Valid() && |key| == KEY_SIZE
      ensures leafId in places && leafId in nodes && IsLeaf(nodes[leafId]) && Covers(places[leafId], Num(key))
      ensures hops <= 129 < MAX_SCAN_LEAF_HOPS
    {
      hide Holds, PagesHold, Tree, NodeOk, Wf, KeysSized, Sorted, Covers, ParseHeader, K, Num, Kid;
      TreeRoot(nodes, places, rootId, store, home, nextPageId);
      TreeHeightBound(nodes, places, rootId, store, home, nextPageId);
      NumBelowLimit(key);
      leafId, hops := rootId, 1;
      PageAt(pages, nodes, leafId);
      HoldsCount(pages[leafId], nodes[leafId]);
      while ParseHeader(pages[leafId]).pageType != PAGE_TYPE_LEAF
        invariant leafId in places && leafId in nodes && leafId in pages
        invariant |pages[leafId]| == PAGE_SIZE && ParseHeader(pages[leafId]) == nodes[leafId].header
        invariant Covers(places[leafId], Num(key))
        invariant hops + places[leafId].level <= 129
        decreases places[leafId].level
      {
        TreeNode(nodes, places, rootId, store, home, nextPageId, leafId);
        PageAt(pages, nodes, leafId);
        var pos := ChildInsertPosForKey(pages[leafId], key, nodes[leafId]);
        ChildIdIsKid(pages[leafId], nodes[leafId], pos);
        KidCovers(nodes, places, rootId, leafId, pos, Num(key));
        leafId, hops := ChildIdAtPos(pages[leafId], pos), hops + 1;
        TreeNode(nodes, places, rootId, store, home, nextPageId, leafId);
        PageAt(pages, nodes, leafId);
        HoldsCount(pages[leafId], nodes[leafId]);
      }
    }

    /** Appends the entries of one leaf from `start` on, up to the first key past `end`. */
    method ScanLeaf(leafId: PageId, first: bool, start: seq<Byte>, end: seq<Byte>, pass: seq<Entry>,
                    ghost visited: set<PageId>)
      returns (out: seq<Entry>, stop: bool)
      requires Valid() && |start| == KEY_SIZE && |end| == KEY_SIZE && places.Keys <= nodes.Keys
      requires Scanned(nodes, places, store, Num(start), Num(end), leafId, visited, pass)
      requires first <==> places[leafId].lo <= Num(start)
      ensures stop ==> Listing(out, store, Num(start), Num(end) + 1)
      ensures stop ==> exists k :: k in store && Num(start) <= k < places[leafId].hi && k > Num(end)
      ensures !stop ==> Listing(out, store, Num(start), places[leafId].hi) && KeysAtMost(out, Num(end))
      ensures !stop && !first ==> out != []
    {
      hide Holds, PagesHold, Tree, NodeOk, Wf, KeysSized, Sorted, ParseHeader, K, Num, Listing, ScanSet, EntryKeyAt,
           EntryValueAt, TableInside, LexLess;
      ghost var s, e, x, at := Num(start), Num(end), nodes[leafId], places[leafId];
      TreeNode(nodes, places, rootId, store, home, nextPageId, leafId);
      PageAt(pages, nodes, leafId);
      var page := pages[leafId];
      HoldsCount(page, x);
      LeafReads(nodes, places, rootId, store, home, nextPageId, leafId);
      var idx := 0;
      if first {
        idx := LowerBoundInLeaf(page, start, x);
      }
      out := pass;
      ghost var b := From(at, s);
      var n := ParseHeader(page).keyCount;
      while idx < n
        invariant 0 <= idx <= n
        invariant s <= b && at.lo <= b <= at.hi
        invariant Listing(out, store, s, b) && KeysAtMost(out, e)
        invariant forall i :: 0 <= i < idx ==> K(x, i) < b
        invariant forall i :: idx <= i < |x.entries| ==> b <= K(x, i)
        invariant !first && idx > 0 ==> out != []
      {
        HoldsReadsAt(page, x, idx);
        KeyLength(page, x, idx);
        var key := EntryKeyAt(page, idx).value;
        KeyNumber(x, idx);
        LeafStep(nodes, places, rootId, store, home, nextPageId, leafId, idx, b);
        LexIsNumeric(end, key);
        if LexLess(end, key) {
          StopListing(out, store, s, b, e, K(x, idx));
          return out, true;
        }
        var entry := Entry(key, EntryValueAt(page, idx).value);
        ListingPush(out, store, s, b, entry);
        out := out + [entry];
        b := K(x, idx) + 1;
        idx := idx + 1;
      }
      TailGap(nodes, places, rootId, store, home, nextPageId, leafId, b);
      ListingWiden(out, store, s, b, at.hi);
      stop := false;
    }

    /** One walk along the leaf chain, giving up after 8192 leaves. */
    method ScanPass(start: seq<Byte>, end: seq<Byte>) returns (pass: seq<Entry>, done: bool)
      requires Valid() && |start| == KEY_SIZE && |end| == KEY_SIZE
      ensures places.Keys <= nodes.Keys
      ensures done <==> |ScanSet(nodes, places, store, Num(start), Num(end))| <= MAX_SCAN_LEAF_HOPS
      ensures done ==> Listing(pass, store, Num(start), Num(end) + 1)
      ensures !done ==> pass != [] && exists hi :: Listing(pass, store, Num(start), hi)
    {
      hide Holds, PagesHold, Tree, NodeOk, Wf, KeysSized, Sorted, ParseHeader, K, Num, Listing, ScanSet, Scanned,
           KeysAtMost;
      ghost var s, e := Num(start), Num(end);
      ghost var visited: set<PageId> := {};
      var leafId, _ := FindLeafForRead(start);
      TreeNode(nodes, places, rootId, store, home, nextPageId, leafId);
      NumBelowLimit(end);
      pass := [];
      ScanStarts(nodes, places, rootId, store, s, e, leafId);
      var hops := 0;
      while hops < MAX_SCAN_LEAF_HOPS
        invariant 0 <= hops <= MAX_SCAN_LEAF_HOPS && hops == |visited|
        invariant leafId in places && Scanned(nodes, places, store, s, e, leafId, visited, pass)
      {
        ScanFacts(nodes, places, store, s, e, leafId, visited, pass);
        ReachedLeaf(nodes, places, rootId, store, s, e, leafId, visited, pass);
        TreeNode(nodes, places, rootId, store, home, nextPageId, leafId);
        PageAt(pages, nodes, leafId);
        HoldsCount(pages[leafId], nodes[leafId]);
        ScanStays(nodes, places, rootId, store, start, e, leafId, visited, pass);
        // The code's tests for a leaf seen before and for a high key below the start never fire.
        assert leafId !in visited && !HopsRight(ParseHeader(pages[leafId]), start);
        var out, stop := ScanLeaf(leafId, hops == 0, start, end, pass, visited);
        if stop {
          ScanEnds(nodes, places, rootId, store, s, e, leafId, visited, pass);
          return out, true;
        }
        var next := ParseHeader(pages[leafId]).nextLeaf;
        if next == None {
          ScanEnds(nodes, places, rootId, store, s, e, leafId, visited, pass);
          WholeListing(nodes, places, rootId, store, s, e, leafId, out);
          return out, true;
        }
        ScanAdvances(nodes, places, rootId, store, s, e, leafId, next.value, visited, pass, out);
        ReachedLeaf(nodes, places, rootId, store, s, e, next.value, visited + {leafId}, out);
        assert next.value != leafId;
        visited, pass := visited + {leafId}, out;
        leafId := next.value;
        hops := hops + 1;
        ScanFacts(nodes, places, store, s, e, leafId, visited, pass);
      }
      ScanFacts(nodes, places, store, s, e, leafId, visited, pass);
      ReachedLeaf(nodes, places, rootId, store, s, e, leafId, visited, pass);
      SubsetSize(visited + {leafId}, ScanSet(nodes, places, store, s, e));
      done := false;
    }

    /**
     Entries with keys in `[start, end]`. The result is the ascending listing of
     the range exactly when the scan looks at no more than 8192 leaves; past
     that the walk restarts and repeats entries. With at most 8190 keys in the
     range it always is, with more than 15 * 8192 never.
     */
    method Range(start: seq<Byte>, end: seq<Byte>) returns (out: seq<Entry>)
      requires Valid() && |start| == KEY_SIZE && |end| == KEY_SIZE
      ensures places.Keys <= nodes.Keys
      ensures |ScanSet(nodes, places, store, Num(start), Num(end))| <= MAX_SCAN_LEAF_HOPS
              ==> Listing(out, store, Num(start), Num(end) + 1)
      ensures |ScanSet(nodes, places, store, Num(start), Num(end))| > MAX_SCAN_LEAF_HOPS ==> !Ascending(out)
      ensures |KeysWithin(store, Num(start), Num(end) + 1)| + 2 <= MAX_SCAN_LEAF_HOPS
              ==> Listing(out, store, Num(start), Num(end) + 1)
      ensures |KeysWithin(store, Num(start), Num(end) + 1)| > LEAF_CAPACITY * MAX_SCAN_LEAF_HOPS ==> !Ascending(out)
    {
      hide Tree, PagesHold, Num, Listing, ScanSet, Ascending, KeysWithin;
      LeavesByKeys(pages, nodes, places, rootId, store, home, nextPageId, Num(start), Num(end));
      TreeRoot(nodes, places, rootId, store, home, nextPageId);
      TreeNode(nodes, places, rootId, store, home, nextPageId, rootId);
      out := [];
      var rounds := 0;
      while rounds < MAX_TRAVERSAL_RETRIES
        invariant 0 <= rounds <= MAX_TRAVERSAL_RETRIES
        invariant rounds > 0 ==> |ScanSet(nodes, places, store, Num(start), Num(end))| > MAX_SCAN_LEAF_HOPS
        invariant rounds == 0 ==> out == []
        invariant rounds == 1 ==> out != [] && exists hi :: Listing(out, store, Num(start), hi)
        invariant rounds >= 2 ==> !Ascending(out)
      {
        var pass, done := ScanPass(start, end);
        if rounds == 1 && !done {
          ghost var ha :| Listing(out, store, Num(start), ha);
          ghost var hb :| Listing(pass, store, Num(start), hb);
          RepeatsKey(out, pass, store, Num(start), ha, hb);
        } else if rounds >= 2 {
          StaysUnsorted(out, pass);
        }
        assert rounds == 0 ==> out + pass == pass;
        out := out + pass;
        if done {
          return;
        }
        rounds := rounds + 1;
      }
    }
  }

  /** The number of leaves a scan looks at, from the number of keys in its range. */
  lemma LeavesByKeys(pages: Pages, n: Nodes, g: Places, root: PageId, m: Store, home: Homes, next: nat, s: nat, e: nat)
    requires PagesHold(pages, n) && Tree(n, g, root, m, home, next)
    ensures g.Keys <= n.Keys
    ensures |KeysWithin(m, s, e + 1)| <= LEAF_CAPACITY * |ScanSet(n, g, m, s, e)|
    ensures |ScanSet(n, g, m, s, e)| <= |KeysWithin(m, s, e + 1)| + 2
  {
    hide Wf, Contents, Occupied, Anchored, Holds, KeysWithin, ScanSet;
    WfDomain(n, g, root);
    forall p | p in g && IsLeaf(n[p]) ensures |n[p].entries| <= LEAF_CAPACITY {
      LeafCapacity(pages[p], n[p]);
    }
    ManyKeys(n, g, root, m, home, s, e);
    FewKeysFewLeaves(n, g, root, m, home, s, e);
  }

  lemma RepeatsKey(a: seq<Entry>, b: seq<Entry>, m: Store, lo: nat, ha: nat, hb: nat)
    requires Listing(a, m, lo, ha) && Listing(b, m, lo, hb) && a != [] && b != []
    ensures !Ascending(a + b)
  {
    hide Num, Listing;
    if ha <= hb {
      ListingsAgree(a, b, m, lo, ha, hb);
    } else {
      ListingsAgree(b, a, m, lo, hb, ha);
    }
    assert a[0] == b[0];
    assert (a + b)[0] == a[0] && (a + b)[|a|] == b[0];
  }

  lemma StaysUnsorted(a: seq<Entry>, b: seq<Entry>)
    requires !Ascending(a)
    ensures !Ascending(a + b)
  {
    hide Num;
    var i, j :| 0 <= i < j < |a| && Num(a[i].key) >= Num(a[j].key);
    assert (a + b)[i] == a[i] && (a + b)[j] == a[j];
  }

  lemma ScanFacts(n: Nodes, g: Places, m: Store, s: nat, e: nat, p: PageId, visited: set<PageId>, pass: seq<Entry>)
    requires g.Keys <= n.Keys && Scanned(n, g, m, s, e, p, visited, pass)
    ensures p in g && g[p].level == 0 && visited <= ScanSet(n, g, m, s, e) && (|visited| >= 2 ==> pass != [])
    ensures visited == {} <==> g[p].lo <= s
    ensures exists hi :: Listing(pass, m, s, hi)
  {
    hide Listing, KeysAtMost, ScanSet;
  }

  lemma {:induction false} ScanStays(n: Nodes, g: Places, root: PageId, m: Store, start: seq<Byte>, e: nat, p: PageId,
                                     visited: set<PageId>, pass: seq<Entry>)
    requires Wf(n, g, root) && g.Keys <= n.Keys && |start| == KEY_SIZE
    requires Scanned(n, g, m, Num(start), e, p, visited, pass)
    ensures p in n && !HopsRight(n[p].header, start)
  {
    hide Wf, Num, Listing, KeysAtMost, ScanSet, HopsRight;
    LeafBounds(n, g, root, p);
    StaysOnLeaf(n, g, root, p, start);
  }

  lemma ScanStarts(n: Nodes, g: Places, root: PageId, m: Store, s: nat, e: nat, p: PageId)
    requires Wf(n, g, root) && g.Keys <= n.Keys && p in g && IsLeaf(n[p]) && Covers(g[p], s)
    ensures Scanned(n, g, m, s, e, p, {}, [])
  {
    hide Wf, Num;
    LeafBounds(n, g, root, p);
    forall q | q in g && g[q].level == 0 && g[q].hi > s && g[q].lo < g[p].lo
      ensures false
    {
      LeafBounds(n, g, root, q);
      CoverUnique(n, g, root, p, q, s);
    }
  }

  lemma WholeListing(n: Nodes, g: Places, root: PageId, m: Store, s: nat, e: nat, p: PageId, out: seq<Entry>)
    requires Wf(n, g, root) && p in g && p in n && IsLeaf(n[p]) && n[p].header.nextLeaf == None && e < KEY_LIMIT
    requires Listing(out, m, s, g[p].hi) && KeysAtMost(out, e)
    ensures Listing(out, m, s, e + 1)
  {
    hide Wf, Listing, Num;
    LeafBounds(n, g, root, p);
    ListingNarrow(out, m, s, g[p].hi, e + 1);
  }

  lemma StopListing(out: seq<Entry>, m: Store, s: nat, b: nat, e: nat, k: nat)
    requires Listing(out, m, s, b) && KeysAtMost(out, e) && e < k && s <= b
    requires forall x :: x in m ==> !(b <= x < k)
    ensures Listing(out, m, s, e + 1)
  {
    hide Listing, Num;
    if b <= e + 1 {
      ListingWiden(out, m, s, b, e + 1);
    } else {
      ListingNarrow(out, m, s, b, e + 1);
    }
  }

  lemma LeafReads(n: Nodes, g: Places, root: PageId, m: Store, home: Homes, next: nat, p: PageId)
    requires Tree(n, g, root, m, home, next) && p in g && p in n && IsLeaf(n[p])
    ensures forall i :: 0 <= i < |n[p].entries| ==> g[p].lo <= K(n[p], i) < g[p].hi
    ensures g[p].lo > 0 ==> n[p].entries != []
    ensures g[p].lo < g[p].hi
  {
    hide Wf, Contents, KidOk, Sorted, KeysSized, HighKeyOk, K;
    NodeOf(n, g, root, p);
    RootFull(n, g, root);
    WfDomain(n, g, root);
  }

  lemma LeafStep(n: Nodes, g: Places, root: PageId, m: Store, home: Homes, next: nat, p: PageId, idx: nat, b: nat)
    requires Tree(n, g, root, m, home, next) && p in g && p in n && IsLeaf(n[p]) && idx < |n[p].entries|
    requires g[p].lo <= b && b <= K(n[p], idx) && Sorted(n[p])
    requires forall i :: 0 <= i < idx ==> K(n[p], i) < b
    ensures K(n[p], idx) in m && m[K(n[p], idx)] == n[p].entries[idx].value
    ensures forall k :: k in m ==> !(b <= k < K(n[p], idx))
    ensures forall i :: 0 <= i <= idx ==> K(n[p], i) < K(n[p], idx) + 1
    ensures forall i :: idx < i < |n[p].entries| ==> K(n[p], idx) + 1 <= K(n[p], i)
  {
    hide Wf, Occupied, HasKey, K;
    WfDomain(n, g, root);
    LeafReads(n, g, root, m, home, next, p);
    LeafGap(n, g, root, m, home, p, idx, b, K(n[p], idx));
  }

  lemma TailGap(n: Nodes, g: Places, root: PageId, m: Store, home: Homes, next: nat, p: PageId, b: nat)
    requires Tree(n, g, root, m, home, next) && p in g && p in n && IsLeaf(n[p]) && g[p].lo <= b <= g[p].hi
    requires forall i :: 0 <= i < |n[p].entries| ==> K(n[p], i) < b
    ensures forall k :: k in m ==> !(b <= k < g[p].hi)
  {
    hide Wf, Contents, Occupied, K;
    WfDomain(n, g, root);
    LeafGap(n, g, root, m, home, p, |n[p].entries|, b, g[p].hi);
  }

  const MAX_SCAN_LEAF_HOPS := 8192
  const MAX_TRAVERSAL_RETRIES := 8

  /** The reader's test for following the next-leaf link. */
  predicate HopsRight(h: Header, key: seq<Byte>) {
    h.highKey.Some? && LexLess(h.highKey.value, key) && h.nextLeaf.Some?
  }

  lemma CoversBelow(at: Place, k: nat)
    requires Covers(at, k)
    ensures k < at.hi
  {
  }

  lemma {:induction false} StaysOnLeaf(n: Nodes, g: Places, root: PageId, p: PageId, key: seq<Byte>)
    requires Wf(n, g, root) && p in g && |key| == KEY_SIZE && Num(key) < g[p].hi
    ensures !HopsRight(n[p].header, key)
  {
    hide Sorted, KeysSized, KidOk, KeysInRange, Num, LexLess, Wf;
    NodeOf(n, g, root, p);
    if n[p].header.highKey.Some? {
      LexIsNumeric(n[p].header.highKey.value, key);
    }
  }

  lemma KeyNumber(x: Node, i: nat)
    requires i < |x.entries|
    ensures K(x, i) == Num(x.entries[i].key)
  {
  }

  lemma NoKey(x: Node, pos: nat, k: nat)
    requires pos <= |x.entries|
    requires forall i :: 0 <= i < pos ==> K(x, i) < k
    requires forall i :: pos <= i < |x.entries| ==> k < K(x, i)
    ensures !HasKey(x, k)
  {
    hide K;
  }

  lemma LeafLookup(n: Nodes, g: Places, root: PageId, m: Store, home: Homes, next: nat, p: PageId, k: nat)
    requires Tree(n, g, root, m, home, next) && p in g && p in n && IsLeaf(n[p]) && Covers(g[p], k)
    ensures k in m <==> HasKey(n[p], k)
    ensures forall i :: 0 <= i < |n[p].entries| && K(n[p], i) == k ==> k in m && m[k] == n[p].entries[i].value
  {
    hide Wf, HasKey, K, Covers;
    WfDomain(n, g, root);
    LeafDecides(n, g, root, m, home, p, k);
  }

  lemma TreeHeightBound(n: Nodes, g: Places, root: PageId, m: Store, home: Homes, next: nat)
    requires Tree(n, g, root, m, home, next)
    ensures root in g && g[root].level <= 128
  {
    hide Wf, Contents, Occupied;
    WfDomain(n, g, root);
    HeightBound(n, g, root, m, home);
  }

  /** Writing one entry in the covering leaf. */
  lemma PutStep(n: Nodes, g: Places, root: PageId, m: Store, home: Homes, next: nat, p: PageId, y: Node, k: nat,
                v: seq<Byte>)
    requires Tree(n, g, root, m, home, next) && p in g && p in n && LeafPut(n[p], y, k, v) && Covers(g[p], k)
    ensures Tree(n[p := y], g, root, m[k := v], home[k := p], next)
    ensures k in m <==> HasKey(n[p], k)
  {
    hide Wf, Contents, Occupied, Anchored, LeafPut, Covers, HasKey;
    WfDomain(n, g, root);
    PutKeepsTree(n, g, root, p, y, k, v);
    PutKeepsContents(n, g, root, p, y, k, v, m, home);
    PutKeepsOccupied(n, g, root, p, y, k, v);
    PutKeepsAnchored(n, g, p, y, k, v);
    PutOnLeaf(n[p], y, k, v);
    LeafDecides(n, g, root, m, home, p, k);
  }

  /** The child found by the separator search covers the key. */
  lemma KidCovers(n: Nodes, g: Places, root: PageId, p: PageId, pos: nat, k: nat)
    requires Wf(n, g, root) && p in g && p in n && !IsLeaf(n[p]) && Covers(g[p], k) && pos <= |n[p].entries|
    requires forall i :: 0 <= i < pos ==> K(n[p], i) <= k
    requires forall i :: pos <= i < |n[p].entries| ==> k < K(n[p], i)
    ensures Kid(n[p], pos) in g && Covers(g[Kid(n[p], pos)], k)
    ensures g[Kid(n[p], pos)].level + 1 == g[p].level
  {
    hide Wf, Sorted, KeysSized, KeysInRange, HighKeyOk, K, Kid;
    NodeOf(n, g, root, p);
    assert KidOk(n[p], g, p, pos);
  }

  /** After a split the half chosen by comparing with the separator covers the key. */
  lemma AfterSplit(n: Nodes, g: Places, root: PageId, p: PageId, j: nat, c: PageId, r: PageId, k: nat)
    requires CanSplit(n, g, root, p, j, c, r) && Covers(g[c], k)
    ensures var n', g' := NodesAfterSplit(n, p, j, c, r), PlacesAfterSplit(n, g, p, c, r);
            && c in g' && r in g' && c in n' && r in n'
            && n'[c] == SplitLeft(n[c], r) && n'[r] == SplitRight(n[c], c)
            && g'[c].level == g[c].level == g'[r].level
            && (k < Num(Separator(n[c])) ==> Covers(g'[c], k))
            && (k >= Num(Separator(n[c])) ==> Covers(g'[r], k))
  {
    hide Wf, SplitLeft, SplitRight, ParentAfter, Separator, PlacesAfterSplit;
    PlacesMove(n, g, root, p, j, c, r);
  }

  /** The level byte saturates. */
  function LevelAbove(level: Byte): Byte {
    if level < 255 then level + 1 else 255
  }

  lemma NewRootHasRoom(level: Byte, left: PageId, sep: seq<Byte>, right: PageId)
    ensures HasRoomForOneMore(ParentAfter(NewRoot(level, left), 0, sep, right).header)
    ensures ParentAfter(NewRoot(level, left), 0, sep, right).header.level == level
  {
    hide ToLe;
    SpanIsProduct(CHILD_ID_SIZE, 2);
  }

  method EncodeNewRoot(level: Byte, left: PageId, sep: seq<Byte>, right: PageId) returns (out: seq<Byte>)
    requires left < U64_LIMIT && |sep| == KEY_SIZE
    ensures Holds(out, ParentAfter(NewRoot(level, left), 0, sep, right))
  {
    hide Holds, ToLe;
    var buf := NewPage(PAGE_TYPE_INTERNAL, level);
    var header := Header(PAGE_TYPE_INTERNAL, level, 0, None, None, left, None);
    var entries := [Entry(sep, ToLe(right, 8))];
    SpanIsProduct(CHILD_ID_SIZE, 1);
    var r := EncodeEntries(buf, entries, header);
    assert InsertedAt([], 0, entries[0]) == entries;
    out := buf[..];
  }

  lemma {:induction false} NumBelowLimit(key: seq<Byte>)
    requires |key| == KEY_SIZE
    ensures Num(key) < KEY_LIMIT
  {
    NumBound(key);
  }

  lemma PageAt(pages: Pages, n: Nodes, p: PageId)
    requires PagesHold(pages, n) && p in n
    ensures p in pages && Holds(pages[p], n[p])
  {
    hide Holds;
  }

  method EncodeParent(page: seq<Byte>, pos: nat, sep: seq<Byte>, rightId: PageId, ghost node: Node)
    returns (out: seq<Byte>)
    requires Holds(page, node) && HasRoomForOneMore(node.header) && pos <= |node.entries|
    requires node.header.pageType == PAGE_TYPE_INTERNAL && |sep| == KEY_SIZE
    ensures Holds(out, ParentAfter(node, pos, sep, rightId))
  {
    hide Holds, ParseHeader, ToLe, Encodable, InsertedAt, HasRoomForOneMore;
    HoldsCount(page, node);
    HoldsParts(page, node);
    var entries := CollectEntries(page, node);
    entries := InsertedAt(entries, pos, Entry(sep, ToLe(rightId, 8)));
    EncodableParent(node, pos, Entry(sep, ToLe(rightId, 8)));
    var buf := new Byte[PAGE_SIZE](i requires 0 <= i < |page| => page[i]);
    var r := EncodeEntries(buf, entries, ParseHeader(page));
    out := buf[..];
  }

  lemma EncodableParent(node: Node, pos: nat, e: Entry)
    requires Encodable(EntryValueSize(node.header.pageType), node.entries)
    requires HasRoomForOneMore(node.header) && node.header.keyCount == |node.entries| && pos <= |node.entries|
    requires node.header.pageType == PAGE_TYPE_INTERNAL && |e.key| == KEY_SIZE && |e.value| == 8
    ensures Encodable(EntryValueSize(node.header.pageType), InsertedAt(node.entries, pos, e))
  {
    InsertedEncodable(node, pos, e);
  }
}
