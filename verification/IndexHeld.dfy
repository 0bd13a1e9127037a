/**
 * Secondary indexes as the engine drives them (src/embedded_compute.rs): each write is planned
 * against the bytes the tree holds for the row, and a deleted row keeps its bytes in a tombstone.
 * When such a commit keeps the indexes in agreement with the rows, exactly.
 */
module IndexHeld {
  import opened Bytes
  import opened Params
  import opened SecondaryIndex

  datatype Held = Held(value: Value, tombstone: bool)

  type Tree = map<Key, Held>

  /** The old value a write is planned against: whatever row the tree has. */
  function OldOf(tree: Tree, pk: Key): Option<Value> {
    if pk in tree then Some(tree[pk].value) else None
  }

  function HeldNext(tree: Tree, w: Write): Tree {
    match w.value
    case Some(v) => tree[w.pk := Held(v, false)]
    case None => if w.pk in tree then tree[w.pk := tree[w.pk].(tombstone := true)] else tree
  }

  function HeldAfter(tree: Tree, ws: seq<Write>): Tree {
    if ws == [] then tree else HeldNext(HeldAfter(tree, ws[..|ws| - 1]), ws[|ws| - 1])
  }

  ghost predicate TreeFits(tree: Tree) {
    forall p :: p in tree ==> |tree[p].value| == VALUE_SIZE
  }

  /** The live values are those of the rows that are not tombstones. */
  ghost predicate Agrees(tree: Tree, cur: map<Key, Option<Value>>) {
    forall p :: Live(cur, p) == if p in tree && !tree[p].tombstone then Some(tree[p].value) else None
  }

  lemma HeldNextOk(tree: Tree, cur: map<Key, Option<Value>>, w: Write)
    requires TreeFits(tree) && Agrees(tree, cur) && ValueFits(w.value)
    ensures TreeFits(HeldNext(tree, w)) && Agrees(HeldNext(tree, w), cur[w.pk := w.value])
  {
  }

  lemma {:induction false} HeldAfterOk(tree: Tree, cur: map<Key, Option<Value>>, ws: seq<Write>)
    requires TreeFits(tree) && Agrees(tree, cur) && WritesFit(ws)
    ensures TreeFits(HeldAfter(tree, ws)) && Agrees(HeldAfter(tree, ws), After(cur, ws))
  {
    hide TreeFits, Agrees, HeldNext;
    if ws != [] {
      HeldAfterOk(tree, cur, ws[..|ws| - 1]);
      HeldNextOk(HeldAfter(tree, ws[..|ws| - 1]), After(cur, ws[..|ws| - 1]), ws[|ws| - 1]);
    }
  }

  lemma OldFits(tree: Tree, pk: Key)
    requires TreeFits(tree)
    ensures ValueFits(OldOf(tree, pk))
  {
  }

  /** The mutations of a whole commit, as the engine plans them. */
  ghost function Planned(defs: Indexes, names: seq<Name>, tree: Tree, ws: seq<Write>): seq<Mutation>
    requires AllFit(defs) && Covers(names, defs) && TreeFits(tree) && WritesFit(ws)
  {
    if ws == [] then []
    else
      var (less, w) := (ws[..|ws| - 1], ws[|ws| - 1]);
      HeldFits(tree, less);
      OldFits(HeldAfter(tree, less), w.pk);
      Planned(defs, names, tree, less) + Plan(defs, names, w.pk, OldOf(HeldAfter(tree, less), w.pk), w.value)
  }

  lemma {:induction false} HeldFits(tree: Tree, ws: seq<Write>)
    requires TreeFits(tree) && WritesFit(ws)
    ensures TreeFits(HeldAfter(tree, ws))
  {
    if ws != [] {
      HeldFits(tree, ws[..|ws| - 1]);
    }
  }

  // ---- The rows an index misses ----

  /** Whether the index misses the row after one more write of the commit. */
  ghost predicate MissingNext(x: Index, tree: Tree, w: Write, p: Key, missing: bool)
    requires IndexFits(x) && TreeFits(tree) && ValueFits(w.value)
  {
    if w.pk != p then missing
    else
      && w.value.Some? && p in tree
      && (forall i :: x.offset <= i < x.offset + x.len ==> tree[p].value[i] == w.value.value[i])
      && (tree[p].tombstone || missing)
  }

  /**
   * The commit ends with row `p` written back over its tombstone with the tombstone's indexed
   * slice, and no write after that changed the slice.
   */
  ghost predicate Missing(x: Index, tree: Tree, ws: seq<Write>, p: Key)
    requires IndexFits(x) && TreeFits(tree) && WritesFit(ws)
  {
    if ws == [] then false
    else
      HeldFits(tree, ws[..|ws| - 1]);
      MissingNext(x, HeldAfter(tree, ws[..|ws| - 1]), ws[|ws| - 1], p, Missing(x, tree, ws[..|ws| - 1], p))
  }

  /** A posting history that is right, except that from `c` on it has nothing for a missing row. */
  ghost predicate PostingBut(x: Index, c: nat, rows: Rows, cur: map<Key, Option<Value>>, s: seq<Byte>, p: Key,
                             missing: bool)
  {
    var h := History(x.postings, s, p);
    && Ascending(h) && (forall i :: 0 <= i < |h| ==> h[i].lsn <= c)
    && (forall r: nat :: r < c ==> (MemberAt(h, r) <==> Matches(x, RowAt(RowsOf(rows, p), r), s)))
    && (forall r: nat :: r >= c ==> (MemberAt(h, r) <==> !missing && Matches(x, Live(cur, p), s)))
  }

  lemma SameSlice(x: Index, v: Value, w: Value)
    requires IndexFits(x) && |v| == VALUE_SIZE && |w| == VALUE_SIZE
    ensures SliceOf(x, Some(v)) == SliceOf(x, Some(w)) <==>
              forall i :: x.offset <= i < x.offset + x.len ==> v[i] == w[i]
  {
    var (a, b) := (v[x.offset..x.offset + x.len], w[x.offset..x.offset + x.len]);
    if a == b {
      forall i | x.offset <= i < x.offset + x.len ensures v[i] == w[i] {
        assert v[i] == a[i - x.offset] && w[i] == b[i - x.offset];
      }
    }
  }

  lemma StepLeavesPosting(x: Index, c: nat, rows: Rows, cur: map<Key, Option<Value>>, tree: Tree, w: Write,
                          s: seq<Byte>, p: Key, missing: bool)
    requires IndexFits(x) && TreeFits(tree) && Agrees(tree, cur) && ValueFits(w.value)
    requires PostingBut(x, c, rows, cur, s, p, missing)
    ensures ValueFits(OldOf(tree, w.pk))
    ensures PostingBut(RowStep(x, c, w.pk, OldOf(tree, w.pk), w.value), c, rows, cur[w.pk := w.value], s, p,
                       MissingNext(x, tree, w, p, missing))
  {
    hide RowStep, MemberAt, Extended, History, RowAt, SliceOf, Matches;
    var was := OldOf(tree, w.pk);
    SliceMatches(x, was, s);
    SliceMatches(x, w.value, s);
    SliceMatches(x, None, s);
    if was.Some? && w.value.Some? {
      SameSlice(x, was.value, w.value.value);
    }
    var (x2, h) := (RowStep(x, c, w.pk, was, w.value), History(x.postings, s, p));
    HistoryAfterRow(x, c, w.pk, was, w.value, s, p);
    StepKeepsDef(x, c, w.pk, was, w.value);
    SameMatches(x2, x, s);
    var present := SliceOf(x, w.value) == Some(s);
    forall r: nat ensures MemberAt(Extended(h, c, present), r) == if r >= c then present else MemberAt(h, r) {
      ExtendedReads(h, c, present, r);
    }
    ExtendedReads(h, c, present, c);
  }

  ghost predicate IndexBut(x: Index, def: Index, c: nat, rows: Rows, cur: map<Key, Option<Value>>, tree: Tree,
                           ws: seq<Write>)
    requires IndexFits(def) && TreeFits(tree) && WritesFit(ws)
  {
    forall s, p :: PostingBut(x, c, rows, cur, s, p, Missing(def, tree, ws, p))
  }

  /** After the writes `ws`, planned against the tree: each index is right but for the rows it misses. */
  ghost predicate RightBut(ix: Indexes, defs: Indexes, c: nat, rows: Rows, cur: map<Key, Option<Value>>, tree: Tree,
                           ws: seq<Write>)
    requires AllFit(defs) && TreeFits(tree) && WritesFit(ws)
  {
    && SameDefs(ix, defs)
    && forall n :: n in ix ==> IndexBut(ix[n], defs[n], c, rows, cur, tree, ws)
  }

  lemma SameMissing(x: Index, y: Index, tree: Tree, w: Write, p: Key, missing: bool)
    requires x.offset == y.offset && x.len == y.len && IndexFits(x) && TreeFits(tree) && ValueFits(w.value)
    ensures MissingNext(x, tree, w, p, missing) == MissingNext(y, tree, w, p, missing)
  {
  }

  lemma {:induction false} StepLeavesIndex(x: Index, def: Index, c: nat, rows: Rows, cur0: map<Key, Option<Value>>,
                                           tree: Tree,
                                           ws: seq<Write>)
    requires IndexFits(def) && x.offset == def.offset && x.len == def.len && WritesFit(ws) && ws != []
    requires TreeFits(tree) && Agrees(tree, cur0)
    requires IndexBut(x, def, c, rows, After(cur0, ws[..|ws| - 1]), tree, ws[..|ws| - 1])
    ensures var (held, w) := (HeldAfter(tree, ws[..|ws| - 1]), ws[|ws| - 1]);
            && TreeFits(held) && ValueFits(OldOf(held, w.pk))
            && IndexBut(RowStep(x, c, w.pk, OldOf(held, w.pk), w.value), def, c, rows, After(cur0, ws), tree, ws)
  {
    hide RowStep, PostingBut, HeldAfter, MissingNext, TreeFits, Agrees;
    var (less, w) := (ws[..|ws| - 1], ws[|ws| - 1]);
    HeldAfterOk(tree, cur0, less);
    var (held, cur) := (HeldAfter(tree, less), After(cur0, less));
    OldFits(held, w.pk);
    var x2 := RowStep(x, c, w.pk, OldOf(held, w.pk), w.value);
    var cur2 := cur[w.pk := w.value];
    forall s, p ensures PostingBut(x2, c, rows, cur2, s, p, Missing(def, tree, ws, p)) {
      assert PostingBut(x, c, rows, cur, s, p, Missing(def, tree, less, p));
      StepLeavesPosting(x, c, rows, cur, held, w, s, p, Missing(def, tree, less, p));
      SameMissing(x, def, held, w, p, Missing(def, tree, less, p));
    }
  }

  lemma StepLeaves(ix: Indexes, defs: Indexes, c: nat, names: seq<Name>, rows: Rows, cur0: map<Key, Option<Value>>,
                   tree: Tree, ws: seq<Write>)
    requires AllFit(defs) && Covers(names, defs) && TreeFits(tree) && Agrees(tree, cur0) && WritesFit(ws) && ws != []
    requires RightBut(ix, defs, c, rows, After(cur0, ws[..|ws| - 1]), tree, ws[..|ws| - 1])
    ensures var (less, w) := (ws[..|ws| - 1], ws[|ws| - 1]);
            && TreeFits(HeldAfter(tree, less)) && ValueFits(OldOf(HeldAfter(tree, less), w.pk))
            && (forall n :: n in names ==> n in defs && IndexFits(defs[n]))
            && RightBut(ApplyAll(ix, c, Plan(defs, names, w.pk, OldOf(HeldAfter(tree, less), w.pk), w.value)), defs, c,
                        rows, After(cur0, ws), tree, ws)
  {
    hide RowStep, IndexBut, Plan, ApplyAll, HeldAfter, TreeFits, Agrees, After;
    var (less, w) := (ws[..|ws| - 1], ws[|ws| - 1]);
    HeldFits(tree, less);
    var was := OldOf(HeldAfter(tree, less), w.pk);
    OldFits(HeldAfter(tree, less), w.pk);
    ApplyPlan(ix, defs, c, names, w.pk, was, w.value);
    forall n | n in ix
      ensures IndexBut(RowStep(ix[n], c, w.pk, was, w.value), defs[n], c, rows, After(cur0, ws), tree, ws)
      ensures var x2 := RowStep(ix[n], c, w.pk, was, w.value); x2.offset == ix[n].offset && x2.len == ix[n].len
    {
      StepLeavesIndex(ix[n], defs[n], c, rows, cur0, tree, ws);
      StepKeepsDef(ix[n], c, w.pk, was, w.value);
    }
  }

  lemma {:induction false} CommitLeaves(ix: Indexes, c: nat, names: seq<Name>, rows: Rows, cur: map<Key, Option<Value>>,
                                        tree: Tree, ws: seq<Write>)
    requires Good(ix, c, rows, cur) && AllFit(ix) && Covers(names, ix)
    requires TreeFits(tree) && Agrees(tree, cur) && WritesFit(ws)
    ensures RightBut(ApplyAll(ix, c, Planned(ix, names, tree, ws)), ix, c, rows, After(cur, ws), tree, ws)
  {
    hide Plan, IndexBut, HeldAfter, Covers, TreeFits, Agrees;
    if ws == [] {
      GoodIsRight(ix, c, rows, cur, tree);
    } else {
      var (less, w) := (ws[..|ws| - 1], ws[|ws| - 1]);
      CommitLeaves(ix, c, names, rows, cur, tree, less);
      var mid := ApplyAll(ix, c, Planned(ix, names, tree, less));
      StepLeaves(mid, ix, c, names, rows, cur, tree, ws);
      ApplyConcat(ix, c, Planned(ix, names, tree, less),
                  Plan(ix, names, w.pk, OldOf(HeldAfter(tree, less), w.pk), w.value));
    }
  }

  lemma GoodIsRight(ix: Indexes, c: nat, rows: Rows, cur: map<Key, Option<Value>>, tree: Tree)
    requires Good(ix, c, rows, cur) && AllFit(ix) && TreeFits(tree)
    ensures RightBut(ix, ix, c, rows, cur, tree, [])
  {
    hide MemberAt, Matches, RowAt, History;
    forall n | n in ix ensures IndexBut(ix[n], ix[n], c, rows, cur, tree, []) {
      forall s, p ensures PostingBut(ix[n], c, rows, cur, s, p, Missing(ix[n], tree, [], p)) {
        assert IndexOk(ix[n], c, rows, cur);
        assert PostingOk(ix[n], c, rows, cur, s, p);
      }
    }
  }

  // ---- The indexes a commit touches ----

  ghost predicate Changes(x: Index, was: Option<Value>, now: Option<Value>)
    requires IndexFits(x) && ValueFits(was) && ValueFits(now)
  {
    && (was.Some? || now.Some?)
    && (was.Some? && now.Some? ==> exists i :: x.offset <= i < x.offset + x.len && was.value[i] != now.value[i])
  }

  /** Some write of the commit changes the bytes the index covers, as the tree then holds them. */
  ghost predicate SliceTouched(x: Index, tree: Tree, ws: seq<Write>)
    requires IndexFits(x) && TreeFits(tree) && WritesFit(ws)
  {
    ws != [] &&
    var (less, w) := (ws[..|ws| - 1], ws[|ws| - 1]);
    HeldFits(tree, less);
    OldFits(HeldAfter(tree, less), w.pk);
    SliceTouched(x, tree, less) || Changes(x, OldOf(HeldAfter(tree, less), w.pk), w.value)
  }

  lemma ChangesSlice(x: Index, was: Option<Value>, now: Option<Value>)
    requires IndexFits(x) && ValueFits(was) && ValueFits(now)
    ensures Changes(x, was, now) <==> SliceOf(x, was) != SliceOf(x, now)
  {
    if was.Some? && now.Some? {
      SameSlice(x, was.value, now.value);
    }
  }

  ghost predicate Names(ms: seq<Mutation>, n: Name) {
    exists m :: m in ms && m.index == n
  }

  lemma NamesConcat(a: seq<Mutation>, b: seq<Mutation>, n: Name)
    ensures Names(a + b, n) <==> Names(a, n) || Names(b, n)
  {
    assert forall m :: m in a + b <==> m in a || m in b;
  }

  lemma PlanOneNames(name: Name, x: Index, pk: Key, was: Option<Value>, now: Option<Value>, n: Name)
    requires IndexFits(x) && ValueFits(was) && ValueFits(now)
    ensures Names(PlanOne(name, x, pk, was, now), n) <==> n == name && Changes(x, was, now)
  {
    hide SliceOf, Changes;
    ChangesSlice(x, was, now);
    var ms := PlanOne(name, x, pk, was, now);
    assert ms != [] ==> ms[0] in ms;
  }

  lemma {:induction false} PlanNames(ix: Indexes, names: seq<Name>, pk: Key, was: Option<Value>, now: Option<Value>,
                                     n: Name)
    requires (forall k :: k in names ==> k in ix && IndexFits(ix[k])) && ValueFits(was) && ValueFits(now)
    ensures Names(Plan(ix, names, pk, was, now), n) <==> n in names && Changes(ix[n], was, now)
  {
    hide PlanOne, Changes, Names;
    if names == [] {
      NoNames(n);
    } else {
      var (less, k) := (names[..|names| - 1], names[|names| - 1]);
      PlanNames(ix, less, pk, was, now, n);
      PlanOneNames(k, ix[k], pk, was, now, n);
      NamesConcat(Plan(ix, less, pk, was, now), PlanOne(k, ix[k], pk, was, now), n);
      assert n in names <==> n in less || n == k;
    }
  }

  lemma NoNames(n: Name)
    ensures !Names([], n)
  {
  }

  /** A commit plans a mutation of an index exactly when it touches it. */
  lemma {:induction false} PlannedNames(defs: Indexes, names: seq<Name>, tree: Tree, ws: seq<Write>, n: Name)
    requires AllFit(defs) && Covers(names, defs) && TreeFits(tree) && WritesFit(ws)
    ensures Names(Planned(defs, names, tree, ws), n) <==> n in defs && SliceTouched(defs[n], tree, ws)
  {
    hide Plan, Changes, Names, HeldAfter, TreeFits;
    if ws == [] {
      NoNames(n);
    } else {
      var (less, w) := (ws[..|ws| - 1], ws[|ws| - 1]);
      PlannedNames(defs, names, tree, less, n);
      HeldFits(tree, less);
      var was := OldOf(HeldAfter(tree, less), w.pk);
      OldFits(HeldAfter(tree, less), w.pk);
      PlanNames(defs, names, w.pk, was, w.value, n);
      NamesConcat(Planned(defs, names, tree, less), Plan(defs, names, w.pk, was, w.value), n);
    }
  }

  // ---- Exactly ----

  ghost predicate NoneMissing(defs: Indexes, tree: Tree, ws: seq<Write>)
    requires AllFit(defs) && TreeFits(tree) && WritesFit(ws)
  {
    forall n, p :: n in defs ==> !Missing(defs[n], tree, ws, p)
  }

  lemma {:induction false} MissingIsLive(x: Index, tree: Tree, ws: seq<Write>, p: Key)
    requires IndexFits(x) && TreeFits(tree) && WritesFit(ws) && Missing(x, tree, ws, p)
    ensures var t := HeldAfter(tree, ws); p in t && !t[p].tombstone
  {
    hide TreeFits;
    HeldFits(tree, ws[..|ws| - 1]);
    if ws[|ws| - 1].pk != p {
      MissingIsLive(x, tree, ws[..|ws| - 1], p);
    }
  }

  lemma {:induction false} NoneGood(ix: Indexes, c: nat, names: seq<Name>, rows: Rows, cur: map<Key, Option<Value>>,
                                    tree: Tree,
                                    ws: seq<Write>)
    requires Good(ix, c, rows, cur) && AllFit(ix) && Covers(names, ix)
    requires TreeFits(tree) && Agrees(tree, cur) && WritesFit(ws) && NoneMissing(ix, tree, ws)
    ensures Good(ApplyAll(ix, c, Planned(ix, names, tree, ws)), c, rows, After(cur, ws))
  {
    hide Planned, ApplyAll, Missing, Agrees, TreeFits, After, Covers, IndexOk, IndexBut;
    CommitLeaves(ix, c, names, rows, cur, tree, ws);
    AfterFits(cur, ws);
    var ix2 := ApplyAll(ix, c, Planned(ix, names, tree, ws));
    forall n | n in ix2 ensures IndexOk(ix2[n], c, rows, After(cur, ws)) {
      AllThere(ix2[n], ix[n], c, rows, After(cur, ws), tree, ws);
    }
  }

  lemma {:induction false} OneBad(ix: Indexes, c: nat, c2: nat, names: seq<Name>, rows: Rows, rows2: Rows,
                                  cur: map<Key, Option<Value>>,
                                  tree: Tree, ws: seq<Write>)
    requires Good(ix, c, rows, cur) && AllFit(ix) && Covers(names, ix) && c <= c2
    requires TreeFits(tree) && Agrees(tree, cur) && WritesFit(ws) && !NoneMissing(ix, tree, ws)
    ensures !Good(ApplyAll(ix, c, Planned(ix, names, tree, ws)), c2, rows2, After(cur, ws))
  {
    hide Planned, ApplyAll, Missing, Agrees, TreeFits, After, HeldAfter, Covers, IndexOk, IndexBut;
    CommitLeaves(ix, c, names, rows, cur, tree, ws);
    var ix2 := ApplyAll(ix, c, Planned(ix, names, tree, ws));
    var n, p :| n in ix && Missing(ix[n], tree, ws, p);
    HeldAfterOk(tree, cur, ws);
    MissingIsLive(ix[n], tree, ws, p);
    OneGone(ix2[n], ix[n], c, c2, rows, rows2, After(cur, ws), tree, ws, p);
  }

  lemma {:induction false} AllThere(x: Index, def: Index, c: nat, rows: Rows, cur: map<Key, Option<Value>>,
                                    tree: Tree, ws: seq<Write>)
    requires IndexFits(def) && x.offset == def.offset && x.len == def.len && TreeFits(tree) && WritesFit(ws)
    requires IndexBut(x, def, c, rows, cur, tree, ws) && forall p :: !Missing(def, tree, ws, p)
    ensures IndexOk(x, c, rows, cur)
  {
    hide MemberAt, Matches, RowAt, History, Missing;
    forall s, p ensures PostingOk(x, c, rows, cur, s, p) {
      assert PostingBut(x, c, rows, cur, s, p, Missing(def, tree, ws, p));
    }
  }

  lemma {:induction false} OneGone(x: Index, def: Index, c: nat, c2: nat, rows: Rows, rows2: Rows,
                                   cur: map<Key, Option<Value>>,
                                   tree: Tree, ws: seq<Write>, p: Key)
    requires IndexFits(def) && x.offset == def.offset && x.len == def.len && TreeFits(tree) && WritesFit(ws)
    requires TreeFits(HeldAfter(tree, ws)) && Agrees(HeldAfter(tree, ws), cur)
    requires p in HeldAfter(tree, ws) && !HeldAfter(tree, ws)[p].tombstone
    requires IndexBut(x, def, c, rows, cur, tree, ws) && Missing(def, tree, ws, p) && c <= c2
    ensures !IndexOk(x, c2, rows2, cur)
  {
    hide MemberAt, RowAt, History, Missing, HeldAfter;
    var s := SliceOf(x, Some(HeldAfter(tree, ws)[p].value)).value;
    SliceMatches(x, Live(cur, p), s);
    assert PostingBut(x, c, rows, cur, s, p, Missing(def, tree, ws, p));
    assert !MemberAt(History(x.postings, s, p), c2) && Matches(x, Live(cur, p), s);
    assert !PostingOk(x, c2, rows2, cur, s, p);
  }
}
