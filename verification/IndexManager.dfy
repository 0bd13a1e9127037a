/** The secondary index manager as executed, beside the committed rows it indexes. */
module IndexManager {
  import opened Bytes
  import opened Params
  import opened KeyOrder
  import opened SecondaryIndex
  import opened IndexHeld

  datatype Error = EmptyName | OutOfBounds | AlreadyExists | NotFound

  ghost predicate PksFit(ix: Indexes) {
    forall n, s, p :: n in ix && s in ix[n].postings && p in ix[n].postings[s] ==> |p| == KEY_SIZE
  }

  lemma IndexLater(x: Index, c: nat, c2: nat, rows: Rows, cur: map<Key, Option<Value>>)
    requires IndexOk(x, c, rows, cur) && c <= c2 && RowsBefore(rows, c) && Latest(rows, cur)
    ensures IndexOk(x, c2, rows, cur)
  {
    hide MemberAt, Matches;
    forall s, p ensures PostingOk(x, c2, rows, cur, s, p) {
      assert PostingOk(x, c, rows, cur, s, p);
      forall r: nat | r >= c ensures RowAt(RowsOf(rows, p), r) == Live(cur, p) {
        var h := RowsOf(rows, p);
        assert h != [] ==> h[|h| - 1].lsn < c;
      }
    }
  }

  lemma GoodLater(ix: Indexes, c: nat, c2: nat, rows: Rows, cur: map<Key, Option<Value>>)
    requires Good(ix, c, rows, cur) && c <= c2 && RowsBefore(rows, c) && Latest(rows, cur)
    ensures Good(ix, c2, rows, cur) && RowsBefore(rows, c2)
  {
    hide IndexOk, Latest;
    forall n | n in ix ensures IndexOk(ix[n], c2, rows, cur) {
      IndexLater(ix[n], c, c2, rows, cur);
    }
  }

  lemma {:induction false} GoodNext(ix: Indexes, c: nat, rows: Rows, cur: map<Key, Option<Value>>, ws: seq<Write>)
    requires Good(ix, c, rows, After(cur, ws)) && RowsBefore(rows, c) && Latest(rows, cur)
    ensures Good(ix, c + 1, Committed(rows, cur, c, ws), After(cur, ws))
  {
    hide IndexOk, Latest, After, Committed;
    var c2 := c + 1;
    forall n | n in ix ensures IndexOk(ix[n], c2, Committed(rows, cur, c, ws), After(cur, ws)) {
      IndexNext(ix[n], c, c2, rows, cur, ws);
    }
  }

  /**
   * A commit as the engine plans it leaves every index in agreement with the committed rows if and
   * only if it does not end with a row written back over its tombstone with the indexed slice the
   * tombstone has.
   */
  lemma {:induction false} CommitGoodExactly(ix: Indexes, c: nat, names: seq<Name>, rows: Rows,
                                             cur: map<Key, Option<Value>>, tree: Tree,
                                             ws: seq<Write>)
    requires Good(ix, c, rows, cur) && AllFit(ix) && Covers(names, ix) && RowsBefore(rows, c) && Latest(rows, cur)
    requires TreeFits(tree) && Agrees(tree, cur) && WritesFit(ws)
    ensures Good(ApplyAll(ix, c, Planned(ix, names, tree, ws)), c + 1, Committed(rows, cur, c, ws), After(cur, ws))
            <==> NoneMissing(ix, tree, ws)
  {
    hide Good, Planned, ApplyAll, NoneMissing, Agrees, TreeFits, After, Covers, Latest, RowsBefore, Committed;
    if NoneMissing(ix, tree, ws) {
      NoneGood(ix, c, names, rows, cur, tree, ws);
      GoodNext(ApplyAll(ix, c, Planned(ix, names, tree, ws)), c, rows, cur, ws);
    } else {
      OneBad(ix, c, c + 1, names, rows, Committed(rows, cur, c, ws), cur, tree, ws);
    }
  }

  lemma FreshIndex(x: Index, c: nat)
    requires IndexFits(x) && x.postings == map[]
    ensures IndexOk(x, c, map[], map[])
  {
    forall s, p ensures PostingOk(x, c, map[], map[], s, p) {
      assert RowsOf(map[], p) == [];
    }
  }

  lemma {:induction false} PlanPks(ix: Indexes, names: seq<Name>, pk: Key, was: Option<Value>, now: Option<Value>)
    requires (forall n :: n in names ==> n in ix && IndexFits(ix[n])) && ValueFits(was) && ValueFits(now)
    ensures forall i :: 0 <= i < |Plan(ix, names, pk, was, now)| ==> Plan(ix, names, pk, was, now)[i].pk == pk
  {
    if names != [] {
      PlanPks(ix, names[..|names| - 1], pk, was, now);
    }
  }

  lemma {:induction false} ApplyPks(ix: Indexes, c: nat, ms: seq<Mutation>)
    requires PksFit(ix) && forall i :: 0 <= i < |ms| ==> |ms[i].pk| == KEY_SIZE
    ensures PksFit(ApplyAll(ix, c, ms))
  {
    if ms != [] {
      ApplyPks(ix, c, ms[..|ms| - 1]);
      ApplyOnePks(ApplyAll(ix, c, ms[..|ms| - 1]), c, ms[|ms| - 1]);
    }
  }

  lemma ApplyOnePks(ix: Indexes, c: nat, m: Mutation)
    requires PksFit(ix) && |m.pk| == KEY_SIZE
    ensures PksFit(ApplyOne(ix, c, m))
  {
    hide Extended;
  }

  // ---- Queries ----

  ghost predicate IsMember(x: Index, rows: Rows, s: seq<Byte>, r: nat, p: Key) {
    Matches(x, RowAt(RowsOf(rows, p), r), s)
  }

  ghost predicate Answers(out: seq<Key>, x: Index, rows: Rows, s: seq<Byte>, r: nat, limit: nat) {
    && |out| <= limit
    && (forall i, j :: 0 <= i < j < |out| ==> Num(out[i]) < Num(out[j]))
    && (forall i :: 0 <= i < |out| ==> IsMember(x, rows, s, r, out[i]))
    && (forall p :: IsMember(x, rows, s, r, p) ==> Listed(out, limit, p))
  }

  /** `out` lists the keys whose posting history has them as members at `r`, as `Answers` does for the rows. */
  ghost predicate Posted(out: seq<Key>, x: Index, s: seq<Byte>, r: nat, limit: nat) {
    && |out| <= limit
    && (forall i, j :: 0 <= i < j < |out| ==> Num(out[i]) < Num(out[j]))
    && (forall i :: 0 <= i < |out| ==> MemberAt(History(x.postings, s, out[i]), r))
    && (forall p :: MemberAt(History(x.postings, s, p), r) ==> Listed(out, limit, p))
  }

  lemma {:induction false} TakenPosted(out: seq<Key>, x: Index, s: seq<Byte>, r: nat, limit: nat,
                                       byPk: map<Key, seq<Posting>>)
    requires byPk == if s in x.postings then x.postings[s] else map[]
    requires |out| <= limit && forall i, j :: 0 <= i < j < |out| ==> Num(out[i]) < Num(out[j])
    requires forall i :: 0 <= i < |out| ==> out[i] in byPk && MemberAt(byPk[out[i]], r)
    requires forall p :: p in byPk && MemberAt(byPk[p], r) ==> Listed(out, limit, p)
    ensures Posted(out, x, s, r, limit)
  {
    hide Num, Listed;
    forall p | MemberAt(History(x.postings, s, p), r) ensures Listed(out, limit, p) {
      assert p in byPk && byPk[p] == History(x.postings, s, p);
    }
  }

  lemma {:induction false} PostedAnswers(out: seq<Key>, x: Index, rows: Rows, s: seq<Byte>, r: nat, limit: nat)
    requires Posted(out, x, s, r, limit)
    requires forall p :: MemberAt(History(x.postings, s, p), r) <==> IsMember(x, rows, s, r, p)
    ensures Answers(out, x, rows, s, r, limit)
  {
    hide Num, Listed, MemberAt, History, IsMember;
  }

  // ---- Histories of any commits ----

  ghost predicate HistoryBounded(h: seq<Posting>, c: nat) {
    Ascending(h) && forall i :: 0 <= i < |h| ==> h[i].lsn <= c
  }

  ghost predicate IndexBounded(x: Index, c: nat) {
    forall s, p :: HistoryBounded(History(x.postings, s, p), c)
  }

  /** Every posting history is ascending and ends by `c`. */
  ghost predicate Bounded(ix: Indexes, c: nat) {
    forall n :: n in ix ==> IndexBounded(ix[n], c)
  }

  lemma FreshBounded(ix: Indexes, c: nat, n: Name, x: Index)
    requires Bounded(ix, c) && x.postings == map[]
    ensures Bounded(ix[n := x], c)
  {
    hide Ascending;
    forall s, p ensures HistoryBounded(History(x.postings, s, p), c) {
      NoPostings(c);
    }
  }

  lemma NoPostings(c: nat)
    ensures HistoryBounded([], c)
  {
  }

  lemma GoodBounded(ix: Indexes, c: nat, rows: Rows, cur: map<Key, Option<Value>>)
    requires Good(ix, c, rows, cur)
    ensures Bounded(ix, c)
  {
    hide MemberAt, Matches, RowAt, History;
    forall n | n in ix ensures IndexBounded(ix[n], c) {
      assert IndexOk(ix[n], c, rows, cur);
      forall s, p ensures HistoryBounded(History(ix[n].postings, s, p), c) {
        assert PostingOk(ix[n], c, rows, cur, s, p);
      }
    }
  }

  lemma BoundedLater(ix: Indexes, c: nat, c2: nat)
    requires Bounded(ix, c) && c <= c2
    ensures Bounded(ix, c2)
  {
    hide Ascending, History;
    forall n | n in ix ensures IndexBounded(ix[n], c2) {
      assert IndexBounded(ix[n], c);
      forall s, p ensures HistoryBounded(History(ix[n].postings, s, p), c2) {
        assert HistoryBounded(History(ix[n].postings, s, p), c);
      }
    }
  }

  lemma PostingBounded(x: Index, c: nat, s: seq<Byte>, p: Key, present: bool)
    requires IndexBounded(x, c)
    ensures IndexBounded(SetPosting(x, c, s, p, present), c)
  {
    hide Extended, Ascending, MemberAt;
    var x2 := SetPosting(x, c, s, p, present);
    forall s2, p2 ensures HistoryBounded(History(x2.postings, s2, p2), c) {
      assert HistoryBounded(History(x.postings, s2, p2), c);
      if s2 == s && p2 == p {
        ExtendedReads(History(x.postings, s, p), c, present, c);
      }
    }
  }

  lemma {:induction false} ApplyBounded(ix: Indexes, c: nat, ms: seq<Mutation>)
    requires Bounded(ix, c)
    ensures Bounded(ApplyAll(ix, c, ms), c) && SameDefs(ApplyAll(ix, c, ms), ix)
  {
    hide IndexBounded;
    if ms != [] {
      var (less, m) := (ms[..|ms| - 1], ms[|ms| - 1]);
      ApplyBounded(ix, c, less);
      var mid := ApplyAll(ix, c, less);
      if m.index in mid {
        PostingBounded(mid[m.index], c, m.skey, m.pk, m.present);
      }
    }
  }

  // In the answer, or past the end of an answer cut off at the limit.
  ghost predicate Listed(out: seq<Key>, limit: nat, p: Key) {
    p in out || (|out| == limit && forall i :: 0 <= i < |out| ==> Num(out[i]) < Num(p))
  }

  /** The partition point of an ascending history, by binary search, decides membership. */
  method VisibleMembership(h: seq<Posting>, r: nat) returns (present: bool)
    requires Ascending(h)
    ensures present == MemberAt(h, r)
    ensures present <==> exists i :: 0 <= i < |h| && h[i].lsn <= r && h[i].present
                                     && forall j :: i < j < |h| ==> h[j].lsn > r
  {
    if h == [] {
      return false;
    }
    var lo, hi := 0, |h|;
    while lo < hi
      invariant lo <= hi <= |h|
      invariant forall i :: 0 <= i < lo ==> h[i].lsn <= r
      invariant forall i :: hi <= i < |h| ==> h[i].lsn > r
    {
      var mid := (lo + hi) / 2;
      if h[mid].lsn <= r {
        lo := mid + 1;
      } else {
        hi := mid;
      }
    }
    Partition(h, r, lo);
    present := lo > 0 && h[lo - 1].present;
  }

  lemma {:induction false} Partition(h: seq<Posting>, r: nat, k: nat)
    requires k <= |h| && (forall i :: 0 <= i < k ==> h[i].lsn <= r) && (forall i :: k <= i < |h| ==> h[i].lsn > r)
    ensures MemberAt(h, r) == (k > 0 && h[k - 1].present)
    decreases |h|
  {
    if |h| > k {
      Partition(h[..|h| - 1], r, k);
    }
  }

  /** Visits the keys of one posting list in ascending order until enough are visible. */
  method TakeVisible(byPk: map<Key, seq<Posting>>, r: nat, limit: nat) returns (out: seq<Key>)
    requires forall p :: p in byPk ==> |p| == KEY_SIZE && Ascending(byPk[p])
    ensures |out| <= limit && forall i, j :: 0 <= i < j < |out| ==> Num(out[i]) < Num(out[j])
    ensures forall i :: 0 <= i < |out| ==> out[i] in byPk && MemberAt(byPk[out[i]], r)
    ensures forall p :: p in byPk && MemberAt(byPk[p], r) ==> Listed(out, limit, p)
  {
    hide Num, MemberAt, Ascending, InOrder, Below;
    out := [];
    var left := byPk.Keys;
    NothingTaken(left);
    while left != {} && |out| < limit
      invariant |out| <= limit && left <= byPk.Keys && InOrder(out) && Below(out, left)
      invariant forall i :: 0 <= i < |out| ==> out[i] in byPk && MemberAt(byPk[out[i]], r)
      invariant forall p :: p in byPk && p !in left && MemberAt(byPk[p], r) ==> p in out
      decreases left
    {
      var p := Smallest(left);
      TakeSmallest(out, left, p);
      var present := VisibleMembership(byPk[p], r);
      if present {
        ghost var before := out;
        out := out + [p];
        assert out[|before|] == p && forall y :: y in before ==> y in out;
      }
      left := left - {p};
    }
    TakenInOrder(out, left);
  }

  ghost predicate InOrder(out: seq<Key>) {
    forall i, j :: 0 <= i < j < |out| ==> Num(out[i]) < Num(out[j])
  }

  ghost predicate Below(out: seq<Key>, left: set<Key>) {
    forall i, p :: 0 <= i < |out| && p in left ==> Num(out[i]) < Num(p)
  }

  lemma NothingTaken(left: set<Key>)
    ensures InOrder([]) && Below([], left)
  {
  }

  lemma TakenInOrder(out: seq<Key>, left: set<Key>)
    requires InOrder(out) && Below(out, left)
    ensures forall i, j :: 0 <= i < j < |out| ==> Num(out[i]) < Num(out[j])
    ensures forall i, p :: 0 <= i < |out| && p in left ==> Num(out[i]) < Num(p)
  {
  }

  lemma {:induction false} TakeSmallest(out: seq<Key>, left: set<Key>, p: Key)
    requires InOrder(out) && Below(out, left) && p in left
    requires forall j :: j in left ==> Num(p) <= Num(j) && |j| == KEY_SIZE
    ensures Below(out, left - {p}) && InOrder(out + [p]) && Below(out + [p], left - {p})
  {
    hide Num;
    forall j | j in left && j != p ensures Num(p) < Num(j) {
      LexIsNumeric(j, p);
    }
  }

  class SecondaryIndexManager {
    var indexes: Indexes
    ghost var rows: Rows
    ghost var cur: map<Key, Option<Value>>
    ghost var next: nat

    /** What holds of any commits, whatever old values they were planned against. */
    ghost predicate Tracked()
      reads this
    {
      && AllFit(indexes) && PksFit(indexes) && Bounded(indexes, next)
      && CurFits(cur) && Latest(rows, cur) && RowsBefore(rows, next)
    }

    /** Every index agrees with the committed rows at every LSN. */
    ghost predicate Valid()
      reads this
    {
      Tracked() && Good(indexes, next, rows, cur)
    }

    constructor ()
      ensures Valid() && indexes == map[] && rows == map[] && cur == map[] && next == 0
    {
      indexes, rows, cur, next := map[], map[], map[], 0;
    }

    method CreateIndex(name: Name, offset: nat, len: nat) returns (e: Option<Error>)
      requires Valid() && rows == map[] && cur == map[]
      modifies `indexes
      ensures Valid()
      ensures e == None <==> name != [] && len > 0 && offset + len <= VALUE_SIZE && name !in old(indexes)
      ensures indexes == if e == None then old(indexes)[name := Index(offset, len, map[])] else old(indexes)
    {
      hide IndexOk, Latest, PostingOk, Bounded;
      if name == [] {
        return Some(EmptyName);
      }
      if len == 0 || offset >= VALUE_SIZE || offset + len > VALUE_SIZE {
        return Some(OutOfBounds);
      }
      if name in indexes {
        return Some(AlreadyExists);
      }
      FreshIndex(Index(offset, len, map[]), next);
      FreshBounded(indexes, next, name, Index(offset, len, map[]));
      indexes := indexes[name := Index(offset, len, map[])];
      e := None;
    }

    method ListNames() returns (names: seq<Name>)
      ensures Covers(names, indexes)
    {
      var todo := indexes.Keys;
      names := [];
      while todo != {}
        invariant todo <= indexes.Keys && DistinctNames(names)
        invariant forall n :: n in names <==> n in indexes && n !in todo
      {
        var n :| n in todo;
        names := names + [n];
        todo := todo - {n};
      }
    }

    method PlanMutations(names: seq<Name>, pk: Key, was: Option<Value>, now: Option<Value>) returns (ms: seq<Mutation>)
      requires AllFit(indexes) && Covers(names, indexes) && ValueFits(was) && ValueFits(now)
      ensures ms == Plan(indexes, names, pk, was, now)
      ensures forall m :: m in ms <==>
                && m.index in indexes && m.pk == pk
                && Matches(indexes[m.index], if m.present then now else was, m.skey)
                && !Matches(indexes[m.index], if m.present then was else now, m.skey)
    {
      hide PlanOne, Matches;
      ms := [];
      var i := 0;
      assert names[..0] == [];
      while i < |names|
        invariant i <= |names| && ms == Plan(indexes, names[..i], pk, was, now)
      {
        assert names[..i + 1][..i] == names[..i];
        ms := ms + PlanOne(names[i], indexes[names[i]], pk, was, now);
        i := i + 1;
      }
      assert names[..i] == names;
      forall m
        ensures m in ms <==>
                  && m.index in indexes && m.pk == pk
                  && Matches(indexes[m.index], if m.present then now else was, m.skey)
                  && !Matches(indexes[m.index], if m.present then was else now, m.skey)
      {
        PlanExactly(indexes, names, pk, was, now, m);
      }
    }

    method ApplyCommit(c: nat, ms: seq<Mutation>)
      modifies `indexes
      ensures indexes == ApplyAll(old(indexes), c, ms)
    {
      hide ApplyOne;
      var i := 0;
      assert ms[..0] == [];
      while i < |ms|
        invariant i <= |ms| && indexes == ApplyAll(old(indexes), c, ms[..i])
      {
        assert ms[..i + 1][..i] == ms[..i];
        indexes := ApplyOne(indexes, c, ms[i]);
        i := i + 1;
      }
      assert ms[..i] == ms;
    }

    /**
     * A commit: its writes are planned one by one against the live value each row has at that
     * point, given in `olds`, and all mutations are applied at the commit LSN, however often it
     * wrote the same row.
     */
    method CommitWrites(c: nat, ws: seq<Write>, olds: seq<Option<Value>>)
      requires Valid() && next <= c && WritesFit(ws) && forall i :: 0 <= i < |ws| ==> |ws[i].pk| == KEY_SIZE
      requires |olds| == |ws| && forall i :: 0 <= i < |ws| ==> olds[i] == Live(After(cur, ws[..i]), ws[i].pk)
      modifies this
      ensures Valid() && next == c + 1
      ensures rows == Committed(old(rows), old(cur), c, ws) && cur == After(old(cur), ws)
    {
      hide Good, Latest, RowsBefore, Committed, PksFit, AllFit, Bounded;
      var ms, names := PlanAll(ws, olds);
      CommitPlanned(c, ms, names, ws);
    }

    /** The second half of a commit, once its mutations are planned. */
    method CommitPlanned(c: nat, ms: seq<Mutation>, ghost names: seq<Name>, ghost ws: seq<Write>)
      requires Valid() && CurFits(cur) && next <= c && WritesFit(ws) && Covers(names, indexes)
      requires ms == Mutations(indexes, names, cur, ws) && forall i :: 0 <= i < |ms| ==> |ms[i].pk| == KEY_SIZE
      modifies this
      ensures Valid() && next == c + 1 && indexes == ApplyAll(old(indexes), c, ms) && SameDefs(indexes, old(indexes))
      ensures rows == Committed(old(rows), old(cur), c, ws) && cur == After(old(cur), ws)
    {
      hide Good, Latest, RowsBefore, ApplyAll, Committed, PksFit, AllFit, SameDefs, Bounded, CurFits;
      GoodLater(indexes, next, c, rows, cur);
      CommitKeepsGood(indexes, c, names, rows, cur, ws);
      ApplyPks(indexes, c, ms);
      ghost var before := indexes;
      ApplyCommit(c, ms);
      SameDefsFit(indexes, before);
      GoodNext(indexes, c, rows, cur, ws);
      LatestNext(rows, cur, c, ws);
      AfterFits(cur, ws);
      GoodBounded(indexes, c + 1, Committed(rows, cur, c, ws), After(cur, ws));
      rows, cur, next := Committed(rows, cur, c, ws), After(cur, ws), c + 1;
    }

    method PlanAll(ws: seq<Write>, olds: seq<Option<Value>>) returns (ms: seq<Mutation>, names: seq<Name>)
      requires AllFit(indexes) && CurFits(cur) && WritesFit(ws) && |olds| == |ws|
      requires forall i :: 0 <= i < |ws| ==> |ws[i].pk| == KEY_SIZE
      requires forall i :: 0 <= i < |ws| ==> olds[i] == Live(After(cur, ws[..i]), ws[i].pk)
      ensures Covers(names, indexes) && ms == Mutations(indexes, names, cur, ws)
      ensures forall i :: 0 <= i < |ms| ==> |ms[i].pk| == KEY_SIZE
    {
      hide Plan, AllFit, Covers;
      names := ListNames();
      ms := [];
      var i := 0;
      assert ws[..0] == [];
      while i < |ws|
        invariant i <= |ws| && ms == Mutations(indexes, names, cur, ws[..i])
        invariant forall j :: 0 <= j < |ms| ==> |ms[j].pk| == KEY_SIZE
      {
        assert ws[..i + 1][..i] == ws[..i];
        AfterFits(cur, ws[..i]);
        LiveFits(After(cur, ws[..i]), ws[i].pk);
        CoveredFit(names, indexes);
        PlanPks(indexes, names, ws[i].pk, olds[i], ws[i].value);
        var more := PlanMutations(names, ws[i].pk, olds[i], ws[i].value);
        ms := ms + more;
        i := i + 1;
      }
      assert ws[..i] == ws;
    }

    /** Plans the writes of a commit as the engine does, against the bytes the tree holds, and updates those. */
    method PlanHeld(ws: seq<Write>, tree: Tree) returns (ms: seq<Mutation>, names: seq<Name>, held: Tree)
      requires AllFit(indexes) && TreeFits(tree) && WritesFit(ws)
      requires forall i :: 0 <= i < |ws| ==> |ws[i].pk| == KEY_SIZE
      ensures Covers(names, indexes) && ms == Planned(indexes, names, tree, ws) && held == HeldAfter(tree, ws)
      ensures forall i :: 0 <= i < |ms| ==> |ms[i].pk| == KEY_SIZE
    {
      hide Plan, AllFit, Covers, HeldNext, TreeFits;
      names := ListNames();
      ms, held := [], tree;
      var i := 0;
      assert ws[..0] == [];
      while i < |ws|
        invariant i <= |ws| && held == HeldAfter(tree, ws[..i]) && ms == Planned(indexes, names, tree, ws[..i])
        invariant forall j :: 0 <= j < |ms| ==> |ms[j].pk| == KEY_SIZE
      {
        assert ws[..i + 1][..i] == ws[..i];
        HeldFits(tree, ws[..i]);
        OldFits(held, ws[i].pk);
        CoveredFit(names, indexes);
        PlanPks(indexes, names, ws[i].pk, OldOf(held, ws[i].pk), ws[i].value);
        var more := PlanMutations(names, ws[i].pk, OldOf(held, ws[i].pk), ws[i].value);
        ms := ms + more;
        held := HeldNext(held, ws[i]);
        i := i + 1;
      }
      assert ws[..i] == ws;
    }

    /**
     * The keys whose postings have the queried slice as of the read LSN, in ascending order, up to
     * the limit; when the indexes agree with the rows these are exactly those a scan would find.
     */
    method QueryEqual(name: Name, s: seq<Byte>, r: nat, limit: nat) returns (q: Result<seq<Key>, Error>)
      requires Tracked()
      ensures limit == 0 ==> q == Ok([])
      ensures limit > 0 && name !in indexes ==> q == Err(NotFound)
      ensures limit > 0 && name in indexes ==> q.Ok? && Posted(q.value, indexes[name], s, r, limit)
      ensures limit > 0 && name in indexes && Valid() ==> Answers(q.value, indexes[name], rows, s, r, limit)
    {
      hide Good, Latest, RowsBefore, RowAt, Num, AllFit, IsMember, MemberAt, Listed, Ascending, Answers, Posted;
      if limit == 0 {
        return Ok([]);
      }
      if name !in indexes {
        return Err(NotFound);
      }
      var x := indexes[name];
      var byPk := if s in x.postings then x.postings[s] else map[];
      assert forall p :: p in byPk ==> byPk[p] == History(x.postings, s, p);
      var out := TakeVisible(byPk, r, limit);
      TakenPosted(out, x, s, r, limit, byPk);
      if Valid() {
        ghost var c := if r < next then next else r + 1;
        GoodLater(indexes, next, c, rows, cur);
        MembersDecide(indexes, name, c, rows, cur, s, r);
        PostedAnswers(out, x, rows, s, r, limit);
      }
      q := Ok(out);
    }
  }

  lemma CoveredFit(names: seq<Name>, ix: Indexes)
    requires Covers(names, ix) && AllFit(ix)
    ensures forall n :: n in names ==> n in ix && IndexFits(ix[n])
  {
  }

  lemma SameDefsFit(ix: Indexes, defs: Indexes)
    requires SameDefs(ix, defs) && AllFit(defs)
    ensures AllFit(ix)
  {
  }

  lemma MembersDecide(ix: Indexes, n: Name, c: nat, rows: Rows, cur: map<Key, Option<Value>>, s: seq<Byte>, r: nat)
    requires Good(ix, c, rows, cur) && n in ix && r < c
    ensures var x := ix[n];
            && (forall p :: MemberAt(History(x.postings, s, p), r) <==> IsMember(x, rows, s, r, p))
  {
    hide Matches, RowAt;
    var x := ix[n];
    assert IndexOk(x, c, rows, cur);
    forall p
      ensures MemberAt(History(x.postings, s, p), r) <==> IsMember(x, rows, s, r, p)
    {
      assert PostingOk(x, c, rows, cur, s, p);
    }
  }
}
