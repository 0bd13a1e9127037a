/**
 * Secondary indexes over slices of the value (src/secondary_index.rs): versioned membership that
 * agrees with a scan.
 */
module SecondaryIndex {
  import opened Bytes
  import opened Params
  import opened KeyOrder

  type Key = seq<Byte>
  type Value = seq<Byte>
  type Name = seq<Byte>

  datatype Mutation = Mutation(index: Name, skey: seq<Byte>, pk: Key, present: bool)

  datatype Posting = Posting(lsn: nat, present: bool)

  type Postings = map<seq<Byte>, map<Key, seq<Posting>>>

  datatype Index = Index(offset: nat, len: nat, postings: Postings)

  type Indexes = map<Name, Index>

  // ---- One membership history ----

  function History(postings: Postings, s: seq<Byte>, p: Key): seq<Posting> {
    if s in postings && p in postings[s] then postings[s][p] else []
  }

  ghost predicate Ascending(h: seq<Posting>) {
    forall i, j :: 0 <= i < j < |h| ==> h[i].lsn < h[j].lsn
  }

  /** Whether the key is a member as of `r`: what the last posting not after `r` says. */
  ghost function MemberAt(h: seq<Posting>, r: nat): bool {
    if h == [] then false
    else if h[|h| - 1].lsn <= r then h[|h| - 1].present
    else MemberAt(h[..|h| - 1], r)
  }

  function Extended(h: seq<Posting>, c: nat, present: bool): (t: seq<Posting>)
    ensures t != []
  {
    if h != [] && h[|h| - 1].lsn == c then h[|h| - 1 := Posting(c, present)] else h + [Posting(c, present)]
  }

  /** A posting at `c` decides membership from `c` on and leaves everything before as it was. */
  lemma {:induction false} ExtendedReads(h: seq<Posting>, c: nat, present: bool, r: nat)
    requires Ascending(h) && forall i :: 0 <= i < |h| ==> h[i].lsn <= c
    ensures MemberAt(Extended(h, c, present), r) == if r >= c then present else MemberAt(h, r)
    ensures Ascending(Extended(h, c, present))
    ensures forall i :: 0 <= i < |Extended(h, c, present)| ==> Extended(h, c, present)[i].lsn <= c
  {
    var t := Extended(h, c, present);
    if h != [] && h[|h| - 1].lsn == c {
      assert t[..|t| - 1] == h[..|h| - 1];
    } else {
      assert t[..|t| - 1] == h;
    }
  }

  // ---- Applying mutations ----

  function WithHistory(postings: Postings, s: seq<Byte>, p: Key, h: seq<Posting>): Postings {
    var byPk := if s in postings then postings[s] else map[];
    postings[s := byPk[p := h]]
  }

  function SetPosting(x: Index, c: nat, s: seq<Byte>, p: Key, present: bool): Index {
    x.(postings := WithHistory(x.postings, s, p, Extended(History(x.postings, s, p), c, present)))
  }

  function ApplyOne(ix: Indexes, c: nat, m: Mutation): Indexes {
    if m.index !in ix then ix else ix[m.index := SetPosting(ix[m.index], c, m.skey, m.pk, m.present)]
  }

  function ApplyAll(ix: Indexes, c: nat, ms: seq<Mutation>): Indexes {
    if ms == [] then ix else ApplyOne(ApplyAll(ix, c, ms[..|ms| - 1]), c, ms[|ms| - 1])
  }

  lemma {:induction false} ApplyConcat(ix: Indexes, c: nat, a: seq<Mutation>, b: seq<Mutation>)
    ensures ApplyAll(ix, c, a + b) == ApplyAll(ApplyAll(ix, c, a), c, b)
    decreases |b|
  {
    if b == [] {
      assert a + b == a;
    } else {
      ApplyConcat(ix, c, a, b[..|b| - 1]);
      assert (a + b)[..|a + b| - 1] == a + b[..|b| - 1];
    }
  }

  // ---- Planning ----

  predicate IndexFits(x: Index) {
    x.len > 0 && x.offset + x.len <= VALUE_SIZE
  }

  predicate ValueFits(v: Option<Value>) {
    v.Some? ==> |v.value| == VALUE_SIZE
  }

  function SliceOf(x: Index, v: Option<Value>): Option<seq<Byte>>
    requires IndexFits(x) && ValueFits(v)
  {
    if v.Some? then Some(v.value[x.offset..x.offset + x.len]) else None
  }

  function PlanOne(name: Name, x: Index, pk: Key, was: Option<Value>, now: Option<Value>): seq<Mutation>
    requires IndexFits(x) && ValueFits(was) && ValueFits(now)
  {
    var (a, b) := (SliceOf(x, was), SliceOf(x, now));
    if a == b then []
    else
      (if a.Some? then [Mutation(name, a.value, pk, false)] else [])
      + (if b.Some? then [Mutation(name, b.value, pk, true)] else [])
  }

  ghost predicate AllFit(ix: Indexes) {
    forall n :: n in ix ==> IndexFits(ix[n])
  }

  function Plan(ix: Indexes, names: seq<Name>, pk: Key, was: Option<Value>, now: Option<Value>): seq<Mutation>
    requires (forall n :: n in names ==> n in ix && IndexFits(ix[n])) && ValueFits(was) && ValueFits(now)
  {
    if names == [] then []
    else
      var n := names[|names| - 1];
      Plan(ix, names[..|names| - 1], pk, was, now) + PlanOne(n, ix[n], pk, was, now)
  }

  // ---- Agreement with the rows ----

  datatype RowVersion = RowVersion(lsn: nat, value: Option<Value>)

  type Rows = map<Key, seq<RowVersion>>

  ghost function RowAt(h: seq<RowVersion>, r: nat): Option<Value> {
    if h == [] then None
    else if h[|h| - 1].lsn <= r then h[|h| - 1].value
    else RowAt(h[..|h| - 1], r)
  }

  ghost function RowsOf(rows: Rows, p: Key): seq<RowVersion> {
    if p in rows then rows[p] else []
  }

  ghost function Live(cur: map<Key, Option<Value>>, p: Key): Option<Value> {
    if p in cur then cur[p] else None
  }

  ghost predicate CurFits(cur: map<Key, Option<Value>>) {
    forall p :: p in cur ==> ValueFits(cur[p])
  }

  /** The value's bytes at the index's offset are `s`. */
  ghost predicate Matches(x: Index, v: Option<Value>, s: seq<Byte>) {
    && IndexFits(x) && v.Some? && |v.value| == VALUE_SIZE
    && |s| == x.len && forall i :: 0 <= i < x.len ==> s[i] == v.value[x.offset + i]
  }

  lemma SliceMatches(x: Index, v: Option<Value>, s: seq<Byte>)
    requires IndexFits(x) && ValueFits(v)
    ensures SliceOf(x, v) == Some(s) <==> Matches(x, v, s)
    ensures v == None ==> !Matches(x, v, s)
  {
    if Matches(x, v, s) {
      assert s == v.value[x.offset..x.offset + x.len];
    }
  }

  lemma SameMatches(x: Index, y: Index, s: seq<Byte>)
    requires x.offset == y.offset && x.len == y.len
    ensures forall v :: Matches(x, v, s) == Matches(y, v, s)
  {
  }

  lemma PlansOne(name: Name, x: Index, pk: Key, was: Option<Value>, now: Option<Value>, m: Mutation)
    requires IndexFits(x) && ValueFits(was) && ValueFits(now)
    ensures m in PlanOne(name, x, pk, was, now) <==>
              && m.index == name && m.pk == pk
              && Matches(x, if m.present then now else was, m.skey)
              && !Matches(x, if m.present then was else now, m.skey)
  {
    hide Matches;
    SliceMatches(x, was, m.skey);
    SliceMatches(x, now, m.skey);
  }

  /** What is planned: the old value's slice goes and the new value's slice comes, unless they are the same. */
  lemma {:induction false} PlanExactly(ix: Indexes, names: seq<Name>, pk: Key, was: Option<Value>, now: Option<Value>,
                                       m: Mutation)
    requires (forall n :: n in names ==> n in ix && IndexFits(ix[n])) && ValueFits(was) && ValueFits(now)
    ensures m in Plan(ix, names, pk, was, now) <==>
              && m.index in names && m.pk == pk
              && Matches(ix[m.index], if m.present then now else was, m.skey)
              && !Matches(ix[m.index], if m.present then was else now, m.skey)
  {
    hide Matches, PlanOne;
    if names != [] {
      var n := names[|names| - 1];
      PlanExactly(ix, names[..|names| - 1], pk, was, now, m);
      PlansOne(n, ix[n], pk, was, now, m);
      assert m.index in names <==> m.index in names[..|names| - 1] || m.index == n;
    }
  }

  ghost predicate PostingOk(x: Index, c: nat, rows: Rows, cur: map<Key, Option<Value>>, s: seq<Byte>, p: Key) {
    var h := History(x.postings, s, p);
    && Ascending(h) && (forall i :: 0 <= i < |h| ==> h[i].lsn <= c)
    && (forall r: nat :: r < c ==> (MemberAt(h, r) <==> Matches(x, RowAt(RowsOf(rows, p), r), s)))
    && (forall r: nat :: r >= c ==> (MemberAt(h, r) <==> Matches(x, Live(cur, p), s)))
  }

  /**
   * While the commit at `c` is being applied, the index agrees with the committed rows before
   * `c`, and from `c` on with the values as far as the commit has been applied.
   */
  ghost predicate IndexOk(x: Index, c: nat, rows: Rows, cur: map<Key, Option<Value>>) {
    IndexFits(x) && forall s, p :: PostingOk(x, c, rows, cur, s, p)
  }

  /** The effect on one index of the mutations planned for one row change. */
  ghost function RowStep(x: Index, c: nat, pk: Key, was: Option<Value>, now: Option<Value>): Index
    requires IndexFits(x) && ValueFits(was) && ValueFits(now)
  {
    var (a, b) := (SliceOf(x, was), SliceOf(x, now));
    if a == b then x
    else
      var x1 := if a.Some? then SetPosting(x, c, a.value, pk, false) else x;
      if b.Some? then SetPosting(x1, c, b.value, pk, true) else x1
  }

  lemma HistoryAfterRow(x: Index, c: nat, pk: Key, was: Option<Value>, now: Option<Value>, s: seq<Byte>, p: Key)
    requires IndexFits(x) && ValueFits(was) && ValueFits(now)
    ensures var (a, b, h) := (SliceOf(x, was), SliceOf(x, now), History(x.postings, s, p));
            History(RowStep(x, c, pk, was, now).postings, s, p) ==
            if p == pk && a != b && (a == Some(s) || b == Some(s)) then Extended(h, c, b == Some(s)) else h
  {
    hide Extended;
  }

  lemma RowKeepsPosting(x: Index, c: nat, rows: Rows, cur: map<Key, Option<Value>>, pk: Key, now: Option<Value>,
                        s: seq<Byte>, p: Key)
    requires IndexFits(x) && CurFits(cur) && ValueFits(now) && ValueFits(Live(cur, pk))
    requires PostingOk(x, c, rows, cur, s, p)
    ensures PostingOk(RowStep(x, c, pk, Live(cur, pk), now), c, rows, cur[pk := now], s, p)
  {
    hide RowStep, MemberAt, Extended, History, SliceOf, Matches;
    var was := Live(cur, pk);
    SliceMatches(x, was, s);
    SliceMatches(x, now, s);
    var (x2, h) := (RowStep(x, c, pk, was, now), History(x.postings, s, p));
    HistoryAfterRow(x, c, pk, was, now, s, p);
    StepKeepsDef(x, c, pk, was, now);
    SameMatches(x2, x, s);
    var present := SliceOf(x, now) == Some(s);
    forall r: nat ensures MemberAt(Extended(h, c, present), r) == if r >= c then present else MemberAt(h, r) {
      ExtendedReads(h, c, present, r);
    }
    ExtendedReads(h, c, present, c);
  }

  lemma StepKeepsDef(x: Index, c: nat, pk: Key, was: Option<Value>, now: Option<Value>)
    requires IndexFits(x) && ValueFits(was) && ValueFits(now)
    ensures var x2 := RowStep(x, c, pk, was, now); x2.offset == x.offset && x2.len == x.len
  {
  }

  /** One row change keeps an index in agreement. */
  lemma RowKeepsIndex(x: Index, c: nat, rows: Rows, cur: map<Key, Option<Value>>, pk: Key, now: Option<Value>)
    requires IndexOk(x, c, rows, cur) && CurFits(cur) && ValueFits(now)
    ensures ValueFits(Live(cur, pk))
    ensures IndexOk(RowStep(x, c, pk, Live(cur, pk), now), c, rows, cur[pk := now])
  {
    hide RowStep, PostingOk;
    assert ValueFits(Live(cur, pk));
    StepKeepsDef(x, c, pk, Live(cur, pk), now);
    var (x2, cur2) := (RowStep(x, c, pk, Live(cur, pk), now), cur[pk := now]);
    forall s, p ensures PostingOk(x2, c, rows, cur2, s, p) {
      RowKeepsPosting(x, c, rows, cur, pk, now, s, p);
    }
  }

  // ---- Plans over all indexes ----

  ghost predicate SameDefs(ix: Indexes, ix2: Indexes) {
    ix.Keys == ix2.Keys && forall n :: n in ix ==> ix[n].offset == ix2[n].offset && ix[n].len == ix2[n].len
  }

  ghost predicate DistinctNames(names: seq<Name>) {
    forall i, j :: 0 <= i < j < |names| ==> names[i] != names[j]
  }

  lemma {:induction false} ApplyPlanOne(ix: Indexes, def: Index, c: nat, n: Name, pk: Key, was: Option<Value>,
                                        now: Option<Value>)
    requires n in ix && ix[n].offset == def.offset && ix[n].len == def.len
    requires IndexFits(def) && ValueFits(was) && ValueFits(now)
    ensures ApplyAll(ix, c, PlanOne(n, def, pk, was, now)) == ix[n := RowStep(ix[n], c, pk, was, now)]
  {
    hide SetPosting, ApplyAll;
    var (a, b, x) := (SliceOf(def, was), SliceOf(def, now), ix[n]);
    ApplySingle(ix, c, []);
    if a == b {
      assert ix == ix[n := ix[n]];
    } else {
      var x1 := if a.Some? then SetPosting(x, c, a.value, pk, false) else x;
      var rem := if a.Some? then [Mutation(n, a.value, pk, false)] else [];
      var add := if b.Some? then [Mutation(n, b.value, pk, true)] else [];
      assert PlanOne(n, def, pk, was, now) == rem + add;
      ApplyConcat(ix, c, rem, add);
      assert ApplyAll(ix, c, rem) == ix[n := x1] by { ApplySingle(ix, c, rem); }
      ApplySingle(ix[n := x1], c, add);
    }
  }

  lemma {:induction false} ApplySingle(ix: Indexes, c: nat, ms: seq<Mutation>)
    requires |ms| <= 1
    ensures ApplyAll(ix, c, ms) == if ms == [] then ix else ApplyOne(ix, c, ms[0])
  {
    if ms != [] {
      assert ms[..0] == [];
      assert ApplyAll(ix, c, []) == ix;
    }
  }

  /** Applying a plan takes the row step in every index the plan covers and leaves the others alone. */
  lemma {:induction false} ApplyPlan(ix: Indexes, defs: Indexes, c: nat, names: seq<Name>, pk: Key,
                                     was: Option<Value>, now: Option<Value>)
    requires SameDefs(ix, defs) && AllFit(defs) && DistinctNames(names) && ValueFits(was) && ValueFits(now)
    requires forall n :: n in names ==> n in defs && IndexFits(defs[n])
    ensures var ix2 := ApplyAll(ix, c, Plan(defs, names, pk, was, now));
            && ix2.Keys == ix.Keys
            && (forall n :: n in ix ==> IndexFits(ix[n]))
            && (forall n :: n in ix ==> ix2[n] == if n in names then RowStep(ix[n], c, pk, was, now) else ix[n])
  {
    hide RowStep, PlanOne;
    if names != [] {
      var (less, last) := (names[..|names| - 1], names[|names| - 1]);
      ApplyPlan(ix, defs, c, less, pk, was, now);
      var mid := ApplyAll(ix, c, Plan(defs, less, pk, was, now));
      ApplyConcat(ix, c, Plan(defs, less, pk, was, now), PlanOne(last, defs[last], pk, was, now));
      assert last !in less;
      ApplyPlanOne(mid, defs[last], c, last, pk, was, now);
      assert forall n :: n in names <==> n in less || n == last;
    }
  }

  ghost predicate Good(ix: Indexes, c: nat, rows: Rows, cur: map<Key, Option<Value>>) {
    CurFits(cur) && forall n :: n in ix ==> IndexOk(ix[n], c, rows, cur)
  }

  ghost predicate Covers(names: seq<Name>, ix: Indexes) {
    DistinctNames(names) && forall n :: n in names <==> n in ix
  }

  lemma {:induction false} PlanKeepsGood(ix: Indexes, defs: Indexes, c: nat, names: seq<Name>, rows: Rows,
                                         cur: map<Key, Option<Value>>,
                                         pk: Key, now: Option<Value>)
    requires Good(ix, c, rows, cur) && SameDefs(ix, defs) && AllFit(defs) && Covers(names, defs) && ValueFits(now)
    ensures ValueFits(Live(cur, pk)) && (forall n :: n in names ==> n in defs && IndexFits(defs[n]))
    ensures var ix2 := ApplyAll(ix, c, Plan(defs, names, pk, Live(cur, pk), now));
            Good(ix2, c, rows, cur[pk := now]) && SameDefs(ix2, defs)
  {
    hide RowStep, IndexOk, Plan, ApplyAll;
    assert ValueFits(Live(cur, pk));
    ApplyPlan(ix, defs, c, names, pk, Live(cur, pk), now);
    forall n | n in ix ensures IndexOk(RowStep(ix[n], c, pk, Live(cur, pk), now), c, rows, cur[pk := now]) {
      RowKeepsIndex(ix[n], c, rows, cur, pk, now);
      StepKeepsDef(ix[n], c, pk, Live(cur, pk), now);
    }
    forall n | n in ix
      ensures var x2 := RowStep(ix[n], c, pk, Live(cur, pk), now); x2.offset == ix[n].offset && x2.len == ix[n].len
    {
      StepKeepsDef(ix[n], c, pk, Live(cur, pk), now);
    }
  }

  // ---- Commits ----

  datatype Write = Write(pk: Key, value: Option<Value>)

  ghost predicate WritesFit(ws: seq<Write>) {
    forall i :: 0 <= i < |ws| ==> ValueFits(ws[i].value)
  }

  ghost function After(cur: map<Key, Option<Value>>, ws: seq<Write>): map<Key, Option<Value>> {
    if ws == [] then cur else After(cur, ws[..|ws| - 1])[ws[|ws| - 1].pk := ws[|ws| - 1].value]
  }

  lemma {:induction false} AfterFits(cur: map<Key, Option<Value>>, ws: seq<Write>)
    requires CurFits(cur) && WritesFit(ws)
    ensures CurFits(After(cur, ws))
  {
    if ws != [] {
      AfterFits(cur, ws[..|ws| - 1]);
    }
  }

  lemma LiveFits(cur: map<Key, Option<Value>>, p: Key)
    requires CurFits(cur)
    ensures ValueFits(Live(cur, p))
  {
  }

  /** The mutations of a whole commit, each write planned against the value its row has at that point. */
  ghost function Mutations(defs: Indexes, names: seq<Name>, cur: map<Key, Option<Value>>, ws: seq<Write>): seq<Mutation>
    requires AllFit(defs) && Covers(names, defs) && CurFits(cur) && WritesFit(ws)
  {
    if ws == [] then []
    else
      var (less, w) := (ws[..|ws| - 1], ws[|ws| - 1]);
      AfterFits(cur, less);
      LiveFits(After(cur, less), w.pk);
      Mutations(defs, names, cur, less) + Plan(defs, names, w.pk, Live(After(cur, less), w.pk), w.value)
  }

  /** Applying a commit's mutations leaves every index in agreement with the rows after the commit's writes. */
  lemma {:induction false} CommitKeepsGood(ix: Indexes, c: nat, names: seq<Name>, rows: Rows,
                                           cur: map<Key, Option<Value>>, ws: seq<Write>)
    requires Good(ix, c, rows, cur) && AllFit(ix) && Covers(names, ix) && WritesFit(ws)
    ensures var ix2 := ApplyAll(ix, c, Mutations(ix, names, cur, ws));
            Good(ix2, c, rows, After(cur, ws)) && SameDefs(ix2, ix)
  {
    hide IndexOk, Plan;
    if ws != [] {
      var (less, w) := (ws[..|ws| - 1], ws[|ws| - 1]);
      CommitKeepsGood(ix, c, names, rows, cur, less);
      AfterFits(cur, less);
      var mid := ApplyAll(ix, c, Mutations(ix, names, cur, less));
      PlanKeepsGood(mid, ix, c, names, rows, After(cur, less), w.pk, w.value);
      ApplyConcat(ix, c, Mutations(ix, names, cur, less), Plan(ix, names, w.pk, Live(After(cur, less), w.pk), w.value));
    }
  }

  // ---- The committed rows ----

  ghost function Touched(ws: seq<Write>): set<Key> {
    set i | 0 <= i < |ws| :: ws[i].pk
  }

  /** Each row written gains one version, its last value in the commit. */
  ghost function Committed(rows: Rows, cur: map<Key, Option<Value>>, c: nat, ws: seq<Write>): Rows {
    map p | p in rows.Keys + Touched(ws) ::
      if p in Touched(ws) then RowsOf(rows, p) + [RowVersion(c, Live(After(cur, ws), p))] else RowsOf(rows, p)
  }

  ghost predicate RowsBefore(rows: Rows, c: nat) {
    forall p, i :: p in rows && 0 <= i < |rows[p]| ==> rows[p][i].lsn < c
  }

  ghost predicate Latest(rows: Rows, cur: map<Key, Option<Value>>) {
    forall p :: Live(cur, p) == (if RowsOf(rows, p) == [] then None else RowsOf(rows, p)[|RowsOf(rows, p)| - 1].value)
  }

  lemma {:induction false} Untouched(cur: map<Key, Option<Value>>, ws: seq<Write>, p: Key)
    requires p !in Touched(ws)
    ensures Live(After(cur, ws), p) == Live(cur, p)
  {
    if ws != [] {
      assert ws[|ws| - 1].pk in Touched(ws);
      assert Touched(ws[..|ws| - 1]) <= Touched(ws);
      Untouched(cur, ws[..|ws| - 1], p);
    }
  }

  lemma {:induction false} RowAfterCommit(rows: Rows, cur: map<Key, Option<Value>>, c: nat, ws: seq<Write>, p: Key,
                                          r: nat)
    requires RowsBefore(rows, c) && Latest(rows, cur)
    ensures RowAt(RowsOf(Committed(rows, cur, c, ws), p), r) ==
            if r >= c then Live(After(cur, ws), p) else RowAt(RowsOf(rows, p), r)
  {
    var h := RowsOf(rows, p);
    if p in Touched(ws) {
      assert (h + [RowVersion(c, Live(After(cur, ws), p))])[..|h|] == h;
    } else {
      Untouched(cur, ws, p);
      assert RowsOf(Committed(rows, cur, c, ws), p) == h;
    }
  }

  lemma {:induction false} IndexNext(x: Index, c: nat, c2: nat, rows: Rows, cur: map<Key, Option<Value>>,
                                     ws: seq<Write>)
    requires IndexOk(x, c, rows, After(cur, ws)) && c < c2 && RowsBefore(rows, c) && Latest(rows, cur)
    ensures IndexOk(x, c2, Committed(rows, cur, c, ws), After(cur, ws))
  {
    hide MemberAt, Matches, RowAt, Committed, After;
    var (rows2, cur2) := (Committed(rows, cur, c, ws), After(cur, ws));
    forall s, p ensures PostingOk(x, c2, rows2, cur2, s, p) {
      assert PostingOk(x, c, rows, cur2, s, p);
      forall r: nat ensures RowAt(RowsOf(rows2, p), r) ==
                            if r >= c then Live(cur2, p) else RowAt(RowsOf(rows, p), r) {
        RowAfterCommit(rows, cur, c, ws, p, r);
      }
    }
  }

  lemma {:induction false} LatestNext(rows: Rows, cur: map<Key, Option<Value>>, c: nat, ws: seq<Write>)
    requires Latest(rows, cur) && RowsBefore(rows, c)
    ensures Latest(Committed(rows, cur, c, ws), After(cur, ws)) && RowsBefore(Committed(rows, cur, c, ws), c + 1)
  {
    hide After;
    var rows2 := Committed(rows, cur, c, ws);
    forall p ensures Live(After(cur, ws), p) ==
      (if RowsOf(rows2, p) == [] then None else RowsOf(rows2, p)[|RowsOf(rows2, p)| - 1].value)
    {
      if p !in Touched(ws) {
        Untouched(cur, ws, p);
      }
    }
  }
}
