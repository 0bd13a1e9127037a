/**
 * What goes wrong when a node's log is past the LSN the sequencer starts from: from every such
 * connection some run returns a commit LSN that fewer than a quorum of nodes hold.
 */
module ReplicationAhead {
  import opened Bytes
  import opened Replication

  ghost function LoggedAt(n: Node, b: Batch): Node {
    n.(log := n.log + b.recs, durable := End(b), index := n.index[b.rid := End(b)])
  }

  /** Taking a request in, logging it and answering it, at a node with nothing else to do. */
  ghost function Logged(s: State, i: nat, b: Batch): State
    requires i < |s.nodes|
  {
    s.(inbox := s.inbox - {Request(i, b)}, nodes := s.nodes[i := LoggedAt(s.nodes[i], b)],
       replies := s.replies + {Reply(i, b.start, End(b), End(b))})
  }

  /** A node with nothing to do that would take `b` next, under a request id it does not know. */
  ghost predicate Takes(n: Node, b: Batch) {
    n.queue == [] && n.done == {} && n.durable == b.start && b.rid !in n.index
  }

  ghost predicate Reaches(s: State, t: State) {
    exists tr :: Run(tr) && tr[0] == s && tr[|tr| - 1] == t
  }

  lemma NoStep(s: State)
    ensures Reaches(s, s)
  {
    hide Next;
    var tr := [s];
    assert Run(tr) && tr[0] == s && tr[|tr| - 1] == s;
  }

  lemma OneStep(s: State, t: State)
    requires Next(s, t)
    ensures Reaches(s, t)
  {
    hide Next;
    var tr := [s, t];
    assert Run(tr) && tr[0] == s && tr[|tr| - 1] == t;
  }

  lemma ThenReaches(s: State, t: State, u: State)
    requires Reaches(s, t) && Reaches(t, u)
    ensures Reaches(s, u)
  {
    hide Next;
    var a :| Run(a) && a[0] == s && a[|a| - 1] == t;
    var b :| Run(b) && b[0] == t && b[|b| - 1] == u;
    var tr := a + b[1..];
    forall i | 0 <= i < |tr| - 1 ensures Next(tr[i], tr[i + 1]) {
      if i < |a| - 1 {
        assert Next(a[i], a[i + 1]);
      } else {
        var j := i - (|a| - 1);
        assert tr[i] == b[j] && tr[i + 1] == b[j + 1];
        assert Next(b[j], b[j + 1]);
      }
    }
    assert tr[|tr| - 1] == u;
    assert Run(tr);
  }

  lemma TakenIn(s: State, i: nat, b: Batch)
    requires i < |s.nodes| && Request(i, b) in s.inbox && Takes(s.nodes[i], b)
    ensures Next(s, s.(inbox := s.inbox - {Request(i, b)}, nodes := s.nodes[i := s.nodes[i].(queue := [b])]))
  {
    hide Reserve, Dispatch, Complete, ReceiveKnown, ReceiveReject, WriteGroup, WriteFails, Answer;
    assert s.nodes[i].queue + [b] == [b];
    assert ReceiveAccept(s, s.(inbox := s.inbox - {Request(i, b)}, nodes := s.nodes[i := s.nodes[i].(queue := [b])]),
                         i, b);
  }

  lemma Written(s: State, i: nat, b: Batch)
    requires i < |s.nodes| && s.nodes[i].queue == [b] && s.nodes[i].done == {}
    ensures var n := s.nodes[i];
            Next(s, s.(nodes := s.nodes[i := n.(log := n.log + b.recs, durable := End(b), queue := [], done := {b})]))
  {
    hide Reserve, Dispatch, Complete, ReceiveKnown, ReceiveReject, ReceiveAccept, WriteFails, Answer;
    var n := s.nodes[i];
    assert n.queue[..1] == [b] && n.queue[1..] == [];
    assert Flat([b]) == b.recs && MaxEnd([b]) == End(b);
    assert n.done + (set x | x in [b]) == {b};
    var t := s.(nodes := s.nodes[i := n.(log := n.log + b.recs, durable := End(b), queue := [], done := {b})]);
    assert WriteGroup(s, t, i, 1);
  }

  lemma Answered(s: State, i: nat, b: Batch)
    requires i < |s.nodes| && s.nodes[i].done == {b}
    ensures var n := s.nodes[i];
            Next(s, s.(nodes := s.nodes[i := n.(done := {}, index := n.index[b.rid := End(b)])],
                       replies := s.replies + {Reply(i, b.start, End(b), n.durable)}))
  {
    hide Reserve, Dispatch, Complete, ReceiveKnown, ReceiveReject, ReceiveAccept, WriteGroup, WriteFails;
    var n := s.nodes[i];
    assert n.done - {b} == {};
    var t := s.(nodes := s.nodes[i := n.(done := {}, index := n.index[b.rid := End(b)])],
                replies := s.replies + {Reply(i, b.start, End(b), n.durable)});
    assert Answer(s, t, i, b);
  }

  lemma LoggedReaches(s: State, i: nat, b: Batch)
    requires i < |s.nodes| && Request(i, b) in s.inbox && Takes(s.nodes[i], b)
    ensures Reaches(s, Logged(s, i, b))
  {
    hide Next, Reaches;
    var n := s.nodes[i];
    var s1 := s.(inbox := s.inbox - {Request(i, b)}, nodes := s.nodes[i := n.(queue := [b])]);
    TakenIn(s, i, b);
    OneStep(s, s1);
    var s2 := s1.(nodes := s1.nodes[i := n.(log := n.log + b.recs, durable := End(b), done := {b})]);
    Written(s1, i, b);
    OneStep(s1, s2);
    Answered(s2, i, b);
    var n2 := s2.nodes[i];
    assert s2.nodes[i := n2.(done := {}, index := n2.index[b.rid := End(b)])] == Logged(s, i, b).nodes;
    OneStep(s2, Logged(s, i, b));
    ThenReaches(s, s1, s2);
    ThenReaches(s, s2, Logged(s, i, b));
  }

  ghost function Sent(s: State, b: Batch): State {
    s.(nextLsn := b.start + 1, current := Some(b),
       inbox := s.inbox + (set i | 0 <= i < |s.nodes| :: Request(i, b)), sent := s.sent + b.recs)
  }

  lemma BatchSent(s: State, b: Batch)
    requires s.current == None && s.nextLsn == s.dispatchLsn == b.start && s.reserved == map[]
    requires |b.recs| == 1 && b.rid != 0
    ensures Reaches(s, Sent(s, b))
  {
    var s1 := s.(nextLsn := b.start + 1, reserved := map[b.start := 1]);
    assert s.reserved[b.start := 1] == map[b.start := 1];
    assert Reserve(s, s1, 1, b.rid);
    OneStep(s, s1);
    var s2 := s1.(current := Some(b), reserved := map[],
                  inbox := s.inbox + (set i | 0 <= i < |s.nodes| :: Request(i, b)), sent := s.sent + b.recs);
    assert s1.reserved - {b.start} == map[];
    assert Dispatch(s1, s2, b);
    OneStep(s1, s2);
    hide Next;
    ThenReaches(s, s1, s2);
  }

  // ---- A batch taken by a set of nodes ----

  /** `t` is `s` after exactly the nodes in `who` have logged and answered `b`. */
  ghost predicate Delivered(s: State, t: State, who: set<nat>, b: Batch) {
    && t == s.(nodes := t.nodes, inbox := t.inbox, replies := t.replies) && |t.nodes| == |s.nodes|
    && (forall i :: 0 <= i < |s.nodes| && i !in who ==>
          t.nodes[i] == s.nodes[i] && (Request(i, b) in s.inbox ==> Request(i, b) in t.inbox))
    && (forall i :: 0 <= i < |s.nodes| && i in who ==>
          t.nodes[i] == LoggedAt(s.nodes[i], b) && Reply(i, b.start, End(b), End(b)) in t.replies)
  }

  lemma {:induction false} Deliver(s: State, who: set<nat>, b: Batch) returns (t: State)
    requires forall i :: i in who ==> i < |s.nodes| && Request(i, b) in s.inbox && Takes(s.nodes[i], b)
    ensures Reaches(s, t) && Delivered(s, t, who, b)
    decreases |who|
  {
    hide Reaches, LoggedAt, Takes;
    if who == {} {
      t := s;
      NoStep(s);
    } else {
      var i :| i in who;
      var mid := Deliver(s, who - {i}, b);
      LoggedReaches(mid, i, b);
      t := Logged(mid, i, b);
      ThenReaches(s, mid, t);
    }
  }

  // ---- Rounds that only some nodes hear of ----

  lemma {:induction false} Between(a: set<nat>, b: set<nat>, n: nat) returns (c: set<nat>)
    requires a <= b && |a| <= n <= |b|
    ensures a <= c <= b && |c| == n
    decreases n - |a|
  {
    if |a| == n {
      c := a;
    } else {
      assert a != b;
      var x :| x in b && x !in a;
      c := Between(a + {x}, b, n);
    }
  }

  ghost predicate IdsBelow(nodes: seq<Node>, bound: nat) {
    forall i, r :: 0 <= i < |nodes| && r in nodes[i].index ==> r < bound
  }

  lemma {:induction false} SetBound(ids: set<nat>) returns (bound: nat)
    ensures forall r :: r in ids ==> r < bound
    decreases |ids|
  {
    if ids == {} {
      bound := 0;
    } else {
      var x :| x in ids;
      var rest := SetBound(ids - {x});
      bound := if x < rest then rest else x + 1;
      forall r | r in ids ensures r < bound {
        assert r != x ==> r in ids - {x};
      }
    }
  }

  lemma {:induction false} KnownIdsBound(nodes: seq<Node>) returns (bound: nat)
    ensures IdsBelow(nodes, bound)
    decreases |nodes|
  {
    if nodes == [] {
      bound := 0;
    } else {
      var last := |nodes| - 1;
      var rest := KnownIdsBound(nodes[..last]);
      var own := SetBound(nodes[last].index.Keys);
      bound := if own < rest then rest else own;
      forall i, r | 0 <= i < |nodes| && r in nodes[i].index ensures r < bound {
        assert i < last ==> nodes[..last][i] == nodes[i];
      }
    }
  }

  ghost predicate NodeAt(n: Node, was: Node, heard: bool, lsn: nat) {
    && n.queue == [] && n.done == {} && n.durable == |n.log| && was.log <= n.log
    && |n.log| == if heard && lsn > |was.log| then lsn else |was.log|
  }

  /**
   * After the batches before `lsn`, each of the one record `a`, to which only the nodes in `some`
   * listened: these have logged whatever followed their log.
   */
  ghost predicate Round(s0: State, s: State, some: set<nat>, a: PageWrite, lsn: nat, bound: nat) {
    && s == s0.(nodes := s.nodes, inbox := s.inbox, replies := s.replies, sent := s.sent,
                nextLsn := lsn, dispatchLsn := lsn)
    && |s.nodes| == |s0.nodes| && |s.sent| == lsn && IdsBelow(s.nodes, bound + lsn)
    && (lsn > s0.durable ==> s.sent[s0.durable] == a)
    && (forall i :: 0 <= i < |s.nodes| ==> NodeAt(s.nodes[i], s0.nodes[i], i in some, lsn))
  }

  ghost predicate Ahead(s0: State, common: seq<PageWrite>, some: set<nat>, a: PageWrite) {
    && Connect(s0, common) && s0.durable < |common| && a != common[s0.durable]
    && some <= Reaching(s0.nodes, s0.durable) && |some| == s0.quorum
    && Reaching(s0.nodes, s0.durable + 1) <= some
  }

  lemma RoundStarts(s0: State, common: seq<PageWrite>, some: set<nat>, a: PageWrite, bound: nat)
    requires Ahead(s0, common, some, a) && IdsBelow(s0.nodes, bound)
    ensures Round(s0, s0, some, a, s0.durable, bound)
  {
    forall i | 0 <= i < |s0.nodes| ensures NodeAt(s0.nodes[i], s0.nodes[i], i in some, s0.durable) {
      assert NodeStart(s0.nodes[i]);
    }
  }

  ghost function RoundBatch(a: PageWrite, lsn: nat, bound: nat): Batch {
    Batch(bound + lsn, lsn, [a])
  }

  /** The batch of a round, once the nodes in `who` have logged it. */
  lemma RoundHeard(s0: State, s: State, some: set<nat>, who: set<nat>, a: PageWrite, lsn: nat, bound: nat)
    returns (t: State)
    requires Round(s0, s, some, a, lsn, bound) && bound >= 1 && s0.current == None && s0.reserved == map[]
    requires forall i :: i in who ==> i < |s.nodes| && |s.nodes[i].log| == lsn
    ensures Reaches(s, t) && Delivered(Sent(s, RoundBatch(a, lsn, bound)), t, who, RoundBatch(a, lsn, bound))
  {
    hide Reaches, Delivered;
    var b := RoundBatch(a, lsn, bound);
    BatchSent(s, b);
    var mid := Sent(s, b);
    forall i | i in who ensures i < |mid.nodes| && Request(i, b) in mid.inbox && Takes(mid.nodes[i], b) {
      assert NodeAt(s.nodes[i], s0.nodes[i], i in some, lsn);
    }
    t := Deliver(mid, who, b);
    ThenReaches(s, mid, t);
  }

  lemma CallFails(s: State)
    requires s.current.Some? && s.quorum >= 1
    ensures Reaches(s, s.(current := None, dispatchLsn := End(s.current.value)))
  {
    var t := s.(current := None, dispatchLsn := End(s.current.value));
    var got: map<nat, Reply> := map[];
    assert AckMap(got, End(s.current.value)) == map[];
    assert Complete(s, t, got, 0);
    OneStep(s, t);
  }

  lemma RoundNodes(s0: State, s: State, t: State, some: set<nat>, who: set<nat>, a: PageWrite, lsn: nat, bound: nat)
    requires Round(s0, s, some, a, lsn, bound)
    requires who == set i | i in some && i < |s.nodes| && |s.nodes[i].log| == lsn
    requires |t.nodes| == |s.nodes|
    requires forall i :: 0 <= i < |s.nodes| && i !in who ==> t.nodes[i] == s.nodes[i]
    requires forall i :: 0 <= i < |s.nodes| && i in who ==>
               t.nodes[i] == LoggedAt(s.nodes[i], RoundBatch(a, lsn, bound))
    requires some <= Reaching(s0.nodes, s0.durable) && s0.durable <= lsn
    ensures IdsBelow(t.nodes, bound + lsn + 1)
    ensures forall i :: 0 <= i < |t.nodes| ==> NodeAt(t.nodes[i], s0.nodes[i], i in some, lsn + 1)
  {
    forall i | 0 <= i < |t.nodes| ensures NodeAt(t.nodes[i], s0.nodes[i], i in some, lsn + 1) {
      assert NodeAt(s.nodes[i], s0.nodes[i], i in some, lsn);
    }
  }

  lemma NextRound(s0: State, s: State, common: seq<PageWrite>, some: set<nat>, a: PageWrite, lsn: nat, bound: nat)
    returns (t: State)
    requires Ahead(s0, common, some, a) && Round(s0, s, some, a, lsn, bound) && bound >= 1 && s0.durable <= lsn
    ensures Reaches(s, t) && Round(s0, t, some, a, lsn + 1, bound)
  {
    hide Reaches, NodeAt, IdsBelow, LoggedAt;
    var b := RoundBatch(a, lsn, bound);
    var who := set i | i in some && i < |s.nodes| && |s.nodes[i].log| == lsn;
    var mid := RoundHeard(s0, s, some, who, a, lsn, bound);
    CallFails(mid);
    t := mid.(current := None, dispatchLsn := lsn + 1);
    ThenReaches(s, mid, t);
    RoundNodes(s0, s, t, some, who, a, lsn, bound);
  }

  lemma {:induction false} Rounds(s0: State, common: seq<PageWrite>, some: set<nat>, a: PageWrite, lsn: nat, bound: nat)
    returns (t: State)
    requires Ahead(s0, common, some, a) && bound >= 1 && IdsBelow(s0.nodes, bound) && s0.durable <= lsn
    ensures Reaches(s0, t) && Round(s0, t, some, a, lsn, bound)
    decreases lsn
  {
    hide Reaches, Round, IdsBelow, Connect;
    if lsn == s0.durable {
      RoundStarts(s0, common, some, a, bound);
      t := s0;
      NoStep(s0);
    } else {
      var s := Rounds(s0, common, some, a, lsn - 1, bound);
      t := NextRound(s0, s, common, some, a, lsn - 1, bound);
      ThenReaches(s0, s, t);
    }
  }

  // ---- The round a quorum hears ----

  lemma CallSucceeds(s: State, b: Batch, who: set<nat>)
    requires s.current == Some(b) && |who| == s.quorum >= 1 && End(b) > s.durable
    requires forall i :: i in who ==> Reply(i, b.start, End(b), End(b)) in s.replies
    ensures Reaches(s, s.(current := None, dispatchLsn := End(b), durable := End(b), returned := s.returned + {End(b)}))
  {
    var end := End(b);
    var t := s.(current := None, dispatchLsn := end, durable := end, returned := s.returned + {end});
    var got: map<nat, Reply> := map i | i in who :: Reply(i, b.start, end, end);
    var acks := AckMap(got, end);
    assert acks.Keys == who && |acks| == |acks.Keys|;
    assert AtLeast(acks, end) == who && AtLeast(acks, end + 1) == {};
    assert Complete(s, t, got, end);
    OneStep(s, t);
  }

  /** The nodes past the start hold another record there, so they hold nothing dispatched since. */
  lemma FewHold(s0: State, s: State, t: State, common: seq<PageWrite>, some: set<nat>, a: PageWrite, bound: nat, p: nat)
    requires Ahead(s0, common, some, a) && Round(s0, s, some, a, |common|, bound)
    requires |t.nodes| == |s.nodes| && t.quorum == s0.quorum && t.sent == s.sent + [a]
    requires forall i :: 0 <= i < |s.nodes| ==> s.nodes[i].log <= t.nodes[i].log
    requires forall i :: 0 <= i < |s.nodes| && i !in some ==> t.nodes[i] == s.nodes[i]
    requires p in Reaching(s0.nodes, s0.durable + 1)
    ensures !Covered(t, |common| + 1)
  {
    var lsn := |common| + 1;
    var full := set i | 0 <= i < |t.nodes| && t.sent[..lsn] <= t.nodes[i].log;
    forall i | i in full ensures i in some - {p} {
      assert NodeAt(s.nodes[i], s0.nodes[i], i in some, |common|);
      assert NodeStart(s0.nodes[i]) && s0.nodes[i].log <= common;
      assert t.sent[..lsn][s0.durable] == a;
      assert t.nodes[i].log[s0.durable] == a;
    }
    SubsetSize(full, some - {p});
  }

  /** A node past the start LSN is enough: some run returns a commit LSN that fewer than a quorum hold. */
  lemma AheadLosesACommit(s0: State, common: seq<PageWrite>) returns (t: State)
    requires Connect(s0, common) && !NonePast(s0)
    ensures Reaches(s0, t) && |common| + 1 in t.returned && !Covered(t, |common| + 1)
  {
    var past := Reaching(s0.nodes, s0.durable + 1);
    var p :| 0 <= p < |s0.nodes| && |s0.nodes[p].log| > s0.durable;
    assert p in past && s0.nodes[p].log <= common;
    var some := Between(past, Reaching(s0.nodes, s0.durable), s0.quorum);
    var a := PageWrite(common[s0.durable].page + 1, common[s0.durable].image);
    var known := KnownIdsBound(s0.nodes);
    var bound := known + 1;
    assert Ahead(s0, common, some, a);
    t := LastRound(s0, common, some, a, bound, p);
  }

  lemma LastRound(s0: State, common: seq<PageWrite>, some: set<nat>, a: PageWrite, bound: nat, p: nat)
    returns (t: State)
    requires Ahead(s0, common, some, a) && bound >= 1 && IdsBelow(s0.nodes, bound)
    requires p in Reaching(s0.nodes, s0.durable + 1)
    ensures Reaches(s0, t) && |common| + 1 in t.returned && !Covered(t, |common| + 1)
  {
    hide Reaches, IdsBelow, Covered;
    var lsn := |common|;
    var b := RoundBatch(a, lsn, bound);
    var s := Rounds(s0, common, some, a, lsn, bound);
    forall i | i in some ensures i < |s.nodes| && |s.nodes[i].log| == lsn {
      assert NodeAt(s.nodes[i], s0.nodes[i], true, lsn) && s0.nodes[i].log <= common;
    }
    var mid := RoundHeard(s0, s, some, some, a, lsn, bound);
    CallSucceeds(mid, b, some);
    t := mid.(current := None, dispatchLsn := lsn + 1, durable := lsn + 1, returned := mid.returned + {lsn + 1});
    ThenReaches(s0, s, mid);
    ThenReaches(s0, mid, t);
    FewHold(s0, s, t, common, some, a, bound, p);
  }

  /**
   * From a given connection, every commit LSN returned in any run is held by a quorum of nodes if
   * and only if no node's log starts past the start LSN.
   */
  lemma CoveredExactlyWhenNonePast(s: State, common: seq<PageWrite>)
    requires Connect(s, common)
    ensures (forall tr: seq<State>, k: nat, lsn :: Run(tr) && tr[0] == s && k < |tr| && lsn in tr[k].returned ==>
               Covered(tr[k], lsn))
            <==> NonePast(s)
  {
    hide Next, Connect, Covered, NonePast;
    if NonePast(s) {
      forall tr: seq<State>, k: nat, lsn | Run(tr) && tr[0] == s && k < |tr| && lsn in tr[k].returned
        ensures Covered(tr[k], lsn)
      {
        RunSafe(tr, common, k);
      }
    } else {
      var t := AheadLosesACommit(s, common);
      var tr: seq<State> :| Run(tr) && tr[0] == s && tr[|tr| - 1] == t;
      var k: nat := |tr| - 1;
      assert |common| + 1 in tr[k].returned && !Covered(tr[k], |common| + 1);
    }
  }

  // ---- Such a connection exists ----

  ghost function Idle(log: seq<PageWrite>): Node {
    Node(|log|, log, [], {}, map[])
  }

  /** Two nodes, quorum two, one a record ahead: LSN 2 comes back although one node holds both records. */
  lemma NodeAheadLosesARecord(x: PageWrite)
    ensures exists s, t :: Connect(s, [x]) && !NonePast(s) && Reaches(s, t) && 2 in t.returned && !Covered(t, 2)
  {
    var s := State([Idle([]), Idle([x])], 2, 0, 0, 0, map[], None, {}, {}, [], {});
    assert Reaching(s.nodes, 0) == {0, 1};
    assert Reaching(s.nodes, 1) == {1};
    assert [x][..0] == [];
    assert |s.nodes[1].log| == 1;
    hide Reaches, Covered;
    var t := AheadLosesACommit(s, [x]);
  }
}
