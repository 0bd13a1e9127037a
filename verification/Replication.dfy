/**
 * The replication protocol between the compute sequencer (src/compute_sequencer.rs) and the
 * storage nodes (src/node.rs, src/node_wal_writer.rs), as a state machine. Requests may be
 * delivered late, even after the sequencer gave up on them, or never; nodes may reject for any
 * reason; log writes may fail; replies may be lost.
 */
module Replication {
  import opened Bytes

  datatype PageWrite = PageWrite(page: nat, image: seq<Byte>)

  datatype Batch = Batch(rid: nat, start: nat, recs: seq<PageWrite>)

  function End(b: Batch): nat { b.start + |b.recs| }

  /**
   * A node: its durable LSN, the flushed log, validated batches waiting for the log writer,
   * flushed batches not yet answered, and the commit LSN per request id.
   */
  datatype Node = Node(durable: nat, log: seq<PageWrite>, queue: seq<Batch>, done: set<Batch>,
                       index: map<nat, nat>)

  // The answer of node `node` to the batch that starts at `start`.
  datatype Reply = Reply(node: nat, start: nat, commit: nat, durable: nat)

  datatype Request = Request(node: nat, batch: Batch)

  /**
   * `sent` is all that was ever dispatched, on top of the log the nodes had in common;
   * `returned` holds the commit LSNs given to callers.
   */
  datatype State = State(nodes: seq<Node>, quorum: nat,
                         nextLsn: nat, dispatchLsn: nat, durable: nat, reserved: map<nat, nat>,
                         current: Option<Batch>, inbox: set<Request>, replies: set<Reply>,
                         sent: seq<PageWrite>, returned: set<nat>)

  const MAX_WRITES_PER_TXN := 256

  // ---- Steps of the sequencer ----

  ghost predicate Reserve(s: State, t: State, n: nat, rid: nat) {
    && 1 <= n <= MAX_WRITES_PER_TXN && rid != 0
    && t == s.(nextLsn := s.nextLsn + n, reserved := s.reserved[s.nextLsn := n])
  }

  /** The wait loop lets a batch out only when everything reserved before it is over. */
  ghost predicate Dispatch(s: State, t: State, b: Batch) {
    && s.current == None && b.start == s.dispatchLsn
    && b.start in s.reserved && s.reserved[b.start] == |b.recs|
    && t == s.(current := Some(b), reserved := s.reserved - {b.start},
               inbox := s.inbox + (set i | 0 <= i < |s.nodes| :: Request(i, b)),
               sent := s.sent + b.recs)
  }

  /** What one reply is worth: the commit LSN, or else the durable LSN, if either reaches `end`. */
  function Ack(r: Reply, end: nat): Option<nat> {
    if r.commit >= end then Some(r.commit) else if r.durable >= end then Some(r.durable) else None
  }

  ghost predicate AcksOf(got: map<nat, Reply>, replies: set<Reply>, start: nat) {
    forall i :: i in got ==> got[i] in replies && got[i].node == i && got[i].start == start
  }

  function AckMap(got: map<nat, Reply>, end: nat): map<nat, nat> {
    map i | i in got && Ack(got[i], end).Some? :: Ack(got[i], end).value
  }

  ghost function AtLeast(m: map<nat, nat>, x: nat): set<nat> {
    set i | i in m && m[i] >= x
  }

  /** `x` is the `q`-th largest value of `m`. */
  ghost predicate IsQuorumth(m: map<nat, nat>, q: nat, x: nat) {
    |AtLeast(m, x)| >= q && |AtLeast(m, x + 1)| < q
  }

  /** All calls have come back, `got` being those that came back with a reply; the rest failed. */
  ghost predicate Complete(s: State, t: State, got: map<nat, Reply>, q: nat) {
    && s.current.Some?
    && AcksOf(got, s.replies, s.current.value.start)
    && var end := End(s.current.value);
    && var acks := AckMap(got, end);
    if |acks| < s.quorum then
      t == s.(current := None, dispatchLsn := end)
    else
      && IsQuorumth(acks, s.quorum, q)
      && t == s.(current := None, dispatchLsn := end,
                 durable := if q > s.durable then q else s.durable,
                 returned := s.returned + {end})
  }

  // ---- Steps of a node ----

  /** A known request id is answered from the index. */
  ghost predicate ReceiveKnown(s: State, t: State, i: nat, b: Batch) {
    && i < |s.nodes| && Request(i, b) in s.inbox && b.rid in s.nodes[i].index
    && t == s.(inbox := s.inbox - {Request(i, b)},
               replies := s.replies + {Reply(i, b.start, s.nodes[i].index[b.rid], s.nodes[i].durable)})
  }

  ghost predicate ReceiveReject(s: State, t: State, i: nat, b: Batch) {
    Request(i, b) in s.inbox && t == s.(inbox := s.inbox - {Request(i, b)})
  }

  /** Validation compares the batch with the durable LSN only, not with what is queued. */
  ghost predicate ReceiveAccept(s: State, t: State, i: nat, b: Batch) {
    && i < |s.nodes| && Request(i, b) in s.inbox && b.start == s.nodes[i].durable
    && t == s.(inbox := s.inbox - {Request(i, b)},
               nodes := s.nodes[i := s.nodes[i].(queue := s.nodes[i].queue + [b])])
  }

  function Flat(bs: seq<Batch>): seq<PageWrite> {
    if bs == [] then [] else Flat(bs[..|bs| - 1]) + bs[|bs| - 1].recs
  }

  function MaxEnd(bs: seq<Batch>): nat {
    if bs == [] then 0
    else
      var m := MaxEnd(bs[..|bs| - 1]);
      if End(bs[|bs| - 1]) > m then End(bs[|bs| - 1]) else m
  }

  /** The log writer takes a group off the queue, appends it, flushes, and stores the largest end LSN. */
  ghost predicate WriteGroup(s: State, t: State, i: nat, k: nat) {
    && i < |s.nodes| && 1 <= k <= |s.nodes[i].queue|
    && var n := s.nodes[i];
    var group := n.queue[..k];
    t == s.(nodes := s.nodes[i := n.(log := n.log + Flat(group), durable := MaxEnd(group),
                                     queue := n.queue[k..], done := n.done + (set b | b in group))])
  }

  ghost predicate WriteFails(s: State, t: State, i: nat, k: nat) {
    && i < |s.nodes| && 1 <= k <= |s.nodes[i].queue|
    && t == s.(nodes := s.nodes[i := s.nodes[i].(queue := s.nodes[i].queue[k..])])
  }

  ghost predicate Answer(s: State, t: State, i: nat, b: Batch) {
    && i < |s.nodes| && b in s.nodes[i].done
    && var n := s.nodes[i];
    t == s.(nodes := s.nodes[i := n.(done := n.done - {b}, index := n.index[b.rid := End(b)])],
            replies := s.replies + {Reply(i, b.start, End(b), n.durable)})
  }

  ghost predicate Next(s: State, t: State) {
    || (exists n, rid :: Reserve(s, t, n, rid))
    || (exists b :: Dispatch(s, t, b))
    || (exists got, q :: Complete(s, t, got, q))
    || (exists i, b :: ReceiveKnown(s, t, i, b) || ReceiveReject(s, t, i, b) || ReceiveAccept(s, t, i, b))
    || (exists i, k :: WriteGroup(s, t, i, k) || WriteFails(s, t, i, k))
    || (exists i, b :: Answer(s, t, i, b))
  }

  // ---- Start ----

  ghost predicate NodeStart(n: Node) {
    n.durable == |n.log| && n.queue == [] && n.done == {} && forall r :: r in n.index ==> n.index[r] <= |n.log|
  }

  /** The nodes whose log reaches `lsn`. */
  ghost function Reaching(nodes: seq<Node>, lsn: nat): set<nat> {
    set i | 0 <= i < |nodes| && |nodes[i].log| >= lsn
  }

  /**
   * The sequencer connects: it starts at the quorum-th largest durable LSN of the nodes, whose
   * logs are prefixes of one common log.
   */
  ghost predicate Connect(s: State, common: seq<PageWrite>) {
    && 1 <= s.quorum <= |s.nodes|
    && (forall i :: 0 <= i < |s.nodes| ==> NodeStart(s.nodes[i]) && s.nodes[i].log <= common)
    && s.durable <= |common|
    && |Reaching(s.nodes, s.durable)| >= s.quorum
    && |Reaching(s.nodes, s.durable + 1)| < s.quorum
    && s == State(s.nodes, s.quorum, s.durable, s.durable, s.durable, map[], None, {}, {},
                  common[..s.durable], {})
  }

  ghost predicate NonePast(s: State) {
    forall i :: 0 <= i < |s.nodes| ==> |s.nodes[i].log| <= s.durable
  }

  // ---- Invariant ----

  ghost predicate InLog(b: Batch, sent: seq<PageWrite>) {
    b.recs != [] && End(b) <= |sent| && sent[b.start..End(b)] == b.recs
  }

  ghost predicate NodeOk(n: Node, sent: seq<PageWrite>) {
    && n.durable == |n.log| && n.log <= sent
    && |n.queue| <= 1
    && (n.queue != [] ==> InLog(n.queue[0], sent) && n.queue[0].start == |n.log|)
    && (forall b :: b in n.done ==> End(b) <= |n.log|)
    && (forall r :: r in n.index ==> n.index[r] <= |n.log|)
  }

  ghost predicate NodesOk(s: State) {
    forall i :: 0 <= i < |s.nodes| ==> NodeOk(s.nodes[i], s.sent)
  }

  ghost predicate InboxOk(s: State) {
    && (forall r :: r in s.inbox ==> r.node < |s.nodes| && InLog(r.batch, s.sent))
    && (forall r, u :: r in s.inbox && u in s.inbox && r.node == u.node && r.batch.start == u.batch.start ==> r == u)
    && (forall r :: r in s.inbox && s.nodes[r.node].queue != [] ==>
          s.nodes[r.node].queue[0].start != r.batch.start)
  }

  ghost predicate RepliesOk(s: State) {
    forall r :: r in s.replies ==>
      r.node < |s.nodes| && r.commit <= |s.nodes[r.node].log| && r.durable <= |s.nodes[r.node].log|
  }

  ghost predicate SequencerOk(s: State) {
    && s.quorum >= 1
    && |s.sent| == (if s.current.Some? then End(s.current.value) else s.dispatchLsn)
    && (s.current.Some? ==> s.current.value.start == s.dispatchLsn && s.current.value.recs != [])
    && (forall a :: a in s.reserved ==> s.reserved[a] >= 1)
  }

  /** At least a quorum of nodes holds the whole log up to `lsn`. */
  ghost predicate Covered(s: State, lsn: nat) {
    lsn <= |s.sent| && |set i | 0 <= i < |s.nodes| && s.sent[..lsn] <= s.nodes[i].log| >= s.quorum
  }

  ghost predicate Reached(s: State, lsn: nat) {
    |Reaching(s.nodes, lsn)| >= s.quorum
  }

  ghost predicate Inv(s: State) {
    && SequencerOk(s) && NodesOk(s) && InboxOk(s) && RepliesOk(s)
    && Reached(s, s.durable)
    && (forall lsn :: lsn in s.returned ==> Reached(s, lsn))
  }

  // ---- Every step keeps it ----

  ghost predicate LogsGrow(s: State, t: State) {
    && |t.nodes| == |s.nodes| && t.quorum == s.quorum
    && (forall i :: 0 <= i < |s.nodes| ==> |t.nodes[i].log| >= |s.nodes[i].log|)
  }

  lemma ReachedStays(s: State, t: State, lsn: nat)
    requires LogsGrow(s, t) && Reached(s, lsn)
    ensures Reached(t, lsn)
  {
    SubsetSize(Reaching(s.nodes, lsn), Reaching(t.nodes, lsn));
  }

  lemma ReachedAll(s: State, t: State)
    requires LogsGrow(s, t) && Inv(s) && t.durable == s.durable && t.returned == s.returned
    ensures Reached(t, t.durable) && forall lsn :: lsn in t.returned ==> Reached(t, lsn)
  {
    hide NodesOk, InboxOk, RepliesOk, SequencerOk, Reached;
    ReachedStays(s, t, s.durable);
    forall lsn | lsn in s.returned ensures Reached(t, lsn) {
      ReachedStays(s, t, lsn);
    }
  }

  lemma DispatchKeeps(s: State, t: State, b: Batch)
    requires Inv(s) && Dispatch(s, t, b)
    ensures Inv(t)
  {
    ReachedAll(s, t);
    hide Reached;
    assert s.sent <= t.sent;
    assert InLog(b, t.sent);
    forall r | r in t.inbox ensures r.node < |t.nodes| && InLog(r.batch, t.sent) {
      if r in s.inbox {
        assert t.sent[r.batch.start..End(r.batch)] == s.sent[r.batch.start..End(r.batch)];
      }
    }
    forall i | 0 <= i < |t.nodes| ensures NodeOk(t.nodes[i], t.sent) {
      assert NodeOk(s.nodes[i], s.sent);
      if s.nodes[i].queue != [] {
        var q := s.nodes[i].queue[0];
        assert t.sent[q.start..End(q)] == s.sent[q.start..End(q)];
      }
    }
    forall r | r in t.inbox && t.nodes[r.node].queue != []
      ensures t.nodes[r.node].queue[0].start != r.batch.start
    {
      assert NodeOk(s.nodes[r.node], s.sent);
    }
  }

  lemma LowerTie(m: map<nat, nat>, low: nat, x: nat)
    requires x < low && forall i :: i in m ==> m[i] >= low
    ensures AtLeast(m, x + 1) == AtLeast(m, x)
  {
  }

  /** The quorum-th largest ack has been reached by a quorum of nodes. */
  lemma AcksReached(s: State, got: map<nat, Reply>, start: nat, end: nat, q: nat)
    requires RepliesOk(s) && AcksOf(got, s.replies, start) && IsQuorumth(AckMap(got, end), s.quorum, q)
    ensures Reached(s, q) && q >= end
  {
    var acks := AckMap(got, end);
    VotersReach(s, got, start, end, q);
    SubsetSize(AtLeast(acks, q), Reaching(s.nodes, q));
    hide AtLeast, Reaching;
    if q < end {
      LowerTie(acks, end, q);
    }
  }

  lemma VotersReach(s: State, got: map<nat, Reply>, start: nat, end: nat, q: nat)
    requires RepliesOk(s) && AcksOf(got, s.replies, start)
    ensures AtLeast(AckMap(got, end), q) <= Reaching(s.nodes, q)
  {
    forall i | i in AtLeast(AckMap(got, end), q) ensures i in Reaching(s.nodes, q) {
      assert got[i] in s.replies;
    }
  }

  lemma ReachedBelow(s: State, a: nat, b: nat)
    requires Reached(s, b) && a <= b
    ensures Reached(s, a)
  {
    SubsetSize(Reaching(s.nodes, b), Reaching(s.nodes, a));
  }

  lemma SameNet(s: State, t: State)
    requires NodesOk(s) && InboxOk(s) && RepliesOk(s)
    requires t.nodes == s.nodes && t.inbox == s.inbox && t.replies == s.replies && t.sent == s.sent
    ensures NodesOk(t) && InboxOk(t) && RepliesOk(t)
  {
    hide NodeOk, InLog;
  }

  lemma CompleteKeeps(s: State, t: State, got: map<nat, Reply>, q: nat)
    requires Inv(s) && Complete(s, t, got, q)
    ensures Inv(t)
  {
    hide Reached, NodesOk, InboxOk, RepliesOk, IsQuorumth, AckMap, AcksOf;
    SameNet(s, t);
    SameNodes(s, t);
    var end := End(s.current.value);
    if |AckMap(got, end)| >= s.quorum {
      AcksReached(s, got, s.current.value.start, end, q);
      ReachedBelow(s, end, q);
    }
  }

  lemma SameNodes(s: State, t: State)
    requires s.nodes == t.nodes && s.quorum == t.quorum
    ensures forall lsn :: Reached(s, lsn) ==> Reached(t, lsn)
  {
  }

  lemma ReceiveKeeps(s: State, t: State, i: nat, b: Batch)
    requires Inv(s)
    requires ReceiveKnown(s, t, i, b) || ReceiveReject(s, t, i, b) || ReceiveAccept(s, t, i, b)
    ensures Inv(t)
  {
    ReachedAll(s, t);
    hide Reached, InLog;
    assert NodeOk(s.nodes[i], s.sent);
    if ReceiveAccept(s, t, i, b) {
      assert s.nodes[i].queue == [];
      forall j | 0 <= j < |t.nodes| ensures NodeOk(t.nodes[j], t.sent) {
        assert NodeOk(s.nodes[j], s.sent);
      }
    }
  }

  /** The queue holds the one batch that follows the log, so a group is that batch. */
  lemma GroupIsNext(n: Node, sent: seq<PageWrite>, k: nat)
    requires NodeOk(n, sent) && 1 <= k <= |n.queue|
    ensures k == 1 && n.queue[k..] == [] && InLog(n.queue[0], sent)
    ensures n.log + Flat(n.queue[..k]) == sent[..End(n.queue[0])]
    ensures MaxEnd(n.queue[..k]) == End(n.queue[0])
  {
    var b := n.queue[0];
    assert n.queue[..k] == [b];
    assert Flat([b]) == b.recs && MaxEnd([b]) == End(b);
    assert sent[..End(b)] == sent[..b.start] + sent[b.start..End(b)];
    assert n.log == sent[..b.start];
  }

  lemma WriteKeeps(s: State, t: State, i: nat, k: nat)
    requires Inv(s) && (WriteGroup(s, t, i, k) || WriteFails(s, t, i, k))
    ensures Inv(t)
  {
    hide Reached, InLog, Flat, MaxEnd;
    var n := s.nodes[i];
    assert NodeOk(n, s.sent);
    GroupIsNext(n, s.sent, k);
    assert forall b :: b in n.queue[..k] ==> b == n.queue[0];
    assert NodeOk(t.nodes[i], t.sent);
    ReachedAll(s, t);
    forall j | 0 <= j < |t.nodes| ensures NodeOk(t.nodes[j], t.sent) {
      assert NodeOk(s.nodes[j], s.sent);
    }
  }

  lemma AnswerKeeps(s: State, t: State, i: nat, b: Batch)
    requires Inv(s) && Answer(s, t, i, b)
    ensures Inv(t)
  {
    ReachedAll(s, t);
    hide Reached, InLog;
    forall j | 0 <= j < |t.nodes| ensures NodeOk(t.nodes[j], t.sent) {
      assert NodeOk(s.nodes[j], s.sent);
    }
  }

  lemma ReserveKeeps(s: State, t: State, n: nat, rid: nat)
    requires Inv(s) && Reserve(s, t, n, rid)
    ensures Inv(t)
  {
    ReachedAll(s, t);
    hide Reached, InLog, NodeOk;
  }

  lemma NextKeeps(s: State, t: State)
    requires Inv(s) && Next(s, t)
    ensures Inv(t)
  {
    hide Inv, Reserve, Dispatch, Complete, ReceiveKnown, ReceiveReject, ReceiveAccept, WriteGroup, WriteFails, Answer;
    if n, rid :| Reserve(s, t, n, rid) {
      ReserveKeeps(s, t, n, rid);
    } else if b :| Dispatch(s, t, b) {
      DispatchKeeps(s, t, b);
    } else if got, q :| Complete(s, t, got, q) {
      CompleteKeeps(s, t, got, q);
    } else if i, b :| ReceiveKnown(s, t, i, b) || ReceiveReject(s, t, i, b) || ReceiveAccept(s, t, i, b) {
      ReceiveKeeps(s, t, i, b);
    } else if i, k :| WriteGroup(s, t, i, k) || WriteFails(s, t, i, k) {
      WriteKeeps(s, t, i, k);
    } else {
      var i, b :| Answer(s, t, i, b);
      AnswerKeeps(s, t, i, b);
    }
  }

  // ---- Whole runs ----

  ghost predicate Run(tr: seq<State>) {
    tr != [] && forall i :: 0 <= i < |tr| - 1 ==> Next(tr[i], tr[i + 1])
  }

  lemma ConnectStarts(s: State, common: seq<PageWrite>)
    requires Connect(s, common) && NonePast(s)
    ensures Inv(s)
  {
    forall i | 0 <= i < |s.nodes| ensures NodeOk(s.nodes[i], s.sent) {
      assert NodeStart(s.nodes[i]) && s.nodes[i].log <= common;
    }
  }

  lemma {:induction false} RunKeeps(tr: seq<State>, common: seq<PageWrite>, k: nat)
    requires Run(tr) && Connect(tr[0], common) && NonePast(tr[0]) && k < |tr|
    ensures Inv(tr[k])
    decreases k
  {
    if k == 0 {
      ConnectStarts(tr[0], common);
    } else {
      RunKeeps(tr, common, k - 1);
      assert Next(tr[k - 1], tr[k - 1 + 1]);
      NextKeeps(tr[k - 1], tr[k]);
    }
  }

  lemma ReachedIsCovered(s: State, lsn: nat)
    requires NodesOk(s) && Reached(s, lsn) && s.quorum >= 1
    ensures Covered(s, lsn)
  {
    var full := set i | 0 <= i < |s.nodes| && lsn <= |s.sent| && s.sent[..lsn] <= s.nodes[i].log;
    assert Reaching(s.nodes, lsn) <= full by {
      forall i | i in Reaching(s.nodes, lsn) ensures i in full {
        assert NodeOk(s.nodes[i], s.sent);
      }
    }
    SubsetSize(Reaching(s.nodes, lsn), full);
    assert Reaching(s.nodes, lsn) != {};
    var i :| i in Reaching(s.nodes, lsn);
    assert NodeOk(s.nodes[i], s.sent);
    assert full == set i | 0 <= i < |s.nodes| && s.sent[..lsn] <= s.nodes[i].log;
  }

  /**
   * In every run that starts with no node past the start LSN, and whatever is lost or rejected:
   * every node's log is a gap-free prefix of what was dispatched, and both the durable LSN and
   * every commit LSN ever returned are covered by the full log on at least a quorum of nodes.
   */
  lemma RunSafe(tr: seq<State>, common: seq<PageWrite>, k: nat)
    requires Run(tr) && Connect(tr[0], common) && NonePast(tr[0]) && k < |tr|
    ensures forall i :: 0 <= i < |tr[k].nodes| ==>
              tr[k].nodes[i].log <= tr[k].sent && tr[k].nodes[i].durable == |tr[k].nodes[i].log|
    ensures Covered(tr[k], tr[k].durable)
    ensures forall lsn :: lsn in tr[k].returned ==> Covered(tr[k], lsn)
  {
    hide Covered, Reached;
    RunKeeps(tr, common, k);
    var s := tr[k];
    forall i | 0 <= i < |s.nodes| ensures s.nodes[i].log <= s.sent && s.nodes[i].durable == |s.nodes[i].log| {
      assert NodeOk(s.nodes[i], s.sent);
    }
    ReachedIsCovered(s, s.durable);
    forall lsn | lsn in s.returned ensures Covered(s, lsn) {
      ReachedIsCovered(s, lsn);
    }
  }

  /** What is dispatched, durable or returned stays so, and node logs only grow. */
  ghost predicate Grows(s: State, t: State) {
    && s.sent <= t.sent && s.durable <= t.durable && s.returned <= t.returned
    && |s.nodes| == |t.nodes|
    && (forall i :: 0 <= i < |s.nodes| ==> s.nodes[i].log <= t.nodes[i].log)
  }

  lemma NextGrows(s: State, t: State)
    requires Next(s, t)
    ensures Grows(s, t)
  {
    hide AckMap, AcksOf, Flat, MaxEnd, Reserve, ReceiveKnown, ReceiveReject, IsQuorumth;
    if n, rid :| Reserve(s, t, n, rid) {
      assert Grows(s, t) by { SameLogs(s, t, n, rid); }
    } else if b :| Dispatch(s, t, b) {
    } else if got, q :| Complete(s, t, got, q) {
    } else if i, b :| ReceiveKnown(s, t, i, b) || ReceiveReject(s, t, i, b) || ReceiveAccept(s, t, i, b) {
      if !ReceiveAccept(s, t, i, b) {
        SameLogsReceive(s, t, i, b);
      }
    } else if i, k :| WriteGroup(s, t, i, k) || WriteFails(s, t, i, k) {
    } else {
      var i, b :| Answer(s, t, i, b);
    }
  }

  lemma SameLogs(s: State, t: State, n: nat, rid: nat)
    requires Reserve(s, t, n, rid)
    ensures Grows(s, t)
  {
  }

  lemma SameLogsReceive(s: State, t: State, i: nat, b: Batch)
    requires ReceiveKnown(s, t, i, b) || ReceiveReject(s, t, i, b)
    ensures Grows(s, t)
  {
  }

  lemma {:induction false} RunGrows(tr: seq<State>, j: nat, k: nat)
    requires Run(tr) && j <= k < |tr|
    ensures Grows(tr[j], tr[k])
    decreases k
  {
    hide Next, Grows;
    if j < k {
      RunGrows(tr, j, k - 1);
      assert Next(tr[k - 1], tr[k - 1 + 1]);
      NextGrows(tr[k - 1], tr[k]);
      GrowsOn(tr[j], tr[k - 1], tr[k]);
    } else {
      GrowsOn(tr[j], tr[j], tr[j]);
    }
  }

  lemma GrowsOn(s: State, t: State, u: State)
    requires s == t == u || (Grows(s, t) && Grows(t, u))
    ensures Grows(s, u)
  {
  }
}
