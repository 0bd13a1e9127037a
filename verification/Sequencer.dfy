/** The sequencer's counters and its ack collection, and a storage node's admission check, as executed. */
module Sequencer {
  import opened Bytes
  import opened Params
  import opened Replication

  // ---- The quorum-th largest LSN ----

  ghost function CountAtLeast(s: seq<nat>, x: nat): (n: nat)
    ensures n <= |s|
  {
    if s == [] then 0
    else CountAtLeast(s[..|s| - 1], x) + (if s[|s| - 1] >= x then 1 else 0)
  }

  lemma {:induction false} CountConcat(a: seq<nat>, b: seq<nat>, x: nat)
    ensures CountAtLeast(a + b, x) == CountAtLeast(a, x) + CountAtLeast(b, x)
    decreases |b|
  {
    if b == [] {
      assert a + b == a;
    } else {
      CountConcat(a, b[..|b| - 1], x);
      assert (a + b)[..|a + b| - 1] == a + b[..|b| - 1];
    }
  }

  lemma CountSwap(s: seq<nat>, j: nat, x: nat)
    requires 0 < j < |s|
    ensures CountAtLeast(s[j := s[j - 1]][j - 1 := s[j]], x) == CountAtLeast(s, x)
  {
    var (p, q) := (s[..j - 1], s[j + 1..]);
    var t := s[j := s[j - 1]][j - 1 := s[j]];
    assert s == p + [s[j - 1], s[j]] + q && t == p + [s[j], s[j - 1]] + q;
    CountConcat(p + [s[j - 1], s[j]], q, x);
    CountConcat(p, [s[j - 1], s[j]], x);
    CountConcat(p + [s[j], s[j - 1]], q, x);
    CountConcat(p, [s[j], s[j - 1]], x);
    CountPair(s[j - 1], s[j], x);
  }

  lemma {:induction false} CountPair(a: nat, b: nat, x: nat)
    ensures CountAtLeast([a, b], x) == CountAtLeast([b, a], x)
  {
    CountConcat([a], [b], x);
    CountConcat([b], [a], x);
    assert [a] + [b] == [a, b] && [b] + [a] == [b, a];
  }

  ghost predicate Descending(s: seq<nat>) {
    forall i, j :: 0 <= i < j < |s| ==> s[i] >= s[j]
  }

  ghost predicate SameCounts(s: seq<nat>, t: seq<nat>) {
    |s| == |t| && forall x :: CountAtLeast(s, x) == CountAtLeast(t, x)
  }

  method SortDescending(a: array<nat>)
    modifies a
    ensures Descending(a[..]) && SameCounts(old(a[..]), a[..])
  {
    hide CountAtLeast;
    var n := 0;
    while n < a.Length
      invariant n <= a.Length && Descending(a[..n])
      invariant SameCounts(old(a[..]), a[..])
    {
      var k := n;
      while k > 0 && a[k - 1] < a[k]
        invariant k <= n < a.Length
        invariant SameCounts(old(a[..]), a[..])
        invariant forall i, j :: 0 <= i < j <= n && j != k ==> a[i] >= a[j]
      {
        ghost var s := a[..];
        forall x ensures CountAtLeast(s[k := s[k - 1]][k - 1 := s[k]], x) == CountAtLeast(s, x) {
          CountSwap(s, k, x);
        }
        a[k], a[k - 1] := a[k - 1], a[k];
        assert a[..] == s[k := s[k - 1]][k - 1 := s[k]];
        k := k - 1;
      }
      n := n + 1;
    }
    assert a[..n] == a[..];
  }

  /** `x` is the largest LSN that at least `q` of the values reach. */
  ghost predicate IsQth(s: seq<nat>, q: nat, x: nat) {
    CountAtLeast(s, x) >= q && CountAtLeast(s, x + 1) < q
  }

  lemma {:induction false} CountAll(s: seq<nat>, x: nat, all: bool)
    requires forall i :: 0 <= i < |s| ==> (s[i] >= x <==> all)
    ensures CountAtLeast(s, x) == if all then |s| else 0
  {
    if s != [] {
      CountAll(s[..|s| - 1], x, all);
    }
  }

  lemma PickIsQth(s: seq<nat>, q: nat)
    requires Descending(s) && 1 <= q <= |s|
    ensures IsQth(s, q, s[q - 1])
  {
    var x := s[q - 1];
    assert s == s[..q] + s[q..] && s == s[..q - 1] + s[q - 1..];
    CountConcat(s[..q], s[q..], x);
    CountAll(s[..q], x, true);
    CountConcat(s[..q - 1], s[q - 1..], x + 1);
    CountAll(s[q - 1..], x + 1, false);
  }

  /** Sorts the LSNs and picks the quorum-th; 0 when there are fewer. */
  method QuorumDurableLsn(lsns: array<nat>, quorum: nat) returns (x: nat)
    requires quorum >= 1
    modifies lsns
    ensures quorum <= lsns.Length ==> IsQth(old(lsns[..]), quorum, x)
    ensures quorum > lsns.Length ==> x == 0
  {
    hide CountAtLeast;
    SortDescending(lsns);
    if quorum <= lsns.Length {
      PickIsQth(lsns[..], quorum);
      x := lsns[quorum - 1];
    } else {
      x := 0;
    }
  }

  // ---- Collecting acks ----

  // A call's outcome: the node's commit and durable LSN, or an error.
  type Outcome = Option<(nat, nat)>

  function Worth(o: Outcome, end: nat): Option<nat> {
    match o
    case None => None
    case Some((commit, durable)) => Ack(Reply(0, 0, commit, durable), end)
  }

  function AckList(outcomes: seq<Outcome>, end: nat): seq<nat> {
    if outcomes == [] then []
    else
      var (rest, w) := (AckList(outcomes[..|outcomes| - 1], end), Worth(outcomes[|outcomes| - 1], end));
      if w.Some? then rest + [w.value] else rest
  }

  ghost function RepliesOf(outcomes: seq<Outcome>, start: nat): map<nat, Reply> {
    map i: nat | i < |outcomes| && outcomes[i].Some? ::
      Reply(i, start, outcomes[i].value.0, outcomes[i].value.1)
  }

  lemma AckMapPush(outcomes: seq<Outcome>, start: nat, end: nat)
    requires outcomes != []
    ensures var n := |outcomes| - 1;
            var (m, m0) := (AckMap(RepliesOf(outcomes, start), end), AckMap(RepliesOf(outcomes[..n], start), end));
            && n !in m0
            && m == if Worth(outcomes[n], end).Some? then m0[n := Worth(outcomes[n], end).value] else m0
  {
  }

  lemma AtLeastPush(m: map<nat, nat>, n: nat, v: nat, x: nat)
    requires n !in m
    ensures |AtLeast(m[n := v], x)| == |AtLeast(m, x)| + (if v >= x then 1 else 0)
    ensures |m[n := v]| == |m| + 1
  {
    assert AtLeast(m[n := v], x) == AtLeast(m, x) + (if v >= x then {n} else {});
    assert m[n := v].Keys == m.Keys + {n};
  }

  /** The list the loop collects counts the same as the acks of the protocol step. */
  lemma {:induction false} ListCountsAcks(outcomes: seq<Outcome>, start: nat, end: nat, x: nat)
    ensures CountAtLeast(AckList(outcomes, end), x) == |AtLeast(AckMap(RepliesOf(outcomes, start), end), x)|
    ensures |AckList(outcomes, end)| == |AckMap(RepliesOf(outcomes, start), end)|
  {
    if outcomes == [] {
      var m := AckMap(RepliesOf(outcomes, start), end);
      assert m == map[] && AtLeast(m, x) == {};
    } else {
      hide AckMap, RepliesOf, AtLeast;
      var n := |outcomes| - 1;
      var less := outcomes[..n];
      ListCountsAcks(less, start, end, x);
      AckMapPush(outcomes, start, end);
      var (rest, w) := (AckList(less, end), Worth(outcomes[n], end));
      if w.Some? {
        AtLeastPush(AckMap(RepliesOf(less, start), end), n, w.value, x);
        CountConcat(rest, [w.value], x);
      }
    }
  }

  /** What the code picks from the list is what the protocol step allows. */
  lemma {:induction false} PickIsQuorumth(outcomes: seq<Outcome>, start: nat, end: nat, q: nat, x: nat)
    ensures IsQth(AckList(outcomes, end), q, x) <==> IsQuorumth(AckMap(RepliesOf(outcomes, start), end), q, x)
  {
    ListCountsAcks(outcomes, start, end, x);
    ListCountsAcks(outcomes, start, end, x + 1);
  }

  /** The start LSN picked from the nodes' durable LSNs is the one the protocol starts from. */
  lemma {:induction false} StartIsReached(nodes: seq<Node>, lsns: seq<nat>, x: nat)
    requires |lsns| == |nodes| && forall i :: 0 <= i < |nodes| ==> lsns[i] == |nodes[i].log|
    ensures |Reaching(nodes, x)| == CountAtLeast(lsns, x)
  {
    if nodes == [] {
      assert Reaching(nodes, x) == {};
    } else {
      var n := |nodes| - 1;
      StartIsReached(nodes[..n], lsns[..n], x);
      assert Reaching(nodes, x) == Reaching(nodes[..n], x) + (if lsns[n] >= x then {n} else {});
    }
  }

  lemma {:induction false} AcksReachEnd(outcomes: seq<Outcome>, end: nat)
    ensures forall i :: 0 <= i < |AckList(outcomes, end)| ==> AckList(outcomes, end)[i] >= end
  {
    if outcomes != [] {
      AcksReachEnd(outcomes[..|outcomes| - 1], end);
    }
  }

  /**
   * The nodes whose ack reaches `x`: a node's ack is its commit LSN if that reaches the end of the
   * batch, else its durable LSN if that does, else nothing.
   */
  ghost function AckedPast(outcomes: seq<Outcome>, end: nat, x: nat): set<nat> {
    set i | 0 <= i < |outcomes| && outcomes[i].Some?
            && (if outcomes[i].value.0 >= end then outcomes[i].value.0 >= x
                else outcomes[i].value.1 >= end && outcomes[i].value.1 >= x)
  }

  lemma AckedNext(outcomes: seq<Outcome>, end: nat, x: nat)
    requires outcomes != []
    ensures var (n, w) := (|outcomes| - 1, Worth(outcomes[|outcomes| - 1], end));
            |AckedPast(outcomes, end, x)| ==
            |AckedPast(outcomes[..n], end, x)| + (if w.Some? && w.value >= x then 1 else 0)
  {
    var (n, w) := (|outcomes| - 1, Worth(outcomes[|outcomes| - 1], end));
    var less := AckedPast(outcomes[..n], end, x);
    assert n !in less;
    assert AckedPast(outcomes, end, x) == less + (if w.Some? && w.value >= x then {n} else {});
  }

  lemma {:induction false} AcksCounted(outcomes: seq<Outcome>, end: nat, x: nat)
    ensures CountAtLeast(AckList(outcomes, end), x) == |AckedPast(outcomes, end, x)|
  {
    hide Worth;
    if outcomes == [] {
      assert AckedPast(outcomes, end, x) == {};
    } else {
      hide AckedPast;
      var n := |outcomes| - 1;
      AcksCounted(outcomes[..n], end, x);
      AckedNext(outcomes, end, x);
      var (rest, w) := (AckList(outcomes[..n], end), Worth(outcomes[n], end));
      if w.Some? {
        assert (rest + [w.value])[..|rest|] == rest;
      }
    }
  }

  lemma {:induction false} AllAcksCounted(outcomes: seq<Outcome>, end: nat)
    ensures |AckList(outcomes, end)| == |AckedPast(outcomes, end, end)|
  {
    hide AckedPast, CountAtLeast, AckList;
    AcksCounted(outcomes, end, end);
    AcksReachEnd(outcomes, end);
    CountAll(AckList(outcomes, end), end, true);
  }

  // ---- Against the protocol ----

  /** The counters of the sequencer in a state of the protocol. */
  ghost predicate SequencerAt(s: State, next: nat, durable: nat, dispatch: nat, quorum: nat) {
    s.nextLsn == next && s.durable == durable && s.dispatchLsn == dispatch && s.quorum == quorum
  }

  ghost function Reserved(s: State, n: nat): State {
    s.(nextLsn := s.nextLsn + n, reserved := s.reserved[s.nextLsn := n])
  }

  lemma ReserveIsStep(s: State, n: nat, rid: nat)
    requires 1 <= n <= MAX_WRITES_PER_TXN && rid != 0
    ensures Next(s, Reserved(s, n))
  {
    hide Dispatch, Complete, ReceiveKnown, ReceiveReject, ReceiveAccept, WriteGroup, WriteFails, Answer;
    assert Replication.Reserve(s, Reserved(s, n), n, rid);
  }

  /** The outcomes of the calls for the batch in flight are replies the nodes gave, or failures. */
  ghost predicate Heard(s: State, outcomes: seq<Outcome>, end: nat) {
    && s.current.Some? && End(s.current.value) == end
    && forall i: nat :: i < |outcomes| && outcomes[i].Some? ==>
         Reply(i, s.current.value.start, outcomes[i].value.0, outcomes[i].value.1) in s.replies
  }

  ghost function Collected(s: State, end: nat, durable: nat, ok: bool): State {
    s.(current := None, dispatchLsn := end, durable := durable,
       returned := if ok then s.returned + {end} else s.returned)
  }

  lemma {:induction false} CollectIsStep(s: State, outcomes: seq<Outcome>, end: nat, durable: nat, x: nat)
    requires Heard(s, outcomes, end)
    requires |AckList(outcomes, end)| >= s.quorum ==> IsQth(AckList(outcomes, end), s.quorum, x)
    requires durable == if |AckList(outcomes, end)| >= s.quorum && x > s.durable then x else s.durable
    ensures Next(s, Collected(s, end, durable, |AckList(outcomes, end)| >= s.quorum))
  {
    hide Replication.Reserve, Dispatch, ReceiveKnown, ReceiveReject, ReceiveAccept, WriteGroup, WriteFails, Answer,
         AckList, AckMap, IsQth, IsQuorumth;
    var start := s.current.value.start;
    var got := RepliesOf(outcomes, start);
    ListCountsAcks(outcomes, start, end, 0);
    PickIsQuorumth(outcomes, start, end, s.quorum, x);
    assert Complete(s, Collected(s, end, durable, |AckList(outcomes, end)| >= s.quorum), got, x);
  }

  datatype Error = EmptyBatch | TooLarge(n: nat) | ZeroRequestId | StaleRange | QuorumNotReached(acks: nat)

  class ComputeSequencer {
    const quorum: nat
    var nextLsn: nat
    var durableLsn: nat
    var dispatchLsn: nat

    /** Connecting starts every counter at the quorum-th largest durable LSN of the nodes. */
    constructor (lsns: array<nat>, quorum: nat)
      requires 1 <= quorum <= lsns.Length
      modifies lsns
      ensures IsQth(old(lsns[..]), quorum, durableLsn)
      ensures nextLsn == dispatchLsn == durableLsn && this.quorum == quorum
    {
      var x := QuorumDurableLsn(lsns, quorum);
      this.quorum := quorum;
      nextLsn, durableLsn, dispatchLsn := x, x, x;
    }

    /** Hands out consecutive ranges: each starts where the one before ended. */
    method Reserve(n: nat, rid: nat) returns (r: Result<(nat, nat), Error>)
      modifies `nextLsn
      ensures r.Ok? <==> 1 <= n <= MAX_WRITES_PER_TXN && rid != 0
      ensures r.Ok? ==> r.value == (old(nextLsn), nextLsn) && nextLsn == old(nextLsn) + n
      ensures r.Err? ==> nextLsn == old(nextLsn)
      ensures n == 0 ==> r == Err(EmptyBatch)
      ensures n > MAX_WRITES_PER_TXN ==> r == Err(TooLarge(n))
      ensures 1 <= n <= MAX_WRITES_PER_TXN && rid == 0 ==> r == Err(ZeroRequestId)
      ensures r.Ok? ==>
                forall s :: SequencerAt(s, old(nextLsn), durableLsn, dispatchLsn, quorum) ==>
                  Next(s, Reserved(s, n)) && SequencerAt(Reserved(s, n), nextLsn, durableLsn, dispatchLsn, quorum)
    {
      hide Next;
      if n == 0 {
        return Err(EmptyBatch);
      }
      if n > MAX_WRITES_PER_TXN {
        return Err(TooLarge(n));
      }
      if rid == 0 {
        return Err(ZeroRequestId);
      }
      var start := nextLsn;
      nextLsn := start + n;
      r := Ok((start, nextLsn));
      forall s | SequencerAt(s, start, durableLsn, dispatchLsn, quorum) ensures Next(s, Reserved(s, n)) {
        ReserveIsStep(s, n, rid);
      }
    }

    /**
     * The end of a dispatch, from the outcome of the call to each node: it succeeds exactly when a
     * quorum of acks reaches the end of the batch, and only then moves the durable LSN, to the
     * quorum-th largest ack; either way the next range may go out.
     */
    method Collect(outcomes: seq<Outcome>, end: nat) returns (r: Result<nat, Error>)
      requires quorum >= 1
      modifies `durableLsn, `dispatchLsn
      ensures dispatchLsn == end
      ensures r.Ok? <==> |AckedPast(outcomes, end, end)| >= quorum
      ensures r.Ok? ==> r.value == end && durableLsn >= end
      ensures r.Ok? ==> exists x: nat ::
                && |AckedPast(outcomes, end, x)| >= quorum && |AckedPast(outcomes, end, x + 1)| < quorum
                && durableLsn == (if x > old(durableLsn) then x else old(durableLsn))
      ensures r.Err? ==>
                r.error == QuorumNotReached(|AckedPast(outcomes, end, end)|) && durableLsn == old(durableLsn)
      ensures forall s ::
                SequencerAt(s, nextLsn, old(durableLsn), old(dispatchLsn), quorum) && Heard(s, outcomes, end) ==>
                  Next(s, Collected(s, end, durableLsn, r.Ok?))
    {
      hide IsQth, Next, AckedPast;
      var acks, i := [], 0;
      assert outcomes[..0] == [];
      while i < |outcomes|
        invariant i <= |outcomes| && acks == AckList(outcomes[..i], end)
        invariant unchanged(this)
      {
        assert outcomes[..i + 1][..i] == outcomes[..i];
        match outcomes[i] {
          case Some((commit, durable)) =>
            if commit >= end {
              acks := acks + [commit];
            } else if durable >= end {
              acks := acks + [durable];
            }
          case None =>
        }
        i := i + 1;
      }
      assert outcomes[..i] == outcomes;
      AllAcksCounted(outcomes, end);
      ghost var was := dispatchLsn;
      dispatchLsn := end;
      if |acks| < quorum {
        forall s | SequencerAt(s, nextLsn, durableLsn, was, quorum) && Heard(s, outcomes, end)
          ensures Next(s, Collected(s, end, durableLsn, false))
        {
          CollectIsStep(s, outcomes, end, durableLsn, 0);
        }
        return Err(QuorumNotReached(|acks|));
      }
      var a := new nat[|acks|](j requires 0 <= j < |acks| => acks[j]);
      assert a[..] == acks;
      var x := QuorumDurableLsn(a, quorum);
      AcksReachEnd(outcomes, end);
      QthReaches(acks, quorum, x, end);
      QthCounted(outcomes, end, quorum, x);
      ghost var before := durableLsn;
      durableLsn := if x > durableLsn then x else durableLsn;
      r := Ok(end);
      forall s | SequencerAt(s, nextLsn, before, was, quorum) && Heard(s, outcomes, end)
        ensures Next(s, Collected(s, end, durableLsn, true))
      {
        CollectIsStep(s, outcomes, end, durableLsn, x);
      }
    }
  }

  lemma {:induction false} QthCounted(outcomes: seq<Outcome>, end: nat, q: nat, x: nat)
    requires IsQth(AckList(outcomes, end), q, x)
    ensures |AckedPast(outcomes, end, x)| >= q && |AckedPast(outcomes, end, x + 1)| < q
  {
    hide AckedPast, CountAtLeast, AckList;
    AcksCounted(outcomes, end, x);
    AcksCounted(outcomes, end, x + 1);
  }

  lemma QthReaches(s: seq<nat>, q: nat, x: nat, end: nat)
    requires IsQth(s, q, x) && q >= 1 && forall i :: 0 <= i < |s| ==> s[i] >= end
    ensures x >= end
  {
    if x < end {
      CountAll(s, x + 1, true);
      CountAll(s, x, true);
    }
  }

  // ---- A node's admission check ----

  datatype WalRecord = WalRecord(lsn: nat, write: PageWrite)

  datatype NodeError = EmptyWrites | EndMismatch | WrongPageSize | OutOfOrder | BadRange | BadLength | BadRecordLsn
                     | Backpressure

  method ValidateBatch(durable: nat, start: nat, end: nat, recs: seq<WalRecord>) returns (e: Option<NodeError>)
    ensures e == None <==> start == durable && end >= start && |recs| == end - start
                           && forall i :: 0 <= i < |recs| ==> recs[i].lsn == start + i
  {
    if start != durable {
      return Some(OutOfOrder);
    }
    if end < start {
      return Some(BadRange);
    }
    if |recs| != end - start {
      return Some(BadLength);
    }
    var i := 0;
    while i < |recs|
      invariant i <= |recs| && forall j :: 0 <= j < i ==> recs[j].lsn == start + j
    {
      if recs[i].lsn != start + i {
        return Some(BadRecordLsn);
      }
      i := i + 1;
    }
    e := None;
  }

  datatype Admission = Known(lsn: nat) | Rejected(error: NodeError) | Queued

  /** Node `i` of the protocol has a batch waiting, and is the storage node before it looks at it. */
  ghost predicate Waiting(s: State, i: nat, b: Batch, durable: nat, index: map<nat, nat>, queue: seq<Batch>) {
    && i < |s.nodes| && Request(i, b) in s.inbox
    && s.nodes[i].durable == durable && s.nodes[i].index == index && s.nodes[i].queue == queue
  }

  /** The node has answered from its index, rejected the batch or queued it. */
  ghost function Admitted(s: State, i: nat, b: Batch, a: Admission): State
    requires i < |s.nodes|
  {
    var t := s.(inbox := s.inbox - {Request(i, b)});
    match a
    case Known(lsn) => t.(replies := s.replies + {Reply(i, b.start, lsn, s.nodes[i].durable)})
    case Rejected(_) => t
    case Queued => t.(nodes := s.nodes[i := s.nodes[i].(queue := s.nodes[i].queue + [b])])
  }

  lemma AdmitIsStep(s: State, i: nat, b: Batch, a: Admission)
    requires i < |s.nodes| && Request(i, b) in s.inbox
    requires a.Known? ==> b.rid in s.nodes[i].index && a.lsn == s.nodes[i].index[b.rid]
    requires a.Queued? ==> b.start == s.nodes[i].durable
    ensures Next(s, Admitted(s, i, b, a))
  {
    hide Replication.Reserve, Dispatch, Complete, WriteGroup, WriteFails, Answer;
    var t := Admitted(s, i, b, a);
    assert ReceiveKnown(s, t, i, b) || ReceiveReject(s, t, i, b) || ReceiveAccept(s, t, i, b);
  }

  /** A storage node up to the point where a batch is handed to its log writer. */
  class StorageNode {
    var durable: nat
    var index: map<nat, nat>
    var queue: seq<Batch>

    /**
     * A batch is queued exactly when its request id is new, it is well formed, it starts at the
     * durable LSN and there is room in the log; then it is queued as the batch it was sent as.
     */
    method AppendTxnBatch(rid: nat, start: nat, end: nat, writes: seq<PageWrite>, room: bool)
      returns (r: Admission)
      modifies `queue
      ensures r.Known? <==> rid != 0 && rid in index
      ensures r.Known? ==> r.lsn == index[rid]
      ensures r.Queued? <==>
                && !(rid != 0 && rid in index) && writes != [] && end == start + |writes|
                && (forall i :: 0 <= i < |writes| ==> |writes[i].image| == PAGE_SIZE)
                && start == durable && room
      ensures queue == if r.Queued? then old(queue) + [Batch(rid, start, writes)] else old(queue)
      ensures forall s, i :: Waiting(s, i, Batch(rid, start, writes), durable, index, old(queue)) ==>
                             Next(s, Admitted(s, i, Batch(rid, start, writes), r))
    {
      hide Next, Admitted;
      r := Admit(rid, start, end, writes, room);
      forall s, i | Waiting(s, i, Batch(rid, start, writes), durable, index, queue)
        ensures Next(s, Admitted(s, i, Batch(rid, start, writes), r))
      {
        AdmitIsStep(s, i, Batch(rid, start, writes), r);
      }
      if r == Queued {
        queue := queue + [Batch(rid, start, writes)];
      }
    }

    method Admit(rid: nat, start: nat, end: nat, writes: seq<PageWrite>, room: bool) returns (r: Admission)
      ensures r.Known? <==> rid != 0 && rid in index
      ensures r.Known? ==> r.lsn == index[rid]
      ensures r.Queued? <==>
                && !(rid != 0 && rid in index) && writes != [] && end == start + |writes|
                && (forall i :: 0 <= i < |writes| ==> |writes[i].image| == PAGE_SIZE)
                && start == durable && room
    {
      if rid != 0 && rid in index {
        return Known(index[rid]);
      }
      if writes == [] {
        return Rejected(EmptyWrites);
      }
      if end != start + |writes| {
        return Rejected(EndMismatch);
      }
      var recs: seq<WalRecord>, i := [], 0;
      while i < |writes|
        invariant i == |recs| <= |writes|
        invariant forall j :: 0 <= j < i ==>
                    recs[j] == WalRecord(start + j, writes[j]) && |writes[j].image| == PAGE_SIZE
        invariant unchanged(this)
      {
        if |writes[i].image| != PAGE_SIZE {
          return Rejected(WrongPageSize);
        }
        recs := recs + [WalRecord(start + i, writes[i])];
        i := i + 1;
      }
      var e := ValidateBatch(durable, start, end, recs);
      if e.Some? {
        return Rejected(e.value);
      }
      if !room {
        return Rejected(Backpressure);
      }
      r := Queued;
    }
  }
}
