/** What an endpoint guarantees when nothing is assumed of its peer: arbitrary headers, in any order. */
module Faults {
  import opened Common
  import opened Packets
  import opened Windows
  import opened Merging
  import opened Endpoints
  import opened Reassembly
  import opened Nodes

  // --- Whole runs ----------------------------------------------------------------------------------

  ghost predicate IsNodeRun<D>(ext: (D, seq<D>) -> D, run: seq<Node<D>>, actions: seq<Action<D>>) {
    && |run| == |actions| + 1
    && forall i :: 0 <= i < |actions| ==> NodeFollows(ext, run[i], actions[i], run[i + 1])
  }

  ghost predicate NodeFollows<D>(ext: (D, seq<D>) -> D, n: Node<D>, a: Action<D>, n': Node<D>) {
    n.ep.Valid() && HasRoom(n, a) && n' == Act(ext, n, a)
  }

  lemma {:induction false} NodeRunKeepsInv<D>(ext: (D, seq<D>) -> D, run: seq<Node<D>>, actions: seq<Action<D>>, j: nat)
    requires IsNodeRun(ext, run, actions) && NodeInv(run[0]) && j < |run|
    ensures NodeInv(run[j])
    decreases j
  {
    if j > 0 {
      NodeRunKeepsInv(ext, run, actions, j - 1);
      NodeStepKeepsInv(ext, run, actions, j - 1);
    }
  }

  ghost predicate AdvancesAt<D>(run: seq<Node<D>>, i: nat)
    requires i + 1 < |run|
  {
    Advances(run[i], run[i + 1])
  }

  lemma {:induction false} AdvancesThroughout<D>(run: seq<Node<D>>, i: nat, j: nat)
    requires i <= j < |run| && forall k :: 0 <= k < |run| - 1 ==> AdvancesAt(run, k)
    ensures Advances(run[i], run[j])
    decreases j
  {
    if i < j {
      AdvancesThroughout(run, i, j - 1);
      assert AdvancesAt(run, j - 1);
      AdvancesTwice(run[i], run[j - 1], run[j]);
    }
  }

  lemma NodeRunAdvances<D>(ext: (D, seq<D>) -> D, run: seq<Node<D>>, actions: seq<Action<D>>, i: nat, j: nat)
    requires IsNodeRun(ext, run, actions) && NodeInv(run[0]) && i <= j < |run|
    ensures Advances(run[i], run[j])
  {
    forall k | 0 <= k < |run| - 1 ensures AdvancesAt(run, k) {
      NodeRunKeepsInv(ext, run, actions, k);
      NodeStepKeepsInv(ext, run, actions, k);
    }
    AdvancesThroughout(run, i, j);
  }

  lemma NodeStepKeepsInv<D>(ext: (D, seq<D>) -> D, run: seq<Node<D>>, actions: seq<Action<D>>, i: nat)
    requires IsNodeRun(ext, run, actions) && i < |actions| && NodeInv(run[i])
    ensures NodeInv(run[i + 1]) && Advances(run[i], run[i + 1])
  {
    assert NodeFollows(ext, run[i], actions[i], run[i + 1]);
    ActKeepsInv(ext, run[i], actions[i]);
  }

  lemma AdvancesTwice<D>(a: Node<D>, b: Node<D>, c: Node<D>)
    requires Advances(a, b) && Advances(b, c)
    ensures Advances(a, c)
  {
  }

  /**
   * In every state of every run: sequence numbers are handed out as 1, 2, 3, ... and the send window
   * has no holes; the packets given up by the receive window are exactly 1 .. ack - 1, in order, and
   * its front is a gap; an open merge can always be finished, and InvalidMergeState never occurs.
   */
  lemma AnyPeer<D>(ext: (D, seq<D>) -> D, cap: nat, merging: bool, run: seq<Node<D>>, actions: seq<Action<D>>, j: nat)
    requires 1 <= cap && IsNodeRun(ext, run, actions) && run[0] == NewNode(cap, merging) && j < |run|
    ensures var n := run[j];
            && Consecutive(n.log, 1) && Payloads(n.log) == Submitted(n.calls)
            && n.ep.NextSeqnum() == |n.log| + 1
            && n.ep.send.NoHoles() && |n.ep.send.data| <= cap
            && Consecutive(n.released, 1) && |n.released| == n.ep.AckSeqnum() - 1
            && n.ep.AckSeqnum() !in n.ep.recv.Contents() && |n.ep.recv.data| <= cap
            && MergeInv(n.ep.merge, n.ep.AckSeqnum(), cap)
            && InvalidMergeState !in n.errors
    ensures forall i :: 0 <= i <= j ==> run[i].ep.AckSeqnum() <= run[j].ep.AckSeqnum() && run[i].released <= run[j].released
  {
    NewNodeInv<D>(cap, merging);
    NodeRunKeepsInv(ext, run, actions, j);
    var n := run[j];
    LogNumbers(n.calls, n.log);
    EncodeCarriesSubmitted(n.calls);
    forall i | 0 <= i <= j ensures Advances(run[i], run[j]) { NodeRunAdvances(ext, run, actions, i, j); }
    assert Advances(run[0], run[j]);
    forall i | 0 <= i < |n.ep.send.data| ensures n.ep.send.data[i].Some? { assert HoldsLogged(n.ep.send, i, n.log); }
  }

  // --- Life after a merge conflict -------------------------------------------------------------------

  /** What an arriving packet does to the receive window: the packets it releases, and the reply when the merger has no say. */
  datatype Arrival<D> = Arrival(recv: Window<Packet<D>>, batch: seq<Packet<D>>, reply: Option<Result<seq<D>, ReceiveError>>)

  function Arrive<D>(recv: Window<Packet<D>>, p: Packet<D>): Arrival<D> {
    if p.header.ackNum.Some? then Arrival(recv, [], Some(Ok([])))
    else if p.header.seqnum.None? then Arrival(recv, [], Some(Ok([p.data])))
    else
      match Put(recv, p.header.seqnum.value, p)
      case Err(BeforeWindow) => Arrival(recv, [], None)
      case Err(AfterWindow) => Arrival(recv, [], Some(Err(ReceiveWindowFull(p.header.seqnum.value))))
      case Ok(w) => var (w', ready) := DrainFront(w); Arrival(w', ready, None)
  }

  function Batches<D>(recv: Window<Packet<D>>, packets: seq<Packet<D>>): (r: seq<seq<Packet<D>>>)
    ensures |r| == |packets|
    decreases |packets|
  {
    if packets == [] then []
    else var a := Arrive(recv, packets[0]); [a.batch] + Batches(a.recv, packets[1..])
  }

  function Replies<D>(recv: Window<Packet<D>>, packets: seq<Packet<D>>): (r: seq<Option<Result<seq<D>, ReceiveError>>>)
    ensures |r| == |packets|
    decreases |packets|
  {
    if packets == [] then []
    else var a := Arrive(recv, packets[0]); [a.reply] + Replies(a.recv, packets[1..])
  }

  /** The results of successive calls of receive_and_merge. */
  function Outcomes<D>(ext: (D, seq<D>) -> D, e: Endpoint<Packet<D>, D>, packets: seq<Packet<D>>): seq<Result<seq<D>, ReceiveError>>
    decreases |packets|
  {
    if packets == [] then []
    else
      var (e', r) := ReceiveAndMerge(ext, e, packets[0].header, packets[0].data);
      [r] + Outcomes(ext, e', packets[1..])
  }

  /** Each call's own reply, or else the merger's. */
  function Combined<D>(replies: seq<Option<D>>, merged: seq<D>): seq<D>
    requires |merged| == |replies|
  {
    seq(|replies|, i requires 0 <= i < |replies| => if replies[i].Some? then replies[i].value else merged[i])
  }

  /** The receive window between calls. */
  ghost predicate Settled<D>(recv: Window<Packet<D>>) {
    recv.Valid() && recv.left !in recv.Contents() && AtOwnNumber(recv.Contents())
  }

  lemma ArriveKeepsSettled<D>(recv: Window<Packet<D>>, p: Packet<D>)
    requires Settled(recv)
    ensures var a := Arrive(recv, p);
            && Settled(a.recv)
            && a.recv.cap == recv.cap
            && a.recv.left == recv.left + |a.batch|
            && Consecutive(a.batch, recv.left)
            && (a.reply.Some? ==> a.batch == [])
  {
    if p.header.ackNum.None? && p.header.seqnum.Some? {
      var s := p.header.seqnum.value;
      if Put(recv, s, p).Ok? {
        PutIsUpdate(recv, s, p);
        PutThenDrain(recv, p, s);
        var a := Arrive(recv, p);
        SettledRun(recv, p, s, a.batch, a.recv);
      }
    }
  }

  lemma SettledRun<D>(recv: Window<Packet<D>>, p: Packet<D>, s: nat, ready: seq<Packet<D>>, recv': Window<Packet<D>>)
    requires Settled(recv) && p.header.seqnum == Some(s)
    requires RunTaken(Buffered(recv, p, s), recv.left, ready, recv')
    ensures Settled(recv') && Consecutive(ready, recv.left)
  {
    var c := Buffered(recv, p, s);
    assert AtOwnNumber(c);
    forall i | 0 <= i < |ready| ensures ready[i].header.seqnum == Some(recv.left + i) {
      assert RunAt(c, recv.left, ready, i);
    }
  }

  /** One call: the window part, then the merger on what was released. */
  lemma CallSplits<D>(ext: (D, seq<D>) -> D, e: Endpoint<Packet<D>, D>, p: Packet<D>)
    ensures var (e', r) := ReceiveAndMerge(ext, e, p.header, p.data);
            var a := Arrive(e.recv, p);
            && e'.recv == a.recv
            && (e'.merge, r) == if a.reply.Some? then (e.merge, a.reply.value) else MergeRun(ext, e.recv.cap, e.merge, a.batch)
  {
    assert Packet(p.header, p.data) == p;
  }

  lemma {:induction false} BatchesConsecutive<D>(recv: Window<Packet<D>>, packets: seq<Packet<D>>)
    requires Settled(recv)
    ensures ConsecutiveBatches(Batches(recv, packets), recv.left)
    decreases |packets|
  {
    if packets != [] {
      ArriveKeepsSettled(recv, packets[0]);
      var a := Arrive(recv, packets[0]);
      BatchesConsecutive(a.recv, packets[1..]);
      assert Batches(recv, packets)[1..] == Batches(a.recv, packets[1..]);
    }
  }

  lemma {:induction false} MergeCallsLength<R>(ext: (R, seq<R>) -> R, cap: nat, st: MergeState<R>, batches: seq<seq<Packet<R>>>)
    ensures |MergeCalls(ext, cap, st, batches)| == |batches|
    decreases |batches|
  {
    if batches != [] { MergeCallsLength(ext, cap, MergeRun(ext, cap, st, batches[0]).0, batches[1..]); }
  }

  /** The results of all calls are the window's own replies and the merger's results on the released batches. */
  lemma {:induction false} OutcomesSplit<D>(ext: (D, seq<D>) -> D, e: Endpoint<Packet<D>, D>, packets: seq<Packet<D>>)
    requires Settled(e.recv)
    ensures var merged := MergeCalls(ext, e.recv.cap, e.merge, Batches(e.recv, packets));
            && |merged| == |packets|
            && Outcomes(ext, e, packets) == Combined(Replies(e.recv, packets), merged)
    decreases |packets|
  {
    MergeCallsLength(ext, e.recv.cap, e.merge, Batches(e.recv, packets));
    if packets != [] {
      var p, rest := packets[0], packets[1..];
      var a := Arrive(e.recv, p);
      var e' := ReceiveAndMerge(ext, e, p.header, p.data).0;
      ArriveKeepsSettled(e.recv, p);
      CallSplits(ext, e, p);
      OutcomesSplit(ext, e', rest);
      assert Batches(e.recv, packets)[1..] == Batches(a.recv, rest);
      assert Replies(e.recv, packets)[1..] == Replies(a.recv, rest);
      assert MergeRun(ext, e.recv.cap, e.merge, []) == (e.merge, Ok([]));
      var merged := MergeCalls(ext, e.recv.cap, e.merge, Batches(e.recv, packets));
      assert merged[1..] == MergeCalls(ext, e.recv.cap, e'.merge, Batches(a.recv, rest));
      CombinedCons(Replies(e.recv, packets), merged);
    }
  }

  lemma CombinedCons<D>(replies: seq<Option<D>>, merged: seq<D>)
    requires |merged| == |replies| && replies != []
    ensures Combined(replies, merged)
         == [if replies[0].Some? then replies[0].value else merged[0]] + Combined(replies[1..], merged[1..])
  {
  }

  /**
   * After a call that ends in PacketMergeConflict the abandoned group ends at some `end`.  Whatever
   * arrives later, every later call returns what it would if its merger had just been created and
   * never saw a packet up to `end`: nothing of the abandoned group, everything else as usual.
   */
  lemma AfterConflictCalls<D>(ext: (D, seq<D>) -> D, e: Endpoint<Packet<D>, D>, p: Packet<D>, later: seq<Packet<D>>)
    requires Settled(e.recv) && MergeInv(e.merge, e.recv.left, e.recv.cap)
    requires ReceiveAndMerge(ext, e, p.header, p.data).1 == Err(PacketMergeConflict)
    ensures var e1 := ReceiveAndMerge(ext, e, p.header, p.data).0;
            && e1.merge.end.Some? && e.AckSeqnum() <= e1.merge.end.value
            && var clean := MergeCalls(ext, e.recv.cap, InitialMerge(), AllBeyond(Batches(e1.recv, later), e1.merge.end.value));
            && |clean| == |later|
            && Outcomes(ext, e1, later) == Combined(Replies(e1.recv, later), clean)
  {
    var e1 := ReceiveAndMerge(ext, e, p.header, p.data).0;
    var a := Arrive(e.recv, p);
    CallSplits(ext, e, p);
    ArriveKeepsSettled(e.recv, p);
    AfterConflictFrom(ext, e.recv.cap, e.merge, a.batch, e.recv.left, e1, later);
  }

  lemma AfterConflictFrom<D>(ext: (D, seq<D>) -> D, cap: nat, st: MergeState<D>, batch: seq<Packet<D>>, first: nat,
                             e1: Endpoint<Packet<D>, D>, later: seq<Packet<D>>)
    requires MergeInv(st, first, cap) && Consecutive(batch, first)
    requires MergeRun(ext, cap, st, batch) == (e1.merge, Err(PacketMergeConflict))
    requires Settled(e1.recv) && e1.recv.cap == cap && e1.recv.left == first + |batch|
    ensures e1.merge.end.Some? && first <= e1.merge.end.value
    ensures var clean := MergeCalls(ext, cap, InitialMerge(), AllBeyond(Batches(e1.recv, later), e1.merge.end.value));
            && |clean| == |later|
            && Outcomes(ext, e1, later) == Combined(Replies(e1.recv, later), clean)
  {
    BatchesConsecutive(e1.recv, later);
    AfterConflict(ext, cap, st, batch, Batches(e1.recv, later), first);
    OutcomesSplit(ext, e1, later);
  }

  /** The same at every point of every run of an endpoint, against any peer. */
  lemma AfterConflictInRun<D>(ext: (D, seq<D>) -> D, cap: nat, merging: bool, run: seq<Node<D>>, actions: seq<Action<D>>, j: nat,
                              p: Packet<D>, later: seq<Packet<D>>)
    requires 1 <= cap && IsNodeRun(ext, run, actions) && run[0] == NewNode(cap, merging) && j < |run|
    requires ReceiveAndMerge(ext, run[j].ep, p.header, p.data).1 == Err(PacketMergeConflict)
    ensures var e1 := ReceiveAndMerge(ext, run[j].ep, p.header, p.data).0;
            && e1.merge.end.Some? && run[j].ep.AckSeqnum() <= e1.merge.end.value
            && var clean := MergeCalls(ext, cap, InitialMerge(), AllBeyond(Batches(e1.recv, later), e1.merge.end.value));
            && |clean| == |later|
            && Outcomes(ext, e1, later) == Combined(Replies(e1.recv, later), clean)
  {
    NewNodeInv<D>(cap, merging);
    NodeRunKeepsInv(ext, run, actions, j);
    NodeRunAdvances(ext, run, actions, 0, j);
    AfterConflictCalls(ext, run[j].ep, p, later);
  }

  // --- When a call fails ---------------------------------------------------------------------------

  /** The endpoint's call fails for the merger at packet `i` of what it releases. */
  ghost predicate MergeFailsAt<D>(e: Endpoint<Packet<D>, D>, p: Packet<D>, i: nat) {
    var a := Arrive(e.recv, p);
    a.reply.None? && FirstFailure(e.recv.cap, e.merge, a.batch, i)
  }

  /**
   * Why a call of receive_and_merge fails, for arbitrary headers: a data packet beyond the window is
   * refused; otherwise the released packets decide, at the first of them that announces a nonzero count
   * inside an open group or a count beyond the capacity outside of any; and only then.
   */
  lemma CallFailsIff<D>(ext: (D, seq<D>) -> D, e: Endpoint<Packet<D>, D>, p: Packet<D>)
    requires Settled(e.recv) && MergeInv(e.merge, e.recv.left, e.recv.cap)
    ensures var r, h, batch := ReceiveAndMerge(ext, e, p.header, p.data).1, p.header, Arrive(e.recv, p).batch;
            && (r.Err? && r.error.ReceiveWindowFull? <==>
                  h.ackNum.None? && h.seqnum.Some? && e.recv.left <= h.seqnum.value
                  && (e.recv.left + e.recv.cap <= h.seqnum.value || U64_MAX < h.seqnum.value))
            && (r == Err(PacketMergeConflict) <==>
                  exists i :: MergeFailsAt(e, p, i) && ConflictAt(e.recv.cap, e.merge, batch, i))
            && (r.Err? && r.error.InvalidNumPackets? <==>
                  exists i :: MergeFailsAt(e, p, i) && !ConflictAt(e.recv.cap, e.merge, batch, i))
            && r != Err(InvalidMergeState)
  {
    var a := Arrive(e.recv, p);
    CallSplits(ext, e, p);
    ArriveKeepsSettled(e.recv, p);
    ArriveRefuses(e.recv, p);
    var at := MergeErrorsIff(ext, e.recv.cap, e.merge, a.batch, e.recv.left);
    if a.reply.None? {
      MergeErrorKind(ext, e.recv.cap, e.merge, a.batch);
      if MergeRun(ext, e.recv.cap, e.merge, a.batch).1.Err? { assert MergeFailsAt(e, p, at); }
    }
  }

  lemma ArriveRefuses<D>(recv: Window<Packet<D>>, p: Packet<D>)
    requires recv.Valid()
    ensures var r, h := Arrive(recv, p).reply, p.header;
            && (r.Some? && r.value.Err? <==>
                  h.ackNum.None? && h.seqnum.Some? && recv.left <= h.seqnum.value
                  && (recv.left + recv.cap <= h.seqnum.value || U64_MAX < h.seqnum.value))
            && (r.Some? && r.value.Err? ==> r.value.error.ReceiveWindowFull?)
  {
    if p.header.seqnum.Some? { PutIsUpdate(recv, p.header.seqnum.value, p); }
  }

  /** The same at every point of every run of an endpoint, against any peer. */
  lemma CallFailsIffInRun<D>(ext: (D, seq<D>) -> D, cap: nat, merging: bool, run: seq<Node<D>>, actions: seq<Action<D>>, j: nat, p: Packet<D>)
    requires 1 <= cap && IsNodeRun(ext, run, actions) && run[0] == NewNode(cap, merging) && j < |run|
    ensures var r, e := ReceiveAndMerge(ext, run[j].ep, p.header, p.data).1, run[j].ep;
            && (r == Err(PacketMergeConflict) <==>
                  exists i :: MergeFailsAt(e, p, i) && ConflictAt(cap, e.merge, Arrive(e.recv, p).batch, i))
            && (r.Err? && r.error.InvalidNumPackets? <==>
                  exists i :: MergeFailsAt(e, p, i) && !ConflictAt(cap, e.merge, Arrive(e.recv, p).batch, i))
  {
    NewNodeInv<D>(cap, merging);
    NodeRunKeepsInv(ext, run, actions, j);
    NodeRunAdvances(ext, run, actions, 0, j);
    CallFailsIff(ext, run[j].ep, p);
  }

  // --- Two packets at a new stream -------------------------------------------------------------------

  ghost predicate Numbered<D>(p: Packet<D>, s: nat) {
    p.header.ackNum.None? && p.header.seqnum == Some(s)
  }

  lemma ArriveAtFront<D>(left: nat, cap: nat, p: Packet<D>)
    requires 1 <= cap && left <= U64_MAX && Numbered(p, left)
    ensures Arrive(Window(left, [], cap), p) == Arrival(Window(left + 1, [], cap), [p], None)
  {
    assert [] + Nones<Packet<D>>(0) + [Some(p)] == [Some(p)];
    var data := [Some(p)];
    assert data[1..] == [] && FrontRun(data) == 1;
    assert data[..1] == data && Values(data) == [p];
  }

  /** The second packet waits for the first, which then releases both. */
  lemma ArriveReversed<D>(cap: nat, p: Packet<D>, q: Packet<D>)
    requires 2 <= cap && Numbered(p, 1) && Numbered(q, 2)
    ensures Arrive(Window(1, [], cap), q) == Arrival(Window(1, [None, Some(q)], cap), [], None)
    ensures Arrive(Window(1, [None, Some(q)], cap), p) == Arrival(Window(3, [], cap), [p, q], None)
  {
    assert Nones<Packet<D>>(1) == [None];
    assert [] + [None] + [Some(q)] == [None, Some(q)];
    assert [None, Some(q)][0 := Some(p)] == [Some(p), Some(q)];
    BothFilled(cap, p, q);
  }

  lemma BothFilled<T>(cap: nat, x: T, y: T)
    ensures DrainFront(Window(1, [Some(x), Some(y)], cap)) == (Window(3, [], cap), [x, y])
  {
    var data := [Some(x), Some(y)];
    assert data[1..] == [Some(y)] && data[1..][1..] == [];
    assert FrontRun(data) == 2;
    assert data[..2] == data && data[2..] == [] && Values(data) == [x, y];
  }

  lemma OutcomesOfTwo<D>(ext: (D, seq<D>) -> D, e: Endpoint<Packet<D>, D>, p: Packet<D>, q: Packet<D>)
    ensures var (e', r) := ReceiveAndMerge(ext, e, p.header, p.data);
            Outcomes(ext, e, [p, q]) == [r, ReceiveAndMerge(ext, e', q.header, q.data).1]
  {
    var e' := ReceiveAndMerge(ext, e, p.header, p.data).0;
    assert [p, q][1..] == [q] && [q][1..] == [];
    assert Outcomes(ext, e', [q]) == [ReceiveAndMerge(ext, e', q.header, q.data).1];
  }

  /** In order, each packet is merged by its own call; the other way round, the second call merges both. */
  lemma TwoOrders<D>(ext: (D, seq<D>) -> D, cap: nat, p: Packet<D>, q: Packet<D>)
    requires 2 <= cap && Numbered(p, 1) && Numbered(q, 2)
    ensures var (st, r) := MergeRun(ext, cap, InitialMerge(), [p]);
            Outcomes(ext, NewEndpoint(cap), [p, q]) == [r, MergeRun(ext, cap, st, [q]).1]
    ensures Outcomes(ext, NewEndpoint(cap), [q, p]) == [Ok([]), MergeRun(ext, cap, InitialMerge(), [p, q]).1]
  {
    var e: Endpoint<Packet<D>, D> := NewEndpoint(cap);
    ArriveAtFront(1, cap, p);
    CallSplits(ext, e, p);
    ArriveAtFront(2, cap, q);
    CallSplits(ext, ReceiveAndMerge(ext, e, p.header, p.data).0, q);
    OutcomesOfTwo(ext, e, p, q);
    ArriveReversed(cap, p, q);
    CallSplits(ext, e, q);
    CallSplits(ext, ReceiveAndMerge(ext, e, q.header, q.data).0, p);
    OutcomesOfTwo(ext, e, q, p);
  }

  /** What an arrival that the merger decides does to a whole endpoint. */
  lemma DeliverMerges<D>(ext: (D, seq<D>) -> D, n: Node<D>, p: Packet<D>, s: nat, recv: Window<Packet<D>>, batch: seq<Packet<D>>)
    requires n.merging && Numbered(p, s) && Arrive(n.ep.recv, p) == Arrival(recv, batch, None)
    ensures var n' := ActDeliver(ext, n, p);
            && n'.ep.recv == recv && n'.merging && n'.released == n.released + batch
            && HandsOver(n, MergeRun(ext, n.ep.recv.cap, n.ep.merge, batch), n')
  {
    CallSplits(ext, n.ep, p);
    assert Packet(p.header, p.data) == p;
  }
}
