/**
 * Two endpoints joined by a network that may lose, duplicate and reorder packets: anything ever
 * transmitted by one side may be delivered to the other at any time, any number of times, or never.
 */
module Network {
  import opened Common
  import opened Packets
  import opened Windows
  import opened Merging
  import opened Reassembly
  import opened Nodes

  datatype System<D> = System(a: Node<D>, b: Node<D>)

  datatype Event<D> = AtA(action: Action<D>) | AtB(action: Action<D>)

  /** Only what the peer has transmitted can arrive, and sequence numbers do not run out. */
  ghost predicate Possible<D>(n: Node<D>, peer: Node<D>, a: Action<D>) {
    HasRoom(n, a) && (a.Deliver? ==> a.packet in peer.wire)
  }

  ghost predicate Allowed<D>(s: System<D>, ev: Event<D>) {
    match ev
    case AtA(a) => s.a.ep.Valid() && Possible(s.a, s.b, a)
    case AtB(a) => s.b.ep.Valid() && Possible(s.b, s.a, a)
  }

  function Step<D>(ext: (D, seq<D>) -> D, s: System<D>, ev: Event<D>): System<D>
    requires Allowed(s, ev)
  {
    match ev
    case AtA(a) => s.(a := Act(ext, s.a, a))
    case AtB(a) => s.(b := Act(ext, s.b, a))
  }

  /** The states of a run, from any start: each follows from the one before by an allowed event. */
  ghost predicate IsRun<D>(ext: (D, seq<D>) -> D, run: seq<System<D>>, events: seq<Event<D>>) {
    && |run| == |events| + 1
    && forall i :: 0 <= i < |events| ==> Follows(ext, run[i], events[i], run[i + 1])
  }

  ghost predicate Follows<D>(ext: (D, seq<D>) -> D, s: System<D>, ev: Event<D>, s': System<D>) {
    Allowed(s, ev) && s' == Step(ext, s, ev)
  }

  function NewSystem<D>(capA: nat, capB: nat, mergingA: bool, mergingB: bool): System<D> {
    System(NewNode(capA, mergingA), NewNode(capB, mergingB))
  }

  /** Some run from a fresh pair of streams of these capacities ends in `s`. */
  ghost predicate Reachable<D(!new)>(ext: (D, seq<D>) -> D, start: System<D>, s: System<D>) {
    exists run: seq<System<D>>, events: seq<Event<D>> :: IsRun(ext, run, events) && run[0] == start && run[|run| - 1] == s
  }

  lemma ReachableStart<D(!new)>(ext: (D, seq<D>) -> D, start: System<D>)
    ensures Reachable(ext, start, start)
  {
    assert IsRun(ext, [start], []);
  }

  lemma ReachableStep<D(!new)>(ext: (D, seq<D>) -> D, start: System<D>, s: System<D>, ev: Event<D>)
    requires Reachable(ext, start, s) && Allowed(s, ev)
    ensures Reachable(ext, start, Step(ext, s, ev))
  {
    var run: seq<System<D>>, events: seq<Event<D>> :| IsRun(ext, run, events) && run[0] == start && run[|run| - 1] == s;
    var run', events' := run + [Step(ext, s, ev)], events + [ev];
    forall i | 0 <= i < |events'| ensures Follows(ext, run'[i], events'[i], run'[i + 1]) {
      if i < |events| { assert Follows(ext, run[i], events[i], run[i + 1]); }
    }
    assert IsRun(ext, run', events');
  }

  // --- What one direction keeps: x sends, y receives ---------------------------------------------

  /** Buffered packets are the logged ones. */
  ghost predicate FromLog<D>(c: map<nat, Packet<D>>, log: seq<Packet<D>>) {
    forall s :: s in c ==> 1 <= s <= |log| && c[s] == log[s - 1]
  }

  /** What the application has been given is what the released packets amount to. */
  ghost predicate Given<D>(ext: (D, seq<D>) -> D, y: Node<D>) {
    if y.merging then MergeRun(ext, y.ep.recv.cap, InitialMerge(), y.released) == (y.ep.merge, Ok(y.returned))
    else y.returned == Payloads(y.released)
  }

  /** Some arrival has been answered with an error of the merger. */
  ghost predicate MergeFailed<D>(y: Node<D>) {
    exists e :: e in y.errors && !e.ReceiveWindowFull?
  }

  /** A merger that the released packets make fail has said so; otherwise everything was handed over. */
  ghost predicate Reported<D>(ext: (D, seq<D>) -> D, y: Node<D>) {
    if y.merging && MergeRun(ext, y.ep.recv.cap, InitialMerge(), y.released).1.Err? then MergeFailed(y)
    else Given(ext, y) && !MergeFailed(y)
  }

  /** What holds whatever the capacities are. */
  ghost predicate Ordered<D>(x: Node<D>, y: Node<D>) {
    && 1 <= x.ep.send.left <= y.ep.recv.left <= |x.log| + 1
    && y.released == x.log[..y.ep.recv.left - 1]
    && FromLog(y.ep.recv.Contents(), x.log)
  }

  /**
   * Released packets are the log's, open groups end within it, what was released was handed over or an
   * error reported, and a receiver as large as the sender sees no error.
   */
  ghost predicate Direction<D>(ext: (D, seq<D>) -> D, x: Node<D>, y: Node<D>) {
    && Ordered(x, y)
    && EndsWithin(y.ep.merge, |x.log|)
    && Reported(ext, y)
    && (x.ep.send.cap <= y.ep.recv.cap ==> y.errors == [])
  }

  ghost predicate Inv<D>(ext: (D, seq<D>) -> D, s: System<D>) {
    NodeInv(s.a) && NodeInv(s.b) && Direction(ext, s.a, s.b) && Direction(ext, s.b, s.a)
  }

  lemma NewSystemInv<D>(ext: (D, seq<D>) -> D, capA: nat, capB: nat, mergingA: bool, mergingB: bool)
    requires 1 <= capA && 1 <= capB
    ensures Inv(ext, NewSystem<D>(capA, capB, mergingA, mergingB))
  {
    NewNodeInv<D>(capA, mergingA);
    NewNodeInv<D>(capB, mergingB);
    assert Payloads<D>([]) == [];
  }

  lemma SenderMoves<D>(ext: (D, seq<D>) -> D, x: Node<D>, x': Node<D>, y: Node<D>)
    requires Direction(ext, x, y)
    requires x.log <= x'.log && x'.ep.send.cap == x.ep.send.cap
    requires 1 <= x'.ep.send.left <= y.ep.recv.left
    ensures Direction(ext, x', y)
  {
    assert x'.log[..y.ep.recv.left - 1] == x.log[..y.ep.recv.left - 1];
    forall s | s in y.ep.recv.Contents() ensures 1 <= s <= |x'.log| && y.ep.recv.Contents()[s] == x'.log[s - 1] {}
  }

  /** Every prefix of a sender's log merges without error at a receiver that accepts its groups. */
  lemma LogMerges<D>(ext: (D, seq<D>) -> D, calls: seq<Call<D>>, log: seq<Packet<D>>, cap: nat, n: nat)
    requires log == Encode(calls) && AnnouncesFit(calls, cap) && n <= |log|
    ensures MergeRun(ext, cap, InitialMerge(), log[..n]).1.Ok?
  {
    PiecesFlatten(calls);
    PiecesArePieces(calls, cap);
    EncodeConsecutive(calls);
    PrefixMerges(ext, cap, Pieces(calls), n);
  }

  /** The run a receiver gives up is the next stretch of the sender's log. */
  lemma RunIsLog<D>(c: map<nat, Packet<D>>, left: nat, ready: seq<Packet<D>>, w: Window<Packet<D>>, log: seq<Packet<D>>)
    requires RunTaken(c, left, ready, w) && FromLog(c, log) && 1 <= left <= |log| + 1
    ensures w.left <= |log| + 1
    ensures log[..left - 1] + ready == log[..w.left - 1]
    ensures FromLog(w.Contents(), log)
  {
    if ready != [] { assert RunAt(c, left, ready, |ready| - 1); }
    forall i | 0 <= i < |ready| ensures ready[i] == log[left - 1 + i] { assert RunAt(c, left, ready, i); }
  }

  /** A logged packet is never beyond the window of a receiver at least as large as the sender. */
  lemma LoggedIsInReach<D>(x: Node<D>, y: Node<D>, s: nat)
    requires NodeInv(x) && NodeInv(y) && Ordered(x, y) && s <= |x.log|
    requires x.ep.send.cap <= y.ep.recv.cap
    ensures s <= y.ep.recv.RightBounds()
  {
    assert |x.log| == x.ep.send.left + |x.ep.send.data| - 1;
  }

  /** The receiving side's order survives taking in a logged packet. */
  lemma DataKeepsOrder<D>(x: Node<D>, y: Node<D>, p: Packet<D>, s: nat, ready: seq<Packet<D>>, y': Node<D>)
    requires Ordered(x, y) && 1 <= s <= |x.log| && p == x.log[s - 1]
    requires TakesData(y, p, s, ready, y')
    ensures Ordered(x, y')
  {
    var c := Buffered(y.ep.recv, p, s);
    assert FromLog(c, x.log);
    RunIsLog(c, y.ep.recv.left, ready, y'.ep.recv, x.log);
  }

  lemma FailedOnce<D>(y: Node<D>, y': Node<D>, e: ReceiveError)
    requires y'.errors == y.errors + [e]
    ensures MergeFailed(y') <==> MergeFailed(y) || !e.ReceiveWindowFull?
  {
    assert e in y'.errors;
    forall e' | e' in y.errors ensures e' in y'.errors {}
  }

  /** Out of reach, nothing is released or handed over. */
  lemma RefusedIsReported<D>(ext: (D, seq<D>) -> D, y: Node<D>, p: Packet<D>, s: nat, ready: seq<Packet<D>>, y': Node<D>)
    requires Reported(ext, y) && BeyondWindow(y.ep.recv, s)
    requires TakesData(y, p, s, ready, y') && HandsOver(y, Handed(ext, y, s, ready), y')
    ensures Reported(ext, y')
  {
    assert y.released + ready == y.released;
    FailedOnce(y, y', ReceiveWindowFull(s));
  }

  lemma DataIsGiven<D>(ext: (D, seq<D>) -> D, y: Node<D>, p: Packet<D>, s: nat, ready: seq<Packet<D>>, y': Node<D>)
    requires Reported(ext, y) && !y.merging && !BeyondWindow(y.ep.recv, s)
    requires TakesData(y, p, s, ready, y') && HandsOver(y, Handed(ext, y, s, ready), y')
    ensures Reported(ext, y')
  {
    PayloadsAppend(y.released, ready);
  }

  lemma DataIsMerged<D>(ext: (D, seq<D>) -> D, y: Node<D>, p: Packet<D>, s: nat, ready: seq<Packet<D>>, y': Node<D>)
    requires Reported(ext, y) && y.merging && !BeyondWindow(y.ep.recv, s)
    requires TakesData(y, p, s, ready, y') && HandsOver(y, Handed(ext, y, s, ready), y')
    ensures Reported(ext, y')
  {
    var outcome := MergeRun(ext, y.ep.recv.cap, y.ep.merge, ready);
    MergeRunAppend(ext, y.ep.recv.cap, InitialMerge(), y.released, ready);
    MergeErrorKind(ext, y.ep.recv.cap, y.ep.merge, ready);
    if outcome.1.Err? { FailedOnce(y, y', outcome.1.error); }
  }

  lemma DataIsReported<D>(ext: (D, seq<D>) -> D, y: Node<D>, p: Packet<D>, s: nat, ready: seq<Packet<D>>, y': Node<D>)
    requires Reported(ext, y)
    requires TakesData(y, p, s, ready, y') && HandsOver(y, Handed(ext, y, s, ready), y')
    ensures Reported(ext, y')
  {
    if BeyondWindow(y.ep.recv, s) {
      RefusedIsReported(ext, y, p, s, ready, y');
    } else if y.merging {
      DataIsMerged(ext, y, p, s, ready, y');
    } else {
      DataIsGiven(ext, y, p, s, ready, y');
    }
  }

  /** An open group still ends within the log. */
  lemma DataStaysWithin<D>(ext: (D, seq<D>) -> D, x: Node<D>, y: Node<D>, p: Packet<D>, s: nat, ready: seq<Packet<D>>, y': Node<D>)
    requires x.log == Encode(x.calls) && EndsWithin(y.ep.merge, |x.log|)
    requires TakesData(y, p, s, ready, y') && HandsOver(y, Handed(ext, y, s, ready), y')
    requires 1 <= y'.ep.recv.left <= |x.log| + 1 && y'.released == x.log[..y'.ep.recv.left - 1]
    ensures EndsWithin(y'.ep.merge, |x.log|)
  {
    EncodeAnnouncesWithin(x.calls);
    StretchWithin(x.log, y.released, ready, |x.log|);
    MergeStaysWithin(ext, y.ep.recv.cap, y.ep.merge, ready, |x.log|);
  }

  lemma StretchWithin<D>(log: seq<Packet<D>>, before: seq<Packet<D>>, ready: seq<Packet<D>>, limit: nat)
    requires before + ready <= log && AnnouncedWithin(log, limit)
    ensures AnnouncedWithin(ready, limit)
  {
    forall i | 0 <= i < |ready| ensures PacketWithin(ready[i], limit) {
      assert ready[i] == (before + ready)[|before| + i] == log[|before| + i];
      assert PacketWithin(log[|before| + i], limit);
    }
  }

  lemma DataKeepsDirection<D>(ext: (D, seq<D>) -> D, x: Node<D>, y: Node<D>, p: Packet<D>, s: nat, ready: seq<Packet<D>>, y': Node<D>)
    requires NodeInv(x) && NodeInv(y) && Direction(ext, x, y)
    requires 1 <= s <= |x.log| && p == x.log[s - 1]
    requires TakesData(y, p, s, ready, y') && HandsOver(y, Handed(ext, y, s, ready), y')
    ensures Direction(ext, x, y')
  {
    DataKeepsOrder(x, y, p, s, ready, y');
    DataStaysWithin(ext, x, y, p, s, ready, y');
    DataIsReported(ext, y, p, s, ready, y');
    if x.ep.send.cap <= y.ep.recv.cap {
      LoggedIsInReach(x, y, s);
      LargerReceiverAccepts(x, y.ep.recv.cap);
      AcceptedIsGiven(ext, x, y');
      ErrorsStay(ext, y, s, ready, y');
    }
  }

  lemma ErrorsStay<D>(ext: (D, seq<D>) -> D, y: Node<D>, s: nat, ready: seq<Packet<D>>, y': Node<D>)
    requires !BeyondWindow(y.ep.recv, s)
    requires HandsOver(y, Handed(ext, y, s, ready), y')
    ensures y'.errors == y.errors || MergeFailed(y')
  {
    var outcome := Handed(ext, y, s, ready);
    MergeErrorKind(ext, y.ep.recv.cap, y.ep.merge, ready);
    if outcome.1.Err? { FailedOnce(y, y', outcome.1.error); }
  }

  lemma LargerReceiverAccepts<D>(x: Node<D>, cap: nat)
    requires LogInv(x.calls, x.log, x.ep.send.cap) && x.ep.send.cap <= cap
    ensures AnnouncesFit(x.calls, cap)
  {
    assert Fits(x.calls, cap);
    FitsAnnounces(x.calls, cap);
  }

  /** A plain receiver, or one that accepts every announced group, gives over all it releases. */
  lemma AcceptedIsGiven<D>(ext: (D, seq<D>) -> D, x: Node<D>, y: Node<D>)
    requires x.log == Encode(x.calls) && Ordered(x, y) && Reported(ext, y)
    requires y.merging ==> AnnouncesFit(x.calls, y.ep.recv.cap)
    ensures Given(ext, y) && !MergeFailed(y)
  {
    if y.merging { LogMerges(ext, x.calls, x.log, y.ep.recv.cap, y.ep.recv.left - 1); }
  }

  /** Where a packet of the wire comes from. */
  lemma WirePacket<D>(x: Node<D>, p: Packet<D>) returns (s: nat)
    requires NodeInv(x) && p in x.wire && p.header.ackNum.None?
    ensures 1 <= s <= |x.log| && p == x.log[s - 1] && p.header.seqnum == Some(s)
  {
    assert Honest(p, x.log, x.ep.recv.left);
    LogNumbers(x.calls, x.log);
    var i :| 0 <= i < |x.log| && x.log[i] == p;
    s := i + 1;
  }

  /** Sending, acknowledging and resending keep both directions. */
  lemma QuietKeepsDirections<D>(ext: (D, seq<D>) -> D, x: Node<D>, y: Node<D>, x': Node<D>)
    requires Direction(ext, x, y) && Direction(ext, y, x)
    requires Advances(x, x') && Quiet(x, x')
    ensures Direction(ext, x', y) && Direction(ext, y, x')
  {
    SenderMoves(ext, x, x', y);
  }

  lemma AckKeepsDirections<D>(ext: (D, seq<D>) -> D, x: Node<D>, y: Node<D>, x': Node<D>)
    requires Direction(ext, x, y) && Direction(ext, y, x)
    requires x' == x.(ep := x.ep.(send := x'.ep.send))
    requires x'.ep.send.cap == x.ep.send.cap && 1 <= x'.ep.send.left <= y.ep.recv.left
    ensures Direction(ext, x', y) && Direction(ext, y, x')
  {
    SenderMoves(ext, x, x', y);
  }

  /** Whatever the peer transmitted, its arrival keeps both directions. */
  lemma DeliverKeepsDirections<D>(ext: (D, seq<D>) -> D, x: Node<D>, y: Node<D>, p: Packet<D>)
    requires NodeInv(x) && NodeInv(y) && Direction(ext, x, y) && Direction(ext, y, x)
    requires p in y.wire
    ensures Direction(ext, ActDeliver(ext, x, p), y) && Direction(ext, y, ActDeliver(ext, x, p))
  {
    var x' := ActDeliver(ext, x, p);
    if p.header.ackNum.Some? {
      assert Honest(p, y.log, y.ep.recv.left);
      DeliverAckKeepsInv(ext, x, p);
      AckKeepsDirections(ext, x, y, x');
    } else {
      var s := WirePacket(y, p);
      DeliverDataIs(ext, x, p, s);
      DataKeepsDirection(ext, y, x, p, s, ReleasedBy(x.ep, p), x');
      SenderMoves(ext, x, x', y);
    }
  }

  /** Anything x does keeps both directions. */
  lemma ActKeepsDirections<D>(ext: (D, seq<D>) -> D, x: Node<D>, y: Node<D>, a: Action<D>)
    requires NodeInv(x) && NodeInv(y) && Direction(ext, x, y) && Direction(ext, y, x)
    requires Possible(x, y, a)
    ensures Direction(ext, Act(ext, x, a), y) && Direction(ext, y, Act(ext, x, a))
  {
    if a.Deliver? {
      DeliverKeepsDirections(ext, x, y, a.packet);
    } else {
      ActKeepsInv(ext, x, a);
      QuietKeepsDirections(ext, x, y, Act(ext, x, a));
    }
  }

  /** Capacities and the way of polling never change. */
  ghost predicate SameShape<D>(s: System<D>, s': System<D>) {
    && s'.a.merging == s.a.merging && s'.b.merging == s.b.merging
    && s'.a.ep.send.cap == s.a.ep.send.cap && s'.a.ep.recv.cap == s.a.ep.recv.cap
    && s'.b.ep.send.cap == s.b.ep.send.cap && s'.b.ep.recv.cap == s.b.ep.recv.cap
  }

  lemma StepKeepsInv<D>(ext: (D, seq<D>) -> D, s: System<D>, ev: Event<D>)
    requires Inv(ext, s) && Allowed(s, ev)
    ensures Inv(ext, Step(ext, s, ev)) && SameShape(s, Step(ext, s, ev))
  {
    match ev
    case AtA(a) => ActKeepsInv(ext, s.a, a); ActKeepsDirections(ext, s.a, s.b, a);
    case AtB(a) => ActKeepsInv(ext, s.b, a); ActKeepsDirections(ext, s.b, s.a, a);
  }

  lemma {:induction false} RunKeepsInv<D>(ext: (D, seq<D>) -> D, run: seq<System<D>>, events: seq<Event<D>>)
    requires IsRun(ext, run, events) && Inv(ext, run[0])
    ensures forall i :: 0 <= i < |run| ==> Inv(ext, run[i]) && SameShape(run[0], run[i])
  {
    var k := 0;
    while k < |events|
      invariant k <= |events|
      invariant forall i :: 0 <= i <= k ==> Inv(ext, run[i]) && SameShape(run[0], run[i])
    {
      assert Follows(ext, run[k], events[k], run[k + 1]);
      StepKeepsInv(ext, run[k], events[k]);
      k := k + 1;
    }
  }

  /** Every state of every run satisfies the invariant. */
  lemma ReachableInv<D(!new)>(ext: (D, seq<D>) -> D, capA: nat, capB: nat, mergingA: bool, mergingB: bool, s: System<D>)
    requires 1 <= capA && 1 <= capB
    requires Reachable(ext, NewSystem(capA, capB, mergingA, mergingB), s)
    ensures Inv(ext, s)
    ensures s.a.ep.send.cap == s.a.ep.recv.cap == capA && s.b.ep.send.cap == s.b.ep.recv.cap == capB
    ensures s.a.merging == mergingA && s.b.merging == mergingB
  {
    var start := NewSystem<D>(capA, capB, mergingA, mergingB);
    var run: seq<System<D>>, events: seq<Event<D>> :| IsRun(ext, run, events) && run[0] == start && run[|run| - 1] == s;
    NewSystemInv<D>(ext, capA, capB, mergingA, mergingB);
    RunKeepsInv(ext, run, events);
  }
}
