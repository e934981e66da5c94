/** What the protocol delivers, over every run of two endpoints and the network between them. */
module Delivery {
  import opened Common
  import opened Packets
  import opened Windows
  import opened Merging
  import opened Reassembly
  import opened Nodes
  import opened Network

  // --- Safety ------------------------------------------------------------------------------------

  /** The payloads returned by `receive` are the first ack - 1 submitted ones, in order, each once. */
  ghost predicate DeliversInOrder<D>(x: Node<D>, y: Node<D>) {
    && 1 <= y.ep.AckSeqnum() <= |Submitted(x.calls)| + 1
    && Payloads(y.released) == Submitted(x.calls)[..y.ep.AckSeqnum() - 1]
    && (!y.merging ==> y.returned == Submitted(x.calls)[..y.ep.AckSeqnum() - 1])
  }

  lemma OrderFromInv<D>(ext: (D, seq<D>) -> D, x: Node<D>, y: Node<D>)
    requires NodeInv(x) && NodeInv(y) && Direction(ext, x, y)
    ensures DeliversInOrder(x, y)
  {
    EncodeCarriesSubmitted(x.calls);
    assert Payloads(x.log[..y.ep.recv.left - 1]) == Payloads(x.log)[..y.ep.recv.left - 1];
  }

  /** For every run, in both directions and for any capacities: exactly once and in order. */
  lemma ExactlyOnceInOrder<D(!new)>(ext: (D, seq<D>) -> D, capA: nat, capB: nat, mergingA: bool, mergingB: bool, s: System<D>)
    requires 1 <= capA && 1 <= capB
    requires Reachable(ext, NewSystem(capA, capB, mergingA, mergingB), s)
    ensures DeliversInOrder(s.a, s.b) && DeliversInOrder(s.b, s.a)
  {
    ReachableInv(ext, capA, capB, mergingA, mergingB, s);
    OrderFromInv(ext, s.a, s.b);
    OrderFromInv(ext, s.b, s.a);
  }

  /**
   * Windows are ordered, acknowledgements in flight are truthful, and what has not been released is
   * still held by the sender: no acknowledgement can make it drop undelivered data.
   */
  ghost predicate NothingDroppedEarly<D>(x: Node<D>, y: Node<D>) {
    && 1 <= x.ep.send.left <= y.ep.AckSeqnum() <= x.ep.NextSeqnum()
    && (forall p :: p in y.wire && p.header.ackNum.Some? ==> p.header.ackNum.value <= y.ep.AckSeqnum())
    && (forall i :: y.ep.AckSeqnum() - 1 <= i < |x.log| ==> InWindow(x.ep.send, x.log[i]))
  }

  lemma NothingDroppedFromInv<D>(ext: (D, seq<D>) -> D, x: Node<D>, y: Node<D>)
    requires NodeInv(x) && NodeInv(y) && Direction(ext, x, y)
    ensures NothingDroppedEarly(x, y)
  {
    forall p | p in y.wire && p.header.ackNum.Some? ensures p.header.ackNum.value <= y.ep.AckSeqnum() {
      assert Honest(p, y.log, y.ep.recv.left);
    }
    forall i | y.ep.AckSeqnum() - 1 <= i < |x.log| ensures InWindow(x.ep.send, x.log[i]) {
      assert HoldsLogged(x.ep.send, i + 1 - x.ep.send.left, x.log);
    }
  }

  lemma NoPrematureDrop<D(!new)>(ext: (D, seq<D>) -> D, capA: nat, capB: nat, mergingA: bool, mergingB: bool, s: System<D>)
    requires 1 <= capA && 1 <= capB
    requires Reachable(ext, NewSystem(capA, capB, mergingA, mergingB), s)
    ensures NothingDroppedEarly(s.a, s.b) && NothingDroppedEarly(s.b, s.a)
  {
    ReachableInv(ext, capA, capB, mergingA, mergingB, s);
    NothingDroppedFromInv(ext, s.a, s.b);
    NothingDroppedFromInv(ext, s.b, s.a);
  }

  // --- Fragments regrouped -----------------------------------------------------------------------

  /**
   * `y` has returned the complete pieces of its first ack - 1 packets, each merged and once, and its
   * merge buffer holds exactly the arrived part of the one unfinished piece.
   */
  ghost predicate IsRegrouped<D>(ext: (D, seq<D>) -> D, calls: seq<Call<D>>, y: Node<D>) {
    var pieces := Pieces(calls);
    && ArePieces(pieces, y.ep.recv.cap)
    && 1 <= y.ep.AckSeqnum() <= |Flatten(pieces)| + 1
    && var (j, k) := Locate(pieces, y.ep.AckSeqnum() - 1);
    && y.returned == Wholes(ext, pieces[..j])
    && y.ep.merge.buffer == (if k == 0 then None else Some(Fragments(Payloads(pieces[j][..k]), |pieces[j]|)))
  }

  /** A receiver of any capacity that accepts every announced group regroups what was sent. */
  lemma Regrouped<D(!new)>(ext: (D, seq<D>) -> D, capA: nat, capB: nat, mergingA: bool, s: System<D>)
    requires 1 <= capA && 1 <= capB
    requires Reachable(ext, NewSystem(capA, capB, mergingA, true), s)
    requires AnnouncesFit(s.a.calls, capB)
    ensures IsRegrouped(ext, s.a.calls, s.b)
  {
    ReachableInv(ext, capA, capB, mergingA, true, s);
    RegroupedFromInv(ext, s.a, s.b);
  }

  lemma RegroupedFromInv<D>(ext: (D, seq<D>) -> D, x: Node<D>, y: Node<D>)
    requires NodeInv(x) && NodeInv(y) && Direction(ext, x, y) && y.merging && AnnouncesFit(x.calls, y.ep.recv.cap)
    ensures IsRegrouped(ext, x.calls, y)
  {
    AcceptedIsGiven(ext, x, y);
    PiecesFlatten(x.calls);
    PiecesArePieces(x.calls, y.ep.recv.cap);
    EncodeConsecutive(x.calls);
    PrefixMerges(ext, y.ep.recv.cap, Pieces(x.calls), y.ep.AckSeqnum() - 1);
  }

  /**
   * receive_and_merge returns the sender's messages: a prefix of them at every moment when every group
   * can be counted in 32 bits, and, once everything has been released, all of them if and only if
   * every group can.
   */
  lemma MessagesDelivered<D(!new)>(ext: (D, seq<D>) -> D, capA: nat, capB: nat, mergingA: bool, s: System<D>)
    requires 1 <= capA && 1 <= capB
    requires Reachable(ext, NewSystem(capA, capB, mergingA, true), s)
    requires AnnouncesFit(s.a.calls, capB)
    ensures Fits(s.a.calls, U32_COUNT - 1) ==> s.b.returned <= Messages(ext, s.a.calls)
    ensures s.b.ep.AckSeqnum() == s.a.ep.NextSeqnum() ==>
              && s.b.ep.merge.buffer.None?
              && (s.b.returned == Messages(ext, s.a.calls) <==> Fits(s.a.calls, U32_COUNT - 1))
  {
    Regrouped(ext, capA, capB, mergingA, s);
    NextAfterCalls(ext, capA, capB, mergingA, true, s);
    RegroupedIsMeant(ext, s.a.calls, s.b);
  }

  lemma NextAfterCalls<D(!new)>(ext: (D, seq<D>) -> D, capA: nat, capB: nat, mergingA: bool, mergingB: bool, s: System<D>)
    requires 1 <= capA && 1 <= capB
    requires Reachable(ext, NewSystem(capA, capB, mergingA, mergingB), s)
    ensures s.a.ep.NextSeqnum() == |Encode(s.a.calls)| + 1
  {
    ReachableInv(ext, capA, capB, mergingA, mergingB, s);
  }

  lemma RegroupedIsMeant<D>(ext: (D, seq<D>) -> D, calls: seq<Call<D>>, y: Node<D>)
    requires IsRegrouped(ext, calls, y)
    ensures Fits(calls, U32_COUNT - 1) ==> y.returned <= Messages(ext, calls)
    ensures y.ep.AckSeqnum() == |Encode(calls)| + 1 ==>
              && y.ep.merge.buffer.None?
              && y.returned == Wholes(ext, Pieces(calls))
              && (y.returned == Messages(ext, calls) <==> Fits(calls, U32_COUNT - 1))
  {
    PiecesFlatten(calls);
    CallsComeOut(ext, calls);
    PrefixOfWholes(ext, Pieces(calls), y.ep.AckSeqnum() - 1);
  }

  /** The complete pieces of a prefix are a prefix of all of them, and all of them at the end. */
  lemma PrefixOfWholes<D>(ext: (D, seq<D>) -> D, pieces: seq<seq<Packet<D>>>, n: nat)
    requires forall i :: 0 <= i < |pieces| ==> 1 <= |pieces[i]|
    requires n <= |Flatten(pieces)|
    ensures var at := Locate(pieces, n);
            && Wholes(ext, pieces[..at.0]) <= Wholes(ext, pieces)
            && (n == |Flatten(pieces)| ==> at == (|pieces|, 0) && Wholes(ext, pieces[..at.0]) == Wholes(ext, pieces))
  {
    var at := Locate(pieces, n);
    assert Wholes(ext, pieces[..at.0]) == Wholes(ext, pieces)[..at.0];
    LocateAll(pieces);
    assert pieces[..|pieces|] == pieces;
  }

  lemma {:induction false} LocateAll<D>(pieces: seq<seq<D>>)
    requires forall i :: 0 <= i < |pieces| ==> 1 <= |pieces[i]|
    ensures Locate(pieces, |Flatten(pieces)|) == (|pieces|, 0)
    decreases |pieces|
  {
    if pieces != [] { LocateAll(pieces[1..]); }
  }

  /**
   * What has been returned depends only on which packets have been released: two runs of systems of any
   * capacities, with different calls, schedules, losses and timers, that released the same packets
   * returned the same and are inside the same merge, provided a merging receiver accepts the groups.
   */
  lemma ScheduleIndependent<D(!new)>(ext: (D, seq<D>) -> D, mergingB: bool,
                                     capA: nat, capB: nat, mergingA: bool, s: System<D>,
                                     capC: nat, capD: nat, mergingC: bool, t: System<D>)
    requires 1 <= capA && 1 <= capB && Reachable(ext, NewSystem(capA, capB, mergingA, mergingB), s)
    requires 1 <= capC && 1 <= capD && Reachable(ext, NewSystem(capC, capD, mergingC, mergingB), t)
    requires mergingB ==> AnnouncesFit(s.a.calls, capB) && AnnouncesFit(t.a.calls, capD)
    requires s.b.released == t.b.released
    ensures s.b.returned == t.b.returned
    ensures s.b.ep.merge == t.b.ep.merge
  {
    GivenInRun(ext, capA, capB, mergingA, mergingB, s);
    GivenInRun(ext, capC, capD, mergingC, mergingB, t);
    if mergingB { SameAtBothCapacities(ext, capB, capD, InitialMerge(), s.b.released); }
  }

  lemma GivenInRun<D(!new)>(ext: (D, seq<D>) -> D, capA: nat, capB: nat, mergingA: bool, mergingB: bool, s: System<D>)
    requires 1 <= capA && 1 <= capB
    requires Reachable(ext, NewSystem(capA, capB, mergingA, mergingB), s)
    requires mergingB ==> AnnouncesFit(s.a.calls, capB)
    ensures s.b.merging == mergingB && s.b.ep.recv.cap == capB && Given(ext, s.b)
    ensures !mergingB ==> s.b.ep.merge == InitialMerge()
  {
    ReachableInv(ext, capA, capB, mergingA, mergingB, s);
    AcceptedIsGiven(ext, s.a, s.b);
  }

  /** In particular, if the calls of one run begin those of the other and both receivers have come equally far. */
  lemma SameCallsSameOutput<D(!new)>(ext: (D, seq<D>) -> D, mergingB: bool,
                                     capA: nat, capB: nat, mergingA: bool, s: System<D>,
                                     capC: nat, capD: nat, mergingC: bool, t: System<D>)
    requires 1 <= capA && 1 <= capB && Reachable(ext, NewSystem(capA, capB, mergingA, mergingB), s)
    requires 1 <= capC && 1 <= capD && Reachable(ext, NewSystem(capC, capD, mergingC, mergingB), t)
    requires mergingB ==> AnnouncesFit(t.a.calls, capB) && AnnouncesFit(t.a.calls, capD)
    requires s.b.ep.AckSeqnum() == t.b.ep.AckSeqnum() && s.a.calls <= t.a.calls
    ensures s.b.returned == t.b.returned
    ensures s.b.ep.merge == t.b.ep.merge
  {
    ReleasedIsLogged(ext, capA, capB, mergingA, mergingB, s);
    ReleasedIsLogged(ext, capC, capD, mergingC, mergingB, t);
    EncodePrefix(s.a.calls, t.a.calls);
    forall c | c in s.a.calls ensures c in t.a.calls {}
    ScheduleIndependent(ext, mergingB, capA, capB, mergingA, s, capC, capD, mergingC, t);
  }

  lemma ReleasedIsLogged<D(!new)>(ext: (D, seq<D>) -> D, capA: nat, capB: nat, mergingA: bool, mergingB: bool, s: System<D>)
    requires 1 <= capA && 1 <= capB
    requires Reachable(ext, NewSystem(capA, capB, mergingA, mergingB), s)
    ensures 1 <= s.b.ep.AckSeqnum() <= |Encode(s.a.calls)| + 1
    ensures s.b.released == Encode(s.a.calls)[..s.b.ep.AckSeqnum() - 1]
  {
    ReachableInv(ext, capA, capB, mergingA, mergingB, s);
  }

  lemma {:induction false} EncodePrefix<D>(a: seq<Call<D>>, b: seq<Call<D>>)
    requires a <= b
    ensures Encode(a) <= Encode(b)
    decreases |b|
  {
    if |a| < |b| {
      EncodePrefix(a, b[..|b| - 1]);
    } else {
      assert a == b;
    }
  }

  // --- Errors and limits ---------------------------------------------------------------------------

  /** With a receiver at least as large as the sender no run ever reports an error or an impossible ack. */
  lemma NoErrors<D(!new)>(ext: (D, seq<D>) -> D, capA: nat, capB: nat, mergingA: bool, mergingB: bool, s: System<D>)
    requires 1 <= capA <= capB
    requires Reachable(ext, NewSystem(capA, capB, mergingA, mergingB), s)
    ensures s.b.errors == []
    ensures forall p :: p in s.b.wire && p.header.ackNum.Some? ==> p.header.ackNum.value <= s.a.ep.NextSeqnum()
  {
    NoPrematureDrop(ext, capA, capB, mergingA, mergingB, s);
    ReachableInv(ext, capA, capB, mergingA, mergingB, s);
  }

  /** No sequence arithmetic leaves 64 bits, in any of the windows or at the start of a merge, at any capacities. */
  lemma NoOverflow<D(!new)>(ext: (D, seq<D>) -> D, capA: nat, capB: nat, mergingA: bool, mergingB: bool, s: System<D>)
    requires 1 <= capA && 1 <= capB
    requires Reachable(ext, NewSystem(capA, capB, mergingA, mergingB), s)
    ensures StaysIn64Bits(s.a) && StaysIn64Bits(s.b)
  {
    ReachableInv(ext, capA, capB, mergingA, mergingB, s);
    BufferedBelowNext(s.b.ep.recv, s.a.log);
    BufferedBelowNext(s.a.ep.recv, s.b.log);
  }

  ghost predicate StaysIn64Bits<D>(n: Node<D>) {
    && n.ep.send.left + |n.ep.send.data| <= U64_MAX
    && n.ep.recv.left + |n.ep.recv.data| <= U64_MAX
    && (n.ep.merge.end.Some? ==> n.ep.merge.end.value + 1 <= U64_MAX)
  }

  lemma BufferedBelowNext<D>(recv: Window<Packet<D>>, log: seq<Packet<D>>)
    requires recv.Valid() && recv.left <= |log| + 1 && FromLog(recv.Contents(), log)
    ensures recv.Next() <= |log| + 1
  {
    if recv.data != [] {
      assert recv.Has(recv.Next() - 1);
      assert recv.Next() - 1 in recv.Contents();
    }
  }

  /**
   * At every moment of every run: a merging receiver has reported an error of its merger if and only if
   * it has released a packet that announces more than its capacity.  Once everything has been released,
   * that is, if and only if not every announced group fits.
   */
  lemma MergeFailedIff<D(!new)>(ext: (D, seq<D>) -> D, capA: nat, capB: nat, mergingA: bool, s: System<D>)
    requires 1 <= capA && 1 <= capB
    requires Reachable(ext, NewSystem(capA, capB, mergingA, true), s)
    ensures MergeFailed(s.b) <==> !NoneOversized(s.b.released, capB)
    ensures s.b.ep.AckSeqnum() == s.a.ep.NextSeqnum() ==> (MergeFailed(s.b) <==> !AnnouncesFit(s.a.calls, capB))
  {
    FailedIsReported(ext, capA, capB, mergingA, s);
    ReleasedIsLogged(ext, capA, capB, mergingA, true, s);
    NextAfterCalls(ext, capA, capB, mergingA, true, s);
    PrefixMergesIff(ext, capB, s.a.calls, s.b.ep.AckSeqnum() - 1);
    MergesWithoutErrorIff(ext, capB, s.a.calls);
    assert Encode(s.a.calls)[..|Encode(s.a.calls)|] == Encode(s.a.calls);
  }

  lemma FailedIsReported<D(!new)>(ext: (D, seq<D>) -> D, capA: nat, capB: nat, mergingA: bool, s: System<D>)
    requires 1 <= capA && 1 <= capB
    requires Reachable(ext, NewSystem(capA, capB, mergingA, true), s)
    ensures MergeFailed(s.b) <==> MergeRun(ext, capB, InitialMerge(), s.b.released).1.Err?
  {
    ReachableInv(ext, capA, capB, mergingA, true, s);
  }

  // --- A receiver smaller than the sender ----------------------------------------------------------

  /** The state after A has sent `k` single packets and nothing has arrived. */
  ghost predicate SentOnly<D>(s: System<D>, start: System<D>, k: nat) {
    s.b == start.b && |s.a.log| == k && s.a.ep.send.left == 1 && (forall i :: 0 <= i < k ==> s.a.log[i] in s.a.wire)
  }

  lemma {:induction false} CanSend<D(!new)>(ext: (D, seq<D>) -> D, capA: nat, capB: nat, mergingA: bool, mergingB: bool, d: D, k: nat)
    returns (s: System<D>)
    requires 1 <= capA && 1 <= capB && k <= capA && k < U64_MAX - 1
    ensures Reachable(ext, NewSystem(capA, capB, mergingA, mergingB), s)
    ensures SentOnly(s, NewSystem(capA, capB, mergingA, mergingB), k)
  {
    var start := NewSystem<D>(capA, capB, mergingA, mergingB);
    if k == 0 {
      ReachableStart(ext, start);
      s := start;
    } else {
      var t := CanSend(ext, capA, capB, mergingA, mergingB, d, k - 1);
      ReachableInv(ext, capA, capB, mergingA, mergingB, t);
      var ev := AtA(Send(d, true, 0));
      ReachableStep(ext, start, t, ev);
      SendKeepsInv(t.a, d, true, 0);
      s := Step(ext, t, ev);
      forall i | 0 <= i < k ensures s.a.log[i] in s.a.wire {
        if i < k - 1 { assert s.a.log[i] == t.a.log[i]; }
      }
    }
  }

  /** A sender larger than its receiver can overrun it: the capacity condition of NoErrors is exact. */
  lemma SmallReceiverOverruns<D(!new)>(ext: (D, seq<D>) -> D, capA: nat, capB: nat, mergingA: bool, mergingB: bool, d: D)
    returns (s: System<D>)
    requires 1 <= capB < capA && capB < U64_MAX - 2
    ensures Reachable(ext, NewSystem(capA, capB, mergingA, mergingB), s)
    ensures s.b.errors == [ReceiveWindowFull(capB + 1)]
  {
    var start := NewSystem<D>(capA, capB, mergingA, mergingB);
    var t := CanSend(ext, capA, capB, mergingA, mergingB, d, capB + 1);
    ReachableInv(ext, capA, capB, mergingA, mergingB, t);
    var p := t.a.log[capB];
    LogNumbers(t.a.calls, t.a.log);
    assert p.header.seqnum == Some(1 + capB);
    var ev := AtB(Deliver(p));
    ReachableStep(ext, start, t, ev);
    s := Step(ext, t, ev);
    FreshNodeRefuses(ext, capB, mergingB, p);
  }

  lemma FreshNodeRefuses<D>(ext: (D, seq<D>) -> D, cap: nat, merging: bool, p: Packet<D>)
    requires 1 <= cap && p.header.ackNum.None? && p.header.seqnum == Some(cap + 1)
    ensures ActDeliver(ext, NewNode(cap, merging), p).errors == [ReceiveWindowFull(cap + 1)]
  {
    DeliverDataIs(ext, NewNode(cap, merging), p, cap + 1);
  }

  /** The condition is exact: no run of a sender and receiver ever fails if and only if the receiver is as large. */
  lemma ErrorFreeIff<D(!new)>(ext: (D, seq<D>) -> D, capA: nat, capB: nat, mergingA: bool, mergingB: bool, d: D)
    requires 1 <= capA && 1 <= capB < U64_MAX - 2
    ensures (forall s :: Reachable(ext, NewSystem(capA, capB, mergingA, mergingB), s) ==> s.b.errors == []) <==> capA <= capB
  {
    if capA <= capB {
      forall s | Reachable(ext, NewSystem<D>(capA, capB, mergingA, mergingB), s) ensures s.b.errors == [] {
        NoErrors(ext, capA, capB, mergingA, mergingB, s);
      }
    } else {
      var s := SmallReceiverOverruns(ext, capA, capB, mergingA, mergingB, d);
    }
  }

  // --- The other direction -------------------------------------------------------------------------

  function Mirror<D>(s: System<D>): System<D> {
    System(s.b, s.a)
  }

  function MirrorEvent<D>(ev: Event<D>): Event<D> {
    match ev
    case AtA(a) => AtB(a)
    case AtB(a) => AtA(a)
  }

  /** A run read with the two sides exchanged is a run, so what is stated for A sending holds for B. */
  lemma MirrorReachable<D(!new)>(ext: (D, seq<D>) -> D, capA: nat, capB: nat, mergingA: bool, mergingB: bool, s: System<D>)
    requires Reachable(ext, NewSystem(capA, capB, mergingA, mergingB), s)
    ensures Reachable(ext, NewSystem(capB, capA, mergingB, mergingA), Mirror(s))
  {
    var start := NewSystem<D>(capA, capB, mergingA, mergingB);
    var run: seq<System<D>>, events: seq<Event<D>> :| IsRun(ext, run, events) && run[0] == start && run[|run| - 1] == s;
    var run' := seq(|run|, i requires 0 <= i < |run| => Mirror(run[i]));
    var events' := seq(|events|, i requires 0 <= i < |events| => MirrorEvent(events[i]));
    forall i | 0 <= i < |events'| ensures Follows(ext, run'[i], events'[i], run'[i + 1]) {
      assert Follows(ext, run[i], events[i], run[i + 1]);
    }
    assert IsRun(ext, run', events');
  }
}
