/**
 * What a refused group costs: the error also discards whatever the same call had already merged, so the
 * messages that are lost depend on the order of arrival.
 */
module Refusals {
  import opened Common
  import opened Packets
  import opened Windows
  import opened Merging
  import opened Reassembly
  import opened Nodes
  import opened Faults
  import opened Network

  lemma DeliverTwo<D(!new)>(ext: (D, seq<D>) -> D, capA: nat, capB: nat, mergingA: bool, sent: System<D>, p: Packet<D>, q: Packet<D>)
    requires 1 <= capA && 1 <= capB
    requires Reachable(ext, NewSystem(capA, capB, mergingA, true), sent) && p in sent.a.wire && q in sent.a.wire
    ensures Reachable(ext, NewSystem(capA, capB, mergingA, true), sent.(b := ActDeliver(ext, ActDeliver(ext, sent.b, p), q)))
  {
    var start := NewSystem<D>(capA, capB, mergingA, true);
    ReachableInv(ext, capA, capB, mergingA, true, sent);
    ReachableStep(ext, start, sent, AtB(Deliver(p)));
    var mid := Step(ext, sent, AtB(Deliver(p)));
    ReachableInv(ext, capA, capB, mergingA, true, mid);
    ReachableStep(ext, start, mid, AtB(Deliver(q)));
  }

  /** A sender that has sent a message and then a group, with nothing arrived. */
  lemma MessageThenGroup<D(!new)>(ext: (D, seq<D>) -> D, capA: nat, capB: nat, mergingA: bool, d: D, fragments: seq<D>)
    returns (sent: System<D>)
    requires 1 <= capB && 1 <= |fragments| < U32_COUNT && |fragments| + 2 <= capA
    ensures Reachable(ext, NewSystem(capA, capB, mergingA, true), sent)
    ensures sent.b == NewNode(capB, true) && sent.a.calls == [Single(d), Group(fragments)]
    ensures EncodeCall(Single(d), 1)[0] in sent.a.wire && EncodeCall(Group(fragments), 2)[0] in sent.a.wire
  {
    var start := NewSystem<D>(capA, capB, mergingA, true);
    var mid := MessageSent(ext, capA, capB, mergingA, d);
    ReachableInv(ext, capA, capB, mergingA, true, mid);
    var second: Event<D> := AtA(SendFragments(fragments, i => 0));
    ReachableStep(ext, start, mid, second);
    GroupSent(mid.a, fragments, EncodeCall(Single(d), 1)[0]);
    sent := Step(ext, mid, second);
  }

  lemma GroupSent<D>(n: Node<D>, fragments: seq<D>, p: Packet<D>)
    requires NodeInv(n) && |n.log| == 1 && p in n.wire && n.ep.NextSeqnum() + |fragments| <= U64_MAX
    requires 1 <= |fragments| && |n.ep.send.data| + |fragments| < n.ep.send.cap
    ensures var n' := ActSendFragments(n, fragments, i => 0);
            n'.calls == n.calls + [Group(fragments)] && p in n'.wire && EncodeCall(Group(fragments), 2)[0] in n'.wire
  {
    SendFragmentsKeepsInv(n, fragments, i => 0);
    assert n.ep.NextSeqnum() == 2;
  }

  lemma MessageSent<D(!new)>(ext: (D, seq<D>) -> D, capA: nat, capB: nat, mergingA: bool, d: D) returns (s: System<D>)
    requires 2 <= capA && 1 <= capB
    ensures Reachable(ext, NewSystem(capA, capB, mergingA, true), s)
    ensures s.b == NewNode(capB, true) && s.a.calls == [Single(d)] && |s.a.log| == 1 && |s.a.ep.send.data| == 1
    ensures EncodeCall(Single(d), 1)[0] in s.a.wire
  {
    var start := NewSystem<D>(capA, capB, mergingA, true);
    ReachableStart(ext, start);
    ReachableInv(ext, capA, capB, mergingA, true, start);
    var first: Event<D> := AtA(Send(d, true, 0));
    ReachableStep(ext, start, start, first);
    SendKeepsInv(start.a, d, true, 0);
    s := Step(ext, start, first);
  }

  /** In order, the message is returned before the group is refused. */
  lemma RefusedInOrder<D>(ext: (D, seq<D>) -> D, cap: nat, p: Packet<D>, q: Packet<D>)
    requires 2 <= cap && Numbered(p, 1) && Numbered(q, 2) && p.header.numPackets.None? && Oversized(q, cap)
    ensures var n := ActDeliver(ext, ActDeliver(ext, NewNode(cap, true), p), q);
            n.released == [p, q] && n.errors == [InvalidNumPackets(q.header.numPackets.value)] && n.returned == [p.data]
  {
    RunOne(ext, cap, InitialMerge(), p);
    RunOne(ext, cap, InitialMerge(), q);
    ArriveAtFront(1, cap, p);
    DeliverMerges(ext, NewNode(cap, true), p, 1, Window(2, [], cap), [p]);
    ArriveAtFront(2, cap, q);
    DeliverMerges(ext, ActDeliver(ext, NewNode(cap, true), p), q, 2, Window(3, [], cap), [q]);
  }

  /** The other way round one call merges both, and its error discards the message. */
  lemma RefusedReversed<D>(ext: (D, seq<D>) -> D, cap: nat, p: Packet<D>, q: Packet<D>)
    requires 2 <= cap && Numbered(p, 1) && Numbered(q, 2) && p.header.numPackets.None? && Oversized(q, cap)
    ensures var n := ActDeliver(ext, ActDeliver(ext, NewNode(cap, true), q), p);
            n.released == [p, q] && n.errors == [InvalidNumPackets(q.header.numPackets.value)] && n.returned == []
  {
    RunOne(ext, cap, InitialMerge(), p);
    RunOne(ext, cap, InitialMerge(), q);
    assert [p] + [q] == [p, q];
    MergeRunAppend(ext, cap, InitialMerge(), [p], [q]);
    ArriveReversed(cap, p, q);
    DeliverMerges(ext, NewNode(cap, true), q, 2, Window(1, [None, Some(q)], cap), []);
    DeliverMerges(ext, ActDeliver(ext, NewNode(cap, true), q), p, 1, Window(3, [], cap), [p, q]);
  }

  /**
   * Two runs with the same calls and the same packets released and acknowledged: a message followed by a
   * group that the receiver refuses is returned in one of them and lost in the other.
   */
  lemma RefusalDependsOnOrder<D(!new)>(ext: (D, seq<D>) -> D, capA: nat, capB: nat, mergingA: bool, d: D, fragments: seq<D>)
    returns (s: System<D>, t: System<D>)
    requires 2 <= capB < |fragments| < U32_COUNT && |fragments| + 2 <= capA
    ensures Reachable(ext, NewSystem(capA, capB, mergingA, true), s) && Reachable(ext, NewSystem(capA, capB, mergingA, true), t)
    ensures s.a == t.a && s.a.calls == [Single(d), Group(fragments)]
    ensures s.b.released == t.b.released && |s.b.released| == 2
    ensures s.b.errors == t.b.errors == [InvalidNumPackets(|fragments|)]
    ensures s.b.returned == [d] && t.b.returned == []
  {
    var sent := MessageThenGroup(ext, capA, capB, mergingA, d, fragments);
    var p, q := EncodeCall(Single(d), 1)[0], EncodeCall(Group(fragments), 2)[0];
    assert |fragments| % U32_COUNT == |fragments|;
    RefusedInOrder(ext, capB, p, q);
    RefusedReversed(ext, capB, p, q);
    DeliverTwo(ext, capA, capB, mergingA, sent, p, q);
    DeliverTwo(ext, capA, capB, mergingA, sent, q, p);
    s := sent.(b := ActDeliver(ext, ActDeliver(ext, sent.b, p), q));
    t := sent.(b := ActDeliver(ext, ActDeliver(ext, sent.b, q), p));
  }
}
