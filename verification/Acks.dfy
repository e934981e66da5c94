/** When an endpoint acknowledges: over whole runs, against an arbitrary peer. */
module Acks {
  import opened Common
  import opened Packets
  import opened Windows
  import opened Nodes
  import opened Faults

  /** The i-th action delivers a data packet that lies before the window or makes it release something. */
  ghost predicate AsksForAck<D>(run: seq<Node<D>>, actions: seq<Action<D>>, i: nat)
    requires i < |actions| && |run| == |actions| + 1
  {
    && actions[i].Deliver?
    && var h := actions[i].packet.header;
    && h.ackNum.None? && h.seqnum.Some?
    && (h.seqnum.value < run[i].ep.AckSeqnum() || run[i + 1].released != run[i].released)
  }

  ghost predicate Acknowledges<D>(a: Action<D>) {
    a.SendAck? && a.succeeds
  }

  ghost predicate AskedSince<D>(run: seq<Node<D>>, actions: seq<Action<D>>, i: nat, j: nat)
    requires j <= |actions| && |run| == |actions| + 1
  {
    i < j && AsksForAck(run, actions, i) && forall k :: i < k < j ==> !Acknowledges(actions[k])
  }

  /** Something has asked for an acknowledgement since the start or the last one that went out. */
  ghost predicate AckWanted<D>(run: seq<Node<D>>, actions: seq<Action<D>>, j: nat)
    requires j <= |actions| && |run| == |actions| + 1
  {
    exists i :: AskedSince(run, actions, i, j)
  }

  lemma DataAsks<D>(ext: (D, seq<D>) -> D, n: Node<D>, p: Packet<D>)
    requires NodeInv(n) && p.header.ackNum.None? && p.header.seqnum.Some?
    ensures var n' := ActDeliver(ext, n, p);
            n'.ep.shouldAck <==> n.ep.shouldAck || p.header.seqnum.value < n.ep.AckSeqnum() || n'.released != n.released
  {
    var s, ready := p.header.seqnum.value, ReleasedBy(n.ep, p);
    var n' := ActDeliver(ext, n, p);
    DeliverDataIs(ext, n, p, s);
    var c := Buffered(n.ep.recv, p, s);
    if ready != [] { assert RunAt(c, n.ep.recv.left, ready, 0); }
    assert n'.released != n.released <==> ready != [];
  }

  lemma StepAsks<D>(ext: (D, seq<D>) -> D, run: seq<Node<D>>, actions: seq<Action<D>>, i: nat)
    requires IsNodeRun(ext, run, actions) && i < |actions| && NodeInv(run[i])
    ensures run[i + 1].ep.shouldAck <==> AsksForAck(run, actions, i) || (run[i].ep.shouldAck && !Acknowledges(actions[i]))
  {
    assert NodeFollows(ext, run[i], actions[i], run[i + 1]);
    if actions[i].Deliver? {
      var p := actions[i].packet;
      if p.header.ackNum.None? && p.header.seqnum.Some? { DataAsks(ext, run[i], p); }
    } else {
      OthersDoNotAsk(ext, run[i], actions[i]);
    }
  }

  lemma OthersDoNotAsk<D>(ext: (D, seq<D>) -> D, n: Node<D>, a: Action<D>)
    requires NodeInv(n) && HasRoom(n, a) && !a.Deliver?
    ensures Act(ext, n, a).ep.shouldAck <==> n.ep.shouldAck && !Acknowledges(a)
  {
    if a.SendFragments? { SendFragmentsKeepsInv(n, a.fragments, a.timeouts); }
  }

  lemma WantedStep<D>(run: seq<Node<D>>, actions: seq<Action<D>>, j: nat)
    requires j < |actions| && |run| == |actions| + 1
    ensures AckWanted(run, actions, j + 1) <==> AsksForAck(run, actions, j) || (AckWanted(run, actions, j) && !Acknowledges(actions[j]))
  {
    assert AskedSince(run, actions, j, j + 1) <==> AsksForAck(run, actions, j);
    if AckWanted(run, actions, j + 1) {
      var i: nat :| AskedSince(run, actions, i, j + 1);
      assert i < j ==> AskedSince(run, actions, i, j) && !Acknowledges(actions[j]);
    }
    if AckWanted(run, actions, j) && !Acknowledges(actions[j]) {
      var i: nat :| AskedSince(run, actions, i, j);
      assert AskedSince(run, actions, i, j + 1);
    }
  }

  ghost predicate AsksAt<D>(run: seq<Node<D>>, actions: seq<Action<D>>, i: nat)
    requires i < |actions| && |run| == |actions| + 1
  {
    run[i + 1].ep.shouldAck <==> AsksForAck(run, actions, i) || (run[i].ep.shouldAck && !Acknowledges(actions[i]))
  }

  lemma {:induction false} WantedThroughout<D>(run: seq<Node<D>>, actions: seq<Action<D>>, j: nat)
    requires |run| == |actions| + 1 && j < |run| && !run[0].ep.shouldAck
    requires forall i :: 0 <= i < |actions| ==> AsksAt(run, actions, i)
    ensures run[j].ep.shouldAck <==> AckWanted(run, actions, j)
    decreases j
  {
    if j > 0 {
      WantedThroughout(run, actions, j - 1);
      assert AsksAt(run, actions, j - 1);
      WantedStep(run, actions, j - 1);
    }
  }

  /** At every point of every run an acknowledgement is due if and only if something asked for it that was not answered. */
  lemma AckDueIff<D>(ext: (D, seq<D>) -> D, cap: nat, merging: bool, run: seq<Node<D>>, actions: seq<Action<D>>, j: nat)
    requires 1 <= cap && IsNodeRun(ext, run, actions) && run[0] == NewNode(cap, merging) && j < |run|
    ensures run[j].ep.shouldAck <==> AckWanted(run, actions, j)
  {
    forall i | 0 <= i < |actions| ensures AsksAt(run, actions, i) {
      NewNodeInv<D>(cap, merging);
      NodeRunKeepsInv(ext, run, actions, i);
      StepAsks(ext, run, actions, i);
    }
    WantedThroughout(run, actions, j);
  }

  /**
   * So an attempt to acknowledge puts a packet on the wire if and only if its callback succeeds and
   * something asked for it; the packet then carries one more than the number of packets released.
   */
  lemma AckSentIff<D>(ext: (D, seq<D>) -> D, cap: nat, merging: bool, run: seq<Node<D>>, actions: seq<Action<D>>, j: nat)
    requires 1 <= cap && IsNodeRun(ext, run, actions) && run[0] == NewNode(cap, merging) && j < |actions|
    requires actions[j].SendAck?
    ensures run[j + 1].wire == run[j].wire +
              if actions[j].succeeds && AckWanted(run, actions, j)
              then [Packet(Header(None, Some(|run[j].released| + 1), None), actions[j].payload)] else []
  {
    AckDueIff(ext, cap, merging, run, actions, j);
    NewNodeInv<D>(cap, merging);
    NodeRunKeepsInv(ext, run, actions, j);
    assert NodeFollows(ext, run[j], actions[j], run[j + 1]);
  }
}
