/**
 * Recovery from loss: from every state that any run can reach, rounds in which nothing is lost
 * complete delivery and empty the send window, whatever was lost before.  One round is enough for
 * a receiver as large as the sender; in general each round delivers at least a window's worth.
 */
module Recovery {
  import opened Common
  import opened Packets
  import opened Windows
  import opened Endpoints
  import opened Reassembly
  import opened Nodes
  import opened Network
  import opened Delivery

  // --- What a resend transmits -----------------------------------------------------------------------

  ghost predicate Expired<S>(w: Window<Pending<S>>, now: nat) {
    forall i :: 0 <= i < |w.data| ==> w.data[i].Some? ==> w.data[i].value.nextSendAt <= now
  }

  ghost predicate AllSucceed(answers: nat -> Option<nat>) {
    forall k :: answers(k).Some?
  }

  /** With every timer expired, a resend puts every held packet on the wire, once and in order. */
  lemma {:induction false} ResendSendsAll<S>(w: Window<Pending<S>>, i: nat, k: nat, now: nat, answers: nat -> Option<nat>)
    requires i <= |w.data| && w.NoHoles() && AllSucceed(answers)
    requires forall j :: i <= j < |w.data| ==> w.data[j].value.nextSendAt <= now
    ensures var r := ResendFrom(w, i, k, now, Answering(answers));
            && r.result == Ok(())
            && |r.transmitted| == |w.data| - i
            && (forall j :: i <= j < |w.data| ==> r.transmitted[j - i] == w.data[j].value.packet)
    decreases |w.data| - i
  {
    if i < |w.data| {
      var p := w.data[i].value;
      var w' := w.(data := w.data[i := Some(Pending(p.packet, answers(k).value, p.tryCount + 1))]);
      ResendSendsAll(w', i + 1, k + 1, now, answers);
      var r' := ResendFrom(w', i + 1, k + 1, now, Answering(answers));
      var r := ResendFrom(w, i, k, now, Answering(answers));
      assert r.transmitted == [p.packet] + r'.transmitted;
      forall j | i <= j < |w.data| ensures r.transmitted[j - i] == w.data[j].value.packet {
        if j > i { assert r'.transmitted[j - (i + 1)] == w'.data[j].value.packet; }
      }
    }
  }

  /** What this one resend transmits, as opposed to all that was ever put on the wire. */
  function Transmitted<D>(x: Node<D>, now: nat, answers: nat -> Option<nat>): seq<Packet<D>> {
    TryResend(x.ep, now, Answering(answers)).1
  }

  /** With every timer expired, one resend transmits exactly the unacknowledged tail of the log. */
  lemma ResendIsUnackedTail<D>(x: Node<D>, now: nat, answers: nat -> Option<nat>)
    requires SendInv(x.ep.send, x.log) && Expired(x.ep.send, now) && AllSucceed(answers)
    ensures Transmitted(x, now, answers) == x.log[x.ep.send.left - 1..]
  {
    var w := x.ep.send;
    forall i | 0 <= i < |w.data| ensures w.data[i].Some? { assert HoldsLogged(w, i, x.log); }
    ResendSendsAll(w, 0, 0, now, answers);
    var transmitted := Transmitted(x, now, answers);
    forall j | 0 <= j < |w.data| ensures transmitted[j] == x.log[w.left - 1 + j] {
      assert HoldsLogged(w, j, x.log);
      assert transmitted[j - 0] == w.data[j].value.packet;
    }
  }

  // --- A round ---------------------------------------------------------------------------------------

  /** When the resend happens, how its callback answers, what arrives in which order, and the ack's payload. */
  datatype Plan<D> = Plan(now: nat, answers: nat -> Option<nat>, arrivals: seq<Packet<D>>, ackPayload: D)

  /**
   * Nothing is lost: the timers have expired, the resend succeeds, and each packet it transmits is among
   * the arrivals, in any order, any number of times, mixed with anything else ever transmitted.
   */
  ghost predicate LossFree<D>(s: System<D>, plan: Plan<D>) {
    && Expired(s.a.ep.send, plan.now)
    && AllSucceed(plan.answers)
    && (forall p :: p in Transmitted(s.a, plan.now, plan.answers) ==> p in plan.arrivals)
    && (forall p :: p in plan.arrivals ==> p in ActResend(s.a, plan.now, plan.answers).wire)
  }

  function DeliverAll<D>(ext: (D, seq<D>) -> D, y: Node<D>, arrivals: seq<Packet<D>>): Node<D>
    decreases |arrivals|
  {
    if arrivals == [] then y
    else DeliverAll(ext, ActDeliver(ext, y, arrivals[0]), arrivals[1..])
  }

  /** A resends, B receives the arrivals and acknowledges, A receives the acknowledgement. */
  function Round<D>(ext: (D, seq<D>) -> D, s: System<D>, plan: Plan<D>): System<D> {
    Acked(ext, ActResend(s.a, plan.now, plan.answers), DeliverAll(ext, s.b, plan.arrivals), plan.ackPayload)
  }

  /** `y` acknowledges if it has reason to, and `x` receives the acknowledgement. */
  function Acked<D>(ext: (D, seq<D>) -> D, x: Node<D>, y: Node<D>, ackPayload: D): System<D> {
    var y' := ActAck(y, ackPayload, true);
    System(if y.ep.shouldAck then ActDeliver(ext, x, y'.wire[|y'.wire| - 1]) else x, y')
  }

  // --- The arrivals ------------------------------------------------------------------------------------

  /** Packet `k` has been released or is waiting in the receive window. */
  ghost predicate Received<D>(y: Node<D>, k: nat) {
    k < y.ep.recv.left || k in y.ep.recv.Contents()
  }

  /** What a sequence of arrivals does: receives all within reach, and asks for an acknowledgement. */
  ghost predicate TakesAll<D>(y: Node<D>, arrivals: seq<Packet<D>>, y': Node<D>) {
    && y'.ep.recv.cap == y.ep.recv.cap
    && y.ep.recv.left <= y'.ep.recv.left
    && (forall k :: Received(y, k) ==> Received(y', k))
    && (forall p :: p in arrivals ==> IsTaken(y, p, y'))
    && (y.ep.shouldAck ==> y'.ep.shouldAck)
    && (y.ep.recv.left < y'.ep.recv.left ==> y'.ep.shouldAck)
  }

  ghost predicate IsTaken<D>(y: Node<D>, p: Packet<D>, y': Node<D>) {
    p.header.ackNum.None? ==>
      && p.header.seqnum.Some?
      && (p.header.seqnum.value < y.ep.recv.left + y.ep.recv.cap ==> Received(y', p.header.seqnum.value))
      && (p.header.seqnum.value < y.ep.recv.left ==> y'.ep.shouldAck)
  }

  lemma ArrivalReceives<D>(ext: (D, seq<D>) -> D, x: Node<D>, y: Node<D>, p: Packet<D>)
    requires NodeInv(x) && NodeInv(y) && Direction(ext, x, y) && Direction(ext, y, x) && p in x.wire
    ensures var y' := ActDeliver(ext, y, p);
            && NodeInv(y') && Direction(ext, x, y') && Direction(ext, y', x)
            && TakesAll(y, [p], y')
  {
    DeliverKeepsInv(ext, y, p);
    DeliverKeepsDirections(ext, y, x, p);
    ArrivalTaken(ext, x, y, p);
  }

  lemma ArrivalTaken<D>(ext: (D, seq<D>) -> D, x: Node<D>, y: Node<D>, p: Packet<D>)
    requires NodeInv(x) && NodeInv(y) && p in x.wire
    ensures TakesAll(y, [p], ActDeliver(ext, y, p))
  {
    if p.header.ackNum.Some? {
      DeliverAckKeepsInv(ext, y, p);
    } else {
      var s := WirePacket(x, p);
      DeliverDataIs(ext, y, p, s);
      DataReceives(y, p, s, ReleasedBy(y.ep, p), ActDeliver(ext, y, p));
    }
  }

  lemma DataReceives<D>(y: Node<D>, p: Packet<D>, s: nat, ready: seq<Packet<D>>, y': Node<D>)
    requires TakesData(y, p, s, ready, y') && s <= U64_MAX && p.header.seqnum == Some(s)
    requires y.ep.recv.left !in y.ep.recv.Contents()
    ensures TakesAll(y, [p], y')
  {
    var c := Buffered(y.ep.recv, p, s);
    if ready != [] { assert RunAt(c, y.ep.recv.left, ready, 0); }
    forall k: nat | Received(y, k) ensures Received(y', k) {
      if k >= y'.ep.recv.left { assert k in c; }
    }
    if s < y.ep.recv.left + y.ep.recv.cap && s >= y'.ep.recv.left { assert s in c; }
    assert IsTaken(y, p, y');
  }

  lemma {:induction false} ArrivalsReceive<D>(ext: (D, seq<D>) -> D, x: Node<D>, y: Node<D>, arrivals: seq<Packet<D>>)
    requires NodeInv(x) && NodeInv(y) && Direction(ext, x, y) && Direction(ext, y, x)
    requires forall p :: p in arrivals ==> p in x.wire
    ensures var y' := DeliverAll(ext, y, arrivals);
            && NodeInv(y') && Direction(ext, x, y') && Direction(ext, y', x)
            && TakesAll(y, arrivals, y')
    decreases |arrivals|
  {
    if arrivals != [] {
      var p := arrivals[0];
      var y1 := ActDeliver(ext, y, p);
      ArrivalReceives(ext, x, y, p);
      ArrivalsReceive(ext, x, y1, arrivals[1..]);
      TakesOneMore(y, p, y1, arrivals, DeliverAll(ext, y, arrivals));
    }
  }

  lemma TakesOneMore<D>(y: Node<D>, p: Packet<D>, y1: Node<D>, arrivals: seq<Packet<D>>, y': Node<D>)
    requires arrivals != [] && p == arrivals[0]
    requires TakesAll(y, [p], y1) && TakesAll(y1, arrivals[1..], y')
    ensures TakesAll(y, arrivals, y')
  {
    forall q | q in arrivals ensures IsTaken(y, q, y') {
      if q == p {
        assert q in [p];
        assert IsTaken(y, p, y1);
      } else {
        assert q in arrivals[1..];
        assert IsTaken(y1, q, y');
      }
    }
  }

  /** The unacknowledged tail of the log is among the arrivals. */
  ghost predicate Covers<D>(arrivals: seq<Packet<D>>, x: Node<D>) {
    forall i :: x.ep.send.left - 1 <= i < |x.log| ==> 0 <= i && x.log[i] in arrivals
  }

  lemma LossFreeCovers<D>(s: System<D>, plan: Plan<D>)
    requires SendInv(s.a.ep.send, s.a.log) && LossFree(s, plan)
    ensures Covers(plan.arrivals, s.a)
  {
    ResendIsUnackedTail(s.a, plan.now, plan.answers);
    var x := s.a;
    forall i | x.ep.send.left - 1 <= i < |x.log| ensures 0 <= i && x.log[i] in plan.arrivals {
      var tail := x.log[x.ep.send.left - 1..];
      assert tail[i + 1 - x.ep.send.left] == x.log[i];
    }
  }

  /** The receiver moves on by a whole window, or to the end; and if anything was held it has reason to acknowledge. */
  lemma ArrivalsAdvance<D>(x: Node<D>, y: Node<D>, arrivals: seq<Packet<D>>, y': Node<D>)
    requires SendInv(x.ep.send, x.log) && Consecutive(x.log, 1)
    requires forall i :: 0 <= i < |x.log| ==> x.log[i].header.ackNum.None?
    requires x.ep.send.left <= y.ep.recv.left && 1 <= y.ep.recv.cap
    requires y'.ep.recv.left !in y'.ep.recv.Contents()
    requires TakesAll(y, arrivals, y') && Covers(arrivals, x)
    ensures |x.log| + 1 <= y'.ep.recv.left || y.ep.recv.left + y.ep.recv.cap <= y'.ep.recv.left
    ensures x.ep.send.data != [] ==> y'.ep.shouldAck
  {
    if y'.ep.recv.left <= |x.log| {
      CoveredIsTaken(x, y, arrivals, y', y'.ep.recv.left - 1);
    }
    if x.ep.send.data != [] {
      CoveredIsTaken(x, y, arrivals, y', x.ep.send.left - 1);
    }
  }

  lemma CoveredIsTaken<D>(x: Node<D>, y: Node<D>, arrivals: seq<Packet<D>>, y': Node<D>, i: nat)
    requires Consecutive(x.log, 1) && x.ep.send.left - 1 <= i < |x.log| && x.log[i].header.ackNum.None?
    requires TakesAll(y, arrivals, y') && Covers(arrivals, x)
    ensures i + 1 < y.ep.recv.left + y.ep.recv.cap ==> Received(y', i + 1)
    ensures i + 1 < y.ep.recv.left ==> y'.ep.shouldAck
  {
    assert x.log[i] in arrivals && x.log[i].header.seqnum == Some(1 + i);
    assert IsTaken(y, x.log[i], y');
  }

  // --- One round, at any capacities --------------------------------------------------------------------

  /** The acknowledgement brings the sender to where the receiver is. */
  lemma AckCatchesUp<D>(ext: (D, seq<D>) -> D, x: Node<D>, y: Node<D>, d: D)
    requires NodeInv(x) && x.ep.send.left <= y.ep.AckSeqnum() <= |x.log| + 1
    requires x.ep.send.data != [] ==> y.ep.shouldAck
    ensures var s := Acked(ext, x, y, d);
            && s.a.ep.send.left == s.b.ep.AckSeqnum() == y.ep.AckSeqnum()
            && s.b.ep.recv.cap == y.ep.recv.cap
            && s.a.log == x.log && s.a.calls == x.calls
  {
    var y' := ActAck(y, d, true);
    if y.ep.shouldAck {
      DeliverAckKeepsInv(ext, x, y'.wire[|y'.wire| - 1]);
    }
  }

  /** How far one round brings the receiver. */
  ghost predicate MovesOn<D>(s: System<D>, s': System<D>) {
    && s'.a.log == s.a.log && s'.a.calls == s.a.calls
    && s'.b.ep.recv.cap == s.b.ep.recv.cap
    && s'.a.ep.send.left == s'.b.ep.AckSeqnum()
    && (s'.b.ep.AckSeqnum() >= |s.a.log| + 1 || s'.b.ep.AckSeqnum() >= s.b.ep.AckSeqnum() + s.b.ep.recv.cap)
  }

  lemma RoundMovesOn<D>(ext: (D, seq<D>) -> D, s: System<D>, plan: Plan<D>)
    requires Inv(ext, s) && LossFree(s, plan)
    ensures MovesOn(s, Round(ext, s, plan))
  {
    var a1 := ActResend(s.a, plan.now, plan.answers);
    var b1 := DeliverAll(ext, s.b, plan.arrivals);
    LossFreeCovers(s, plan);
    ResendKeepsInv(s.a, plan.now, plan.answers);
    QuietKeepsDirections(ext, s.a, s.b, a1);
    ArrivalsReceive(ext, a1, s.b, plan.arrivals);
    LogNumbers(a1.calls, a1.log);
    ArrivalsAdvance(a1, s.b, plan.arrivals, b1);
    AckCatchesUp(ext, a1, b1, plan.ackPayload);
  }

  /** The round is a run of the system. */
  lemma RoundReachable<D(!new)>(ext: (D, seq<D>) -> D, start: System<D>, s: System<D>, plan: Plan<D>)
    requires Reachable(ext, start, s) && Inv(ext, s) && LossFree(s, plan)
    ensures Reachable(ext, start, Round(ext, s, plan)) && Inv(ext, Round(ext, s, plan))
  {
    var resend: Event<D> := AtA(Resend(plan.now, plan.answers));
    ReachableStep(ext, start, s, resend);
    StepKeepsInv(ext, s, resend);
    var s1 := Step(ext, s, resend);
    ArrivalsReachable(ext, start, s1, plan.arrivals);
    var s2 := s1.(b := DeliverAll(ext, s1.b, plan.arrivals));
    AckedReachable(ext, start, s2, plan.ackPayload);
  }

  lemma AckedReachable<D(!new)>(ext: (D, seq<D>) -> D, start: System<D>, s: System<D>, d: D)
    requires Reachable(ext, start, s) && Inv(ext, s)
    ensures Reachable(ext, start, Acked(ext, s.a, s.b, d)) && Inv(ext, Acked(ext, s.a, s.b, d))
  {
    var sendAck: Event<D> := AtB(SendAck(d, true));
    ReachableStep(ext, start, s, sendAck);
    StepKeepsInv(ext, s, sendAck);
    var s1 := Step(ext, s, sendAck);
    if s.b.ep.shouldAck {
      var deliver: Event<D> := AtA(Deliver(s1.b.wire[|s1.b.wire| - 1]));
      ReachableStep(ext, start, s1, deliver);
      StepKeepsInv(ext, s1, deliver);
    }
  }

  lemma {:induction false} ArrivalsReachable<D(!new)>(ext: (D, seq<D>) -> D, start: System<D>, s: System<D>, arrivals: seq<Packet<D>>)
    requires Reachable(ext, start, s) && Inv(ext, s)
    requires forall p :: p in arrivals ==> p in s.a.wire
    ensures var s' := s.(b := DeliverAll(ext, s.b, arrivals));
            Reachable(ext, start, s') && Inv(ext, s')
    decreases |arrivals|
  {
    if arrivals != [] {
      ArrivalReachable(ext, start, s, arrivals[0]);
      ArrivalsReachable(ext, start, s.(b := ActDeliver(ext, s.b, arrivals[0])), arrivals[1..]);
    }
  }

  lemma ArrivalReachable<D(!new)>(ext: (D, seq<D>) -> D, start: System<D>, s: System<D>, p: Packet<D>)
    requires Reachable(ext, start, s) && Inv(ext, s) && p in s.a.wire
    ensures var s' := s.(b := ActDeliver(ext, s.b, p));
            Reachable(ext, start, s') && Inv(ext, s')
  {
    var ev: Event<D> := AtB(Deliver(p));
    ReachableStep(ext, start, s, ev);
    StepKeepsInv(ext, s, ev);
  }

  // --- Rounds to completion ------------------------------------------------------------------------------

  function Rounds<D>(ext: (D, seq<D>) -> D, s: System<D>, plans: seq<Plan<D>>): System<D>
    decreases |plans|
  {
    if plans == [] then s else Rounds(ext, Round(ext, s, plans[0]), plans[1..])
  }

  ghost predicate AllLossFree<D>(ext: (D, seq<D>) -> D, s: System<D>, plans: seq<Plan<D>>)
    decreases |plans|
  {
    plans != [] ==> LossFree(s, plans[0]) && AllLossFree(ext, Round(ext, s, plans[0]), plans[1..])
  }

  lemma {:induction false} RoundsMoveOn<D(!new)>(ext: (D, seq<D>) -> D, start: System<D>, s: System<D>, plans: seq<Plan<D>>)
    requires Reachable(ext, start, s) && Inv(ext, s) && AllLossFree(ext, s, plans)
    requires plans != [] && |s.a.log| + 1 - s.b.ep.AckSeqnum() <= |plans| * s.b.ep.recv.cap
    ensures var s' := Rounds(ext, s, plans);
            && Reachable(ext, start, s') && Inv(ext, s')
            && s'.a.calls == s.a.calls && s'.a.log == s.a.log
            && s'.a.ep.send.left == s'.b.ep.AckSeqnum() == |s.a.log| + 1
    decreases |plans|
  {
    var s1 := Round(ext, s, plans[0]);
    RoundMovesOn(ext, s, plans[0]);
    RoundReachable(ext, start, s, plans[0]);
    assert s1.b.ep.AckSeqnum() <= |s.a.log| + 1;
    OneRoundLess(|s.a.log| + 1, s.b.ep.AckSeqnum(), s1.b.ep.AckSeqnum(), |plans|, s.b.ep.recv.cap);
    if |plans| > 1 {
      RoundsMoveOn(ext, start, s1, plans[1..]);
    }
  }

  lemma OneRoundLess(next: nat, from: nat, to: nat, rounds: nat, cap: nat)
    requires 1 <= rounds && next - from <= rounds * cap
    requires to >= next || to >= from + cap
    ensures next - to <= (rounds - 1) * cap
  {
    assert rounds * cap == cap + (rounds - 1) * cap;
  }

  /**
   * Nothing is undelivered and nothing held, and the receiver's application has exactly what the calls
   * submitted: payload by payload, or, if it accepts the groups, merged into the messages meant as long
   * as their fragments can be counted in 32 bits.
   */
  ghost predicate Recovered<D>(ext: (D, seq<D>) -> D, calls: seq<Call<D>>, s: System<D>) {
    && s.a.calls == calls
    && s.a.ep.send.data == []
    && s.b.ep.AckSeqnum() == s.a.ep.NextSeqnum()
    && (!s.b.merging ==> s.b.returned == Submitted(calls))
    && (s.b.merging && AnnouncesFit(calls, s.b.ep.recv.cap) ==>
          (s.b.returned == Messages(ext, calls) <==> Fits(calls, U32_COUNT - 1)))
  }

  lemma CaughtUpIsRecovered<D(!new)>(ext: (D, seq<D>) -> D, capA: nat, capB: nat, mergingA: bool, mergingB: bool, s: System<D>)
    requires 1 <= capA && 1 <= capB
    requires Reachable(ext, NewSystem(capA, capB, mergingA, mergingB), s)
    requires s.a.ep.send.left == s.b.ep.AckSeqnum() == |s.a.log| + 1
    ensures Recovered(ext, s.a.calls, s)
  {
    ReachableInv(ext, capA, capB, mergingA, mergingB, s);
    if mergingB {
      if AnnouncesFit(s.a.calls, capB) { MessagesDelivered(ext, capA, capB, mergingA, s); }
    } else {
      ExactlyOnceInOrder(ext, capA, capB, mergingA, mergingB, s);
      EncodeCarriesSubmitted(s.a.calls);
      assert Submitted(s.a.calls)[..|s.a.log|] == Submitted(s.a.calls);
    }
  }

  /**
   * From every reachable state, at any capacities: as many loss-free rounds as it takes the receiver's
   * window to cover what is missing recover everything.
   */
  lemma RoundsRecover<D(!new)>(ext: (D, seq<D>) -> D, capA: nat, capB: nat, mergingA: bool, mergingB: bool, s: System<D>,
                               plans: seq<Plan<D>>)
    requires 1 <= capA && 1 <= capB
    requires Reachable(ext, NewSystem(capA, capB, mergingA, mergingB), s)
    requires plans != [] && AllLossFree(ext, s, plans)
    requires s.a.ep.NextSeqnum() - s.b.ep.AckSeqnum() <= |plans| * capB
    ensures var s' := Rounds(ext, s, plans);
            Reachable(ext, NewSystem(capA, capB, mergingA, mergingB), s') && Recovered(ext, s.a.calls, s')
  {
    ReachableInv(ext, capA, capB, mergingA, mergingB, s);
    RoundsMoveOn(ext, NewSystem(capA, capB, mergingA, mergingB), s, plans);
    CaughtUpIsRecovered(ext, capA, capB, mergingA, mergingB, Rounds(ext, s, plans));
  }

  /** A receiver as large as the sender accepts every group and recovers in one round. */
  lemma OneRoundRecovers<D(!new)>(ext: (D, seq<D>) -> D, capA: nat, capB: nat, mergingA: bool, mergingB: bool, s: System<D>,
                                  plan: Plan<D>)
    requires 1 <= capA <= capB
    requires Reachable(ext, NewSystem(capA, capB, mergingA, mergingB), s)
    requires LossFree(s, plan)
    ensures var s' := Round(ext, s, plan);
            && Reachable(ext, NewSystem(capA, capB, mergingA, mergingB), s')
            && AnnouncesFit(s.a.calls, capB) && Recovered(ext, s.a.calls, s')
  {
    LargerReceiverCovers(ext, capA, capB, mergingA, mergingB, s);
    assert [plan][1..] == [];
    assert Rounds(ext, s, [plan]) == Round(ext, s, plan);
    RoundsRecover(ext, capA, capB, mergingA, mergingB, s, [plan]);
  }

  lemma LargerReceiverCovers<D(!new)>(ext: (D, seq<D>) -> D, capA: nat, capB: nat, mergingA: bool, mergingB: bool, s: System<D>)
    requires 1 <= capA <= capB
    requires Reachable(ext, NewSystem(capA, capB, mergingA, mergingB), s)
    ensures AnnouncesFit(s.a.calls, capB)
    ensures s.a.ep.NextSeqnum() - s.b.ep.AckSeqnum() <= capB
  {
    ReachableInv(ext, capA, capB, mergingA, mergingB, s);
    LargerReceiverAccepts(s.a, capB);
  }

  /** Such a round is possible from every reachable state: late enough, with just the resent packets arriving. */
  lemma LossFreeRoundExists<D(!new)>(s: System<D>, ackPayload: D) returns (plan: Plan<D>)
    ensures LossFree(s, plan)
    ensures plan.arrivals == Transmitted(s.a, plan.now, plan.answers)
  {
    var now := LateEnough(s.a.ep.send.data);
    var answers: nat -> Option<nat> := k => Some(now + 1);
    plan := Plan(now, answers, Transmitted(s.a, now, answers), ackPayload);
  }

  lemma {:induction false} LateEnough<S>(slots: seq<Option<Pending<S>>>) returns (now: nat)
    ensures forall i :: 0 <= i < |slots| ==> slots[i].Some? ==> slots[i].value.nextSendAt <= now
    decreases |slots|
  {
    now := 0;
    if slots != [] {
      var before := LateEnough(slots[..|slots| - 1]);
      var last := slots[|slots| - 1];
      now := if last.Some? && last.value.nextSendAt > before then last.value.nextSendAt else before;
      forall i | 0 <= i < |slots| ensures slots[i].Some? ==> slots[i].value.nextSendAt <= now {
        if i < |slots| - 1 { assert slots[i] == slots[..|slots| - 1][i]; }
      }
    }
  }

  // --- A group that is too long to be counted --------------------------------------------------------------

  /** The whole system and its capacities in the failing case. */
  const LONG_CAP := U32_COUNT + 1

  /**
   * A group of 2^32 fragments announces none: a run in which it is sent, delivered and acknowledged in
   * full, and comes out fragment by fragment instead of as the one message meant.
   */
  lemma LongGroupIsCutUp<D(!new)>(ext: (D, seq<D>) -> D, fragments: seq<D>) returns (s: System<D>)
    requires |fragments| == U32_COUNT
    ensures Reachable(ext, NewSystem(LONG_CAP, LONG_CAP, true, true), s)
    ensures s.a.calls == [Group(fragments)] && s.a.ep.send.data == [] && s.b.ep.AckSeqnum() == s.a.ep.NextSeqnum()
    ensures s.b.returned == fragments
    ensures Messages(ext, s.a.calls) == [ext(fragments[0], fragments[1..])] != s.b.returned
  {
    var sent := LongGroupSent(ext, fragments);
    var plan := LossFreeRoundExists(sent, fragments[0]);
    OneRoundRecovers(ext, LONG_CAP, LONG_CAP, true, true, sent, plan);
    s := Round(ext, sent, plan);
    LongGroupPieces(ext, fragments, s);
  }

  lemma LongGroupSent<D(!new)>(ext: (D, seq<D>) -> D, fragments: seq<D>) returns (sent: System<D>)
    requires |fragments| == U32_COUNT
    ensures Reachable(ext, NewSystem(LONG_CAP, LONG_CAP, true, true), sent) && sent.a.calls == [Group(fragments)]
  {
    var start := NewSystem<D>(LONG_CAP, LONG_CAP, true, true);
    ReachableStart(ext, start);
    NewSystemInv(ext, LONG_CAP, LONG_CAP, true, true);
    var send: Event<D> := AtA(SendFragments(fragments, i => 0));
    ReachableStep(ext, start, start, send);
    SendFragmentsKeepsInv(start.a, fragments, i => 0);
    sent := Step(ext, start, send);
  }

  lemma LongGroupPieces<D(!new)>(ext: (D, seq<D>) -> D, fragments: seq<D>, s: System<D>)
    requires |fragments| == U32_COUNT
    requires Reachable(ext, NewSystem(LONG_CAP, LONG_CAP, true, true), s)
    requires s.a.calls == [Group(fragments)] && s.b.ep.AckSeqnum() == s.a.ep.NextSeqnum()
    ensures s.b.returned == fragments
    ensures Messages(ext, s.a.calls) == [ext(fragments[0], fragments[1..])]
  {
    LargerReceiverCovers(ext, LONG_CAP, LONG_CAP, true, true, s);
    Regrouped(ext, LONG_CAP, LONG_CAP, true, s);
    NextAfterCalls(ext, LONG_CAP, LONG_CAP, true, true, s);
    RegroupedIsMeant(ext, s.a.calls, s.b);
    LongGroupWholes(ext, fragments);
  }

  lemma LongGroupWholes<D>(ext: (D, seq<D>) -> D, fragments: seq<D>)
    requires |fragments| == U32_COUNT
    ensures var pieces := Pieces([Group(fragments)]);
            && (forall i :: 0 <= i < |pieces| ==> 1 <= |pieces[i]|)
            && Wholes(ext, pieces) == fragments
            && Messages(ext, [Group(fragments)]) == [ext(fragments[0], fragments[1..])]
  {
    var calls: seq<Call<D>> := [Group(fragments)];
    assert calls[..0] == [] && Encode(calls[..0]) == [] && Pieces(calls[..0]) == [] && Messages(ext, calls[..0]) == [];
    assert Pieces(calls) == Singles(EncodeGroup(fragments, 1));
    assert Messages(ext, calls) == CallMessages(ext, calls[0]);
  }
}
