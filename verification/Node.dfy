/**
 * One endpoint with its application and its outgoing wire, as a deterministic function of the
 * actions taken on it.  Incoming packets are arbitrary here: nothing is assumed of the peer.
 */
module Nodes {
  import opened Common
  import opened Packets
  import opened Windows
  import opened Merging
  import opened Endpoints
  import opened Reassembly

  datatype Node<D> = Node(
    ep: Endpoint<Packet<D>, D>,
    merging: bool,                  // the application polls receive_and_merge rather than receive
    calls: seq<Call<D>>,            // accepted sends
    log: seq<Packet<D>>,            // their packets, in sequence order
    wire: seq<Packet<D>>,           // every transmission ever made
    released: seq<Packet<D>>,       // every packet the receive window has given up
    returned: seq<D>,               // everything returned to the application
    errors: seq<ReceiveError>)      // every error returned to it

  /**
   * Callbacks are honest: a send callback that succeeds put exactly that packet on the wire, and
   * one that fails put nothing there.
   */
  datatype Action<D> =
    | Send(payload: D, succeeds: bool, timeout: nat)
    | SendFragments(fragments: seq<D>, timeouts: nat -> nat)
    | SendAck(payload: D, succeeds: bool)
    | Resend(now: nat, answers: nat -> Option<nat>)
    | Deliver(packet: Packet<D>)

  function NewNode<D>(cap: nat, merging: bool): Node<D> {
    Node(NewEndpoint(cap), merging, [], [], [], [], [], [])
  }

  function Sender<D>(payload: D, succeeds: bool, timeout: nat): Header -> Option<(Packet<D>, nat)> {
    (h: Header) => if succeeds then Some((Packet(h, payload), timeout)) else None
  }

  /** Each fragment's callback sets the packet's header, sends the packet and returns it. */
  function FragmentCallback<D>(timeouts: nat -> nat): (nat, Header, Packet<D>) -> (Packet<D>, nat) {
    (i: nat, h: Header, p: Packet<D>) => (Packet(h, p.data), timeouts(i))
  }

  /** Fragments before the callback has set their headers. */
  function Unsent<D>(fragments: seq<D>): (r: seq<Packet<D>>)
    ensures |r| == |fragments|
    ensures forall i :: 0 <= i < |r| ==> r[i] == Packet(DEFAULT_HEADER, fragments[i])
  {
    seq(|fragments|, i requires 0 <= i < |fragments| => Packet(DEFAULT_HEADER, fragments[i]))
  }

  /** Sequence numbers are left for the action; wrap-around is not supported by the protocol. */
  ghost predicate HasRoom<D>(n: Node<D>, a: Action<D>) {
    match a
    case Send(_, _, _) => n.ep.NextSeqnum() < U64_MAX
    case SendFragments(fragments, _) => n.ep.NextSeqnum() + |fragments| <= U64_MAX
    case _ => true
  }

  function Act<D>(ext: (D, seq<D>) -> D, n: Node<D>, a: Action<D>): Node<D>
    requires n.ep.Valid() && HasRoom(n, a)
  {
    match a
    case Send(d, ok, timeout) => ActSend(n, d, ok, timeout)
    case SendFragments(fragments, timeouts) => ActSendFragments(n, fragments, timeouts)
    case SendAck(d, ok) => ActAck(n, d, ok)
    case Resend(now, answers) => ActResend(n, now, answers)
    case Deliver(p) => ActDeliver(ext, n, p)
  }

  function ActSend<D>(n: Node<D>, d: D, ok: bool, timeout: nat): Node<D>
    requires n.ep.Valid() && n.ep.NextSeqnum() < U64_MAX
  {
    var (ep, r) := TrySend(n.ep, Sender(d, ok, timeout));
    if r.Err? then n.(ep := ep)
    else
      var packets := EncodeCall(Single(d), n.ep.NextSeqnum());
      n.(ep := ep, calls := n.calls + [Single(d)], log := n.log + packets, wire := n.wire + packets)
  }

  function ActSendFragments<D>(n: Node<D>, fragments: seq<D>, timeouts: nat -> nat): Node<D>
    requires n.ep.Valid() && n.ep.NextSeqnum() + |fragments| <= U64_MAX
  {
    var (ep, r) := TrySendFragmented(n.ep, Unsent(fragments), FragmentCallback(timeouts));
    if r.Err? then n.(ep := ep)
    else
      var packets := EncodeCall(Group(fragments), n.ep.NextSeqnum());
      n.(ep := ep, calls := n.calls + [Group(fragments)], log := n.log + packets, wire := n.wire + packets)
  }

  function ActAck<D>(n: Node<D>, d: D, ok: bool): Node<D> {
    var (ep, r) := TrySendAck(n.ep, (h: Header) => ok);
    if r.Ok? && r.value.Some? then
      n.(ep := ep, wire := n.wire + [Packet(DEFAULT_HEADER.(ackNum := Some(n.ep.AckSeqnum())), d)])
    else n.(ep := ep)
  }

  function ActResend<D>(n: Node<D>, now: nat, answers: nat -> Option<nat>): Node<D> {
    var (ep, transmitted, r) := TryResend(n.ep, now, Answering(answers));
    n.(ep := ep, wire := n.wire + transmitted)
  }

  /** The packets that leave the receive window when `p` arrives. */
  function ReleasedBy<D>(e: Endpoint<Packet<D>, D>, p: Packet<D>): seq<Packet<D>> {
    if p.header.ackNum.Some? then []
    else
      var r := UpdateReceiverWindow(e, p.header, p.data).1;
      if r.Ok? then r.value else []
  }

  function ActDeliver<D>(ext: (D, seq<D>) -> D, n: Node<D>, p: Packet<D>): Node<D> {
    var (ep, r) := if n.merging then ReceiveAndMerge(ext, n.ep, p.header, p.data) else Receive(n.ep, p.header, p.data);
    var n' := n.(ep := ep, released := n.released + ReleasedBy(n.ep, p));
    match r
    case Ok(out) => n'.(returned := n.returned + out)
    case Err(e) => n'.(errors := n.errors + [e])
  }

  // --- What every action keeps, whatever arrives -------------------------------------------------

  /** The send window holds the unacknowledged tail of the log, without holes. */
  ghost predicate SendInv<D>(send: Window<Pending<Packet<D>>>, log: seq<Packet<D>>) {
    && send.Valid()
    && send.Next() == |log| + 1
    && (forall i :: 0 <= i < |send.data| ==> HoldsLogged(send, i, log))
  }

  ghost predicate HoldsLogged<D>(send: Window<Pending<Packet<D>>>, i: nat, log: seq<Packet<D>>) {
    0 <= send.left - 1 + i < |log| && Holds(send, i, log[send.left - 1 + i])
  }

  ghost predicate Holds<D>(send: Window<Pending<Packet<D>>>, i: nat, p: Packet<D>) {
    i < |send.data| && send.data[i].Some? && send.data[i].value.packet == p
  }

  /** Sequence numbers are handed out as 1, 2, 3, ..., and the log is what the calls ask for. */
  ghost predicate LogInv<D>(calls: seq<Call<D>>, log: seq<Packet<D>>, cap: nat) {
    && log == Encode(calls)
    && Fits(calls, cap)
    && |log| < U64_MAX
  }

  /** Only logged packets and truthful acknowledgements are on the wire. */
  ghost predicate WireInv<D>(wire: seq<Packet<D>>, log: seq<Packet<D>>, ack: nat) {
    forall p :: p in wire ==> Honest(p, log, ack)
  }

  ghost predicate Honest<D>(p: Packet<D>, log: seq<Packet<D>>, ack: nat) {
    || (p.header.ackNum.None? && p in log)
    || (p.header.ackNum.Some? && 1 <= p.header.ackNum.value <= ack)
  }

  /** Released packets are 1, 2, ..., ack - 1; buffered ones sit at their own number; the front is a gap. */
  ghost predicate RecvInv<D>(recv: Window<Packet<D>>, released: seq<Packet<D>>) {
    && recv.Valid()
    && recv.left !in recv.Contents()
    && |released| == recv.left - 1
    && Consecutive(released, 1)
    && AtOwnNumber(recv.Contents())
  }

  ghost predicate AtOwnNumber<D>(c: map<nat, Packet<D>>) {
    forall s :: s in c ==> c[s].header.seqnum == Some(s)
  }

  /** The merger is between groups or inside one that it can finish. */
  ghost predicate MergerInv<D>(n: Node<D>) {
    && MergeInv(n.ep.merge, n.ep.recv.left, n.ep.recv.cap)
    && (!n.merging ==> n.ep.merge == InitialMerge())
    && InvalidMergeState !in n.errors
  }

  ghost predicate NodeInv<D>(n: Node<D>) {
    && SendInv(n.ep.send, n.log)
    && LogInv(n.calls, n.log, n.ep.send.cap)
    && WireInv(n.wire, n.log, n.ep.recv.left)
    && RecvInv(n.ep.recv, n.released)
    && MergerInv(n)
  }

  lemma NewNodeInv<D>(cap: nat, merging: bool)
    requires 1 <= cap
    ensures NodeInv(NewNode<D>(cap, merging))
  {
  }

  lemma LogNumbers<D>(calls: seq<Call<D>>, log: seq<Packet<D>>)
    requires log == Encode(calls)
    ensures Consecutive(log, 1)
    ensures forall i :: 0 <= i < |log| ==> log[i].header.ackNum.None?
  {
    EncodeConsecutive(calls);
    EncodeHasNoAcks(calls);
  }

  lemma {:induction false} EncodeHasNoAcks<D>(calls: seq<Call<D>>)
    ensures forall i :: 0 <= i < |Encode(calls)| ==> Encode(calls)[i].header.ackNum.None?
    decreases |calls|
  {
    if calls != [] { EncodeHasNoAcks(calls[..|calls| - 1]); }
  }

  /** What grows and what stays, whatever is done. */
  ghost predicate Advances<D>(n: Node<D>, n': Node<D>) {
    && n.ep.AckSeqnum() <= n'.ep.AckSeqnum()
    && n.ep.NextSeqnum() <= n'.ep.NextSeqnum()
    && n.ep.send.left <= n'.ep.send.left
    && n.calls <= n'.calls
    && n.log <= n'.log
    && n.wire <= n'.wire
    && n.released <= n'.released
    && n'.merging == n.merging
    && n'.ep.send.cap == n.ep.send.cap
    && n'.ep.recv.cap == n.ep.recv.cap
  }

  /** Nothing arrived: the receiving half is untouched and nothing was acknowledged. */
  ghost predicate Quiet<D>(n: Node<D>, n': Node<D>) {
    && n'.ep.recv == n.ep.recv
    && n'.ep.merge == n.ep.merge
    && n'.released == n.released
    && n'.returned == n.returned
    && n'.errors == n.errors
    && n'.ep.send.left == n.ep.send.left
  }

  // --- Sending ---------------------------------------------------------------------------------

  /** `send'` is `send` with the packets of one call appended. */
  ghost predicate Appended<D>(send: Window<Pending<Packet<D>>>, send': Window<Pending<Packet<D>>>, packets: seq<Packet<D>>) {
    && send'.Valid()
    && send'.left == send.left
    && send'.cap == send.cap
    && |send'.data| == |send.data| + |packets|
    && send.data <= send'.data
    && (forall k :: 0 <= k < |packets| ==> Holds(send', |send.data| + k, packets[k]))
  }

  lemma AppendKeepsSend<D>(send: Window<Pending<Packet<D>>>, send': Window<Pending<Packet<D>>>,
                           log: seq<Packet<D>>, packets: seq<Packet<D>>)
    requires SendInv(send, log) && Appended(send, send', packets)
    ensures SendInv(send', log + packets)
  {
    var log' := log + packets;
    forall i | 0 <= i < |send'.data| ensures HoldsLogged(send', i, log') {
      if i < |send.data| {
        assert HoldsLogged(send, i, log);
        assert send'.data[i] == send.data[i];
      } else {
        assert Holds(send', |send.data| + (i - |send.data|), packets[i - |send.data|]);
      }
    }
  }

  lemma AppendKeepsLog<D>(calls: seq<Call<D>>, log: seq<Packet<D>>, cap: nat, c: Call<D>, packets: seq<Packet<D>>)
    requires LogInv(calls, log, cap)
    requires c.Group? ==> |c.fragments| <= cap
    requires packets == EncodeCall(c, |log| + 1) && |log| + |packets| < U64_MAX
    ensures LogInv(calls + [c], log + packets, cap)
  {
    assert (calls + [c])[..|calls|] == calls;
  }

  lemma WireGrows<D>(wire: seq<Packet<D>>, log: seq<Packet<D>>, ack: nat, packets: seq<Packet<D>>)
    requires WireInv(wire, log, ack)
    requires forall i :: 0 <= i < |packets| ==> packets[i].header.ackNum.None?
    ensures WireInv(wire + packets, log + packets, ack)
  {
    forall p | p in wire + packets ensures Honest(p, log + packets, ack) {
      if p in wire { assert Honest(p, log, ack); }
    }
  }

  ghost function Called<D>(n: Node<D>, send': Window<Pending<Packet<D>>>, c: Call<D>): Node<D> {
    WithCall(n, send', c, EncodeCall(c, |n.log| + 1))
  }

  ghost function WithCall<D>(n: Node<D>, send': Window<Pending<Packet<D>>>, c: Call<D>, packets: seq<Packet<D>>): Node<D> {
    n.(ep := n.ep.(send := send'), calls := n.calls + [c], log := n.log + packets, wire := n.wire + packets)
  }

  /** A call that appends its packets to the window, the log and the wire keeps the invariant. */
  lemma CallKeepsInv<D>(n: Node<D>, c: Call<D>, packets: seq<Packet<D>>, n': Node<D>)
    requires NodeInv(n)
    requires c.Group? ==> |c.fragments| <= n.ep.send.cap
    requires packets == EncodeCall(c, |n.log| + 1) && |n.log| + |packets| < U64_MAX
    requires Appended(n.ep.send, n'.ep.send, packets)
    requires n' == WithCall(n, n'.ep.send, c, packets)
    ensures NodeInv(n') && Advances(n, n') && Quiet(n, n')
  {
    AppendKeepsSend(n.ep.send, n'.ep.send, n.log, packets);
    AppendKeepsLog(n.calls, n.log, n.ep.send.cap, c, packets);
    WireGrows(n.wire, n.log, n.ep.recv.left, packets);
  }

  /** A send is accepted exactly when the callback succeeds and the window is not full. */
  lemma SendIs<D>(n: Node<D>, d: D, ok: bool, timeout: nat)
    requires n.ep.Valid() && n.ep.NextSeqnum() == |n.log| + 1 < U64_MAX
    ensures var n' := ActSend(n, d, ok, timeout);
            if ok && |n.ep.send.data| < n.ep.send.cap then
              n' == Called(n, n'.ep.send, Single(d)) && Appended(n.ep.send, n'.ep.send, EncodeCall(Single(d), |n.log| + 1))
            else n' == n
  {
    if ok && !n.ep.send.IsFull() {
      PutAtNext(n.ep.send, Pending(EncodeCall(Single(d), |n.log| + 1)[0], timeout, 1));
    }
  }

  lemma SendKeepsInv<D>(n: Node<D>, d: D, ok: bool, timeout: nat)
    requires NodeInv(n) && n.ep.NextSeqnum() < U64_MAX
    ensures var n' := ActSend(n, d, ok, timeout);
            && NodeInv(n')
            && n' == (if ok && |n.ep.send.data| < n.ep.send.cap then Called(n, n'.ep.send, Single(d)) else n)
            && Advances(n, n') && Quiet(n, n')
  {
    SendIs(n, d, ok, timeout);
    if ok && |n.ep.send.data| < n.ep.send.cap {
      CallKeepsInv(n, Single(d), EncodeCall(Single(d), |n.log| + 1), ActSend(n, d, ok, timeout));
    }
  }

  /** The endpoint after one more packet has been appended to its send window. */
  function WithPacket<D>(e: Endpoint<Packet<D>, D>, packet: Packet<D>, timeout: nat): Endpoint<Packet<D>, D> {
    e.(send := e.send.(data := e.send.data + [Some(Pending(packet, timeout, 1))]))
  }

  /** One fragment goes to the end of the send window. */
  lemma FragmentSent<D>(e: Endpoint<Packet<D>, D>, fragments: seq<D>, first: nat, i: nat, timeouts: nat -> nat)
    requires e.Valid() && i < |fragments| && !e.send.IsFull()
    requires e.NextSeqnum() == first + i && first + i < U64_MAX
    ensures var e1 := WithPacket(e, EncodeGroup(fragments, first)[i], timeouts(i));
            e1.Valid() && TrySend(e, FragmentSender(Unsent(fragments), i, FragmentCallback(timeouts))).0 == e1
  {
    PutAtNext(e.send, Pending(EncodeGroup(fragments, first)[i], timeouts(i), 1));
  }

  lemma SendFromStep<D>(e: Endpoint<Packet<D>, D>, fragments: seq<D>, first: nat, i: nat, timeouts: nat -> nat)
    requires e.Valid() && i < |fragments|
    requires |e.send.data| + (|fragments| - i) < e.send.cap
    requires e.NextSeqnum() == first + i && first + |fragments| <= U64_MAX
    ensures var e1 := WithPacket(e, EncodeGroup(fragments, first)[i], timeouts(i));
            && e1.Valid()
            && SendFrom(e, Unsent(fragments), i, FragmentCallback(timeouts))
               == SendFrom(e1, Unsent(fragments), i + 1, FragmentCallback(timeouts))
  {
    var e1 := WithPacket(e, EncodeGroup(fragments, first)[i], timeouts(i));
    FragmentSent(e, fragments, first, i, timeouts);
    SendFromUnfolds(e, Unsent(fragments), i, FragmentCallback(timeouts), e1);
  }

  /** A fragmented send appends the group's packets, in order. */
  lemma {:induction false} SendFromAppends<D>(e: Endpoint<Packet<D>, D>, fragments: seq<D>, first: nat, i: nat, timeouts: nat -> nat)
    requires e.Valid() && i <= |fragments|
    requires |e.send.data| + (|fragments| - i) < e.send.cap
    requires e.NextSeqnum() == first + i && first + |fragments| <= U64_MAX
    ensures var e' := SendFrom(e, Unsent(fragments), i, FragmentCallback(timeouts));
            && e' == e.(send := e'.send)
            && Appended(e.send, e'.send, EncodeGroup(fragments, first)[i..])
    decreases |fragments| - i
  {
    if i < |fragments| {
      var packets := EncodeGroup(fragments, first);
      var e1 := WithPacket(e, packets[i], timeouts(i));
      SendFromStep(e, fragments, first, i, timeouts);
      SendFromAppends(e1, fragments, first, i + 1, timeouts);
      var e' := SendFrom(e1, Unsent(fragments), i + 1, FragmentCallback(timeouts));
      AppendedStep(e.send, packets, i, timeouts(i), e1.send, e'.send);
    }
  }

  lemma AppendedStep<D>(a: Window<Pending<Packet<D>>>, packets: seq<Packet<D>>, i: nat, timeout: nat,
                        b: Window<Pending<Packet<D>>>, c: Window<Pending<Packet<D>>>)
    requires i < |packets| && b == a.(data := a.data + [Some(Pending(packets[i], timeout, 1))])
    requires Appended(b, c, packets[i + 1..])
    ensures Appended(a, c, packets[i..])
  {
    assert Holds(b, |a.data|, packets[i]);
    AppendedTwice(a, b, c, packets[i], packets[i + 1..]);
    assert [packets[i]] + packets[i + 1..] == packets[i..];
  }

  lemma AppendedTwice<D>(a: Window<Pending<Packet<D>>>, b: Window<Pending<Packet<D>>>, c: Window<Pending<Packet<D>>>,
                         p: Packet<D>, rest: seq<Packet<D>>)
    requires |b.data| == |a.data| + 1 && a.data <= b.data && Holds(b, |a.data|, p)
    requires b.left == a.left && b.cap == a.cap
    requires Appended(b, c, rest)
    ensures Appended(a, c, [p] + rest)
  {
    assert c.data[|a.data|] == b.data[|a.data|];
    forall k | 0 <= k < 1 + |rest| ensures Holds(c, |a.data| + k, ([p] + rest)[k]) {
      if k > 0 { assert Holds(c, |b.data| + (k - 1), rest[k - 1]); }
    }
  }

  /** A group is accepted exactly when it leaves at least one slot of the window free. */
  lemma SendFragmentsIs<D>(n: Node<D>, fragments: seq<D>, timeouts: nat -> nat)
    requires n.ep.Valid() && n.ep.NextSeqnum() == |n.log| + 1 && n.ep.NextSeqnum() + |fragments| <= U64_MAX
    ensures var n' := ActSendFragments(n, fragments, timeouts);
            if |n.ep.send.data| + |fragments| < n.ep.send.cap then
              n' == Called(n, n'.ep.send, Group(fragments)) && Appended(n.ep.send, n'.ep.send, EncodeCall(Group(fragments), |n.log| + 1))
            else n' == n
  {
    if |n.ep.send.data| + |fragments| < n.ep.send.cap {
      SendFromAppends(n.ep, fragments, |n.log| + 1, 0, timeouts);
      var packets := EncodeGroup(fragments, |n.log| + 1);
      assert packets[0..] == packets;
    }
  }

  lemma SendFragmentsKeepsInv<D>(n: Node<D>, fragments: seq<D>, timeouts: nat -> nat)
    requires NodeInv(n) && n.ep.NextSeqnum() + |fragments| <= U64_MAX
    ensures var n' := ActSendFragments(n, fragments, timeouts);
            && NodeInv(n')
            && n' == (if |n.ep.send.data| + |fragments| < n.ep.send.cap then Called(n, n'.ep.send, Group(fragments)) else n)
            && Advances(n, n') && Quiet(n, n')
  {
    SendFragmentsIs(n, fragments, timeouts);
    if |n.ep.send.data| + |fragments| < n.ep.send.cap {
      CallKeepsInv(n, Group(fragments), EncodeCall(Group(fragments), |n.log| + 1), ActSendFragments(n, fragments, timeouts));
    }
  }

  // --- Acknowledging and resending -------------------------------------------------------------

  lemma AckKeepsInv<D>(n: Node<D>, d: D, ok: bool)
    requires NodeInv(n)
    ensures NodeInv(ActAck(n, d, ok)) && Advances(n, ActAck(n, d, ok)) && Quiet(n, ActAck(n, d, ok))
  {
    var ack := Packet(DEFAULT_HEADER.(ackNum := Some(n.ep.AckSeqnum())), d);
    assert Honest(ack, n.log, n.ep.recv.left);
  }

  /** `w'` holds the same packets as `w`, in the same slots. */
  ghost predicate SamePackets<S>(w: Window<Pending<S>>, w': Window<Pending<S>>) {
    && w' == w.(data := w'.data)
    && |w'.data| == |w.data|
    && (forall j :: 0 <= j < |w.data| ==> SameSlot(w.data[j], w'.data[j]))
  }

  ghost predicate SameSlot<S>(a: Option<Pending<S>>, b: Option<Pending<S>>) {
    (a.Some? <==> b.Some?) && (a.Some? ==> a.value.packet == b.value.packet)
  }

  ghost predicate InWindow<S>(w: Window<Pending<S>>, p: S) {
    exists j :: 0 <= j < |w.data| && w.data[j].Some? && w.data[j].value.packet == p
  }

  lemma SamePacketsInWindow<S>(w: Window<Pending<S>>, w': Window<Pending<S>>, p: S)
    requires SamePackets(w, w') && InWindow(w', p)
    ensures InWindow(w, p)
  {
    var j :| 0 <= j < |w'.data| && w'.data[j].Some? && w'.data[j].value.packet == p;
    assert SameSlot(w.data[j], w'.data[j]);
  }

  /** A resend keeps every packet and puts only held packets on the wire. */
  lemma {:induction false} ResendKeepsPackets<S>(w: Window<Pending<S>>, i: nat, k: nat, now: nat, sendData: (nat, S) -> Option<nat>)
    requires i <= |w.data|
    ensures var r := ResendFrom(w, i, k, now, sendData);
            && SamePackets(w, r.window)
            && (forall p :: p in r.transmitted ==> InWindow(w, p))
    decreases |w.data| - i
  {
    if i == |w.data| {
    } else if w.data[i].None? || now < w.data[i].value.nextSendAt {
      ResendKeepsPackets(w, i + 1, k, now, sendData);
    } else {
      var p := w.data[i].value;
      var answer := sendData(k, p.packet);
      if answer.Some? {
        var w' := w.(data := w.data[i := Some(Pending(p.packet, answer.value, p.tryCount + 1))]);
        assert SamePackets(w, w');
        ResendKeepsPackets(w', i + 1, k + 1, now, sendData);
        var r' := ResendFrom(w', i + 1, k + 1, now, sendData);
        SamePacketsTwice(w, w', r'.window);
        assert InWindow(w, p.packet);
        forall q | q in r'.transmitted ensures InWindow(w, q) { SamePacketsInWindow(w, w', q); }
      }
    }
  }

  lemma SamePacketsTwice<S>(a: Window<Pending<S>>, b: Window<Pending<S>>, c: Window<Pending<S>>)
    requires SamePackets(a, b) && SamePackets(b, c)
    ensures SamePackets(a, c)
  {
    forall j | 0 <= j < |a.data| ensures SameSlot(a.data[j], c.data[j]) {
      assert SameSlot(a.data[j], b.data[j]) && SameSlot(b.data[j], c.data[j]);
    }
  }

  lemma SamePacketsKeepSend<D>(w: Window<Pending<Packet<D>>>, w': Window<Pending<Packet<D>>>, log: seq<Packet<D>>)
    requires SendInv(w, log) && SamePackets(w, w')
    ensures SendInv(w', log)
  {
    forall i | 0 <= i < |w.data| ensures HoldsLogged(w', i, log) {
      assert HoldsLogged(w, i, log) && SameSlot(w.data[i], w'.data[i]);
    }
  }

  lemma HeldIsLogged<D>(w: Window<Pending<Packet<D>>>, log: seq<Packet<D>>, p: Packet<D>)
    requires SendInv(w, log) && InWindow(w, p)
    ensures p in log
  {
    var j :| 0 <= j < |w.data| && w.data[j].Some? && w.data[j].value.packet == p;
    assert HoldsLogged(w, j, log);
  }

  lemma ResendKeepsInv<D>(n: Node<D>, now: nat, answers: nat -> Option<nat>)
    requires NodeInv(n)
    ensures var n' := ActResend(n, now, answers);
            && NodeInv(n')
            && n' == n.(ep := n.ep.(send := n'.ep.send), wire := n'.wire)
            && SamePackets(n.ep.send, n'.ep.send)
            && Advances(n, n') && Quiet(n, n')
  {
    var callback := Answering<Packet<D>>(answers);
    var r := ResendFrom(n.ep.send, 0, 0, now, callback);
    ResendKeepsPackets(n.ep.send, 0, 0, now, callback);
    SamePacketsKeepSend(n.ep.send, r.window, n.log);
    LogNumbers(n.calls, n.log);
    forall p | p in n.wire + r.transmitted ensures Honest(p, n.log, n.ep.recv.left) {
      if p in r.transmitted { HeldIsLogged(n.ep.send, n.log, p); }
    }
  }

  // --- Receiving -------------------------------------------------------------------------------

  /** Acknowledgements, true or not, never move the next sequence number and only drop a prefix. */
  lemma AckArrivalKeepsSend<D>(e: Endpoint<Packet<D>, D>, log: seq<Packet<D>>, ackNum: nat)
    requires SendInv(e.send, log)
    ensures var send' := UpdateSendWindow(e, ackNum).send;
            && SendInv(send', log)
            && send'.cap == e.send.cap
            && send'.left == (if e.send.left <= ackNum <= |log| + 1 then ackNum else e.send.left)
            && send'.data == e.send.data[send'.left - e.send.left..]
  {
    if e.send.left <= ackNum <= e.NextSeqnum() {
      DropKeepsSend(e.send, log, ackNum - e.send.left);
    }
  }

  lemma DropKeepsSend<D>(send: Window<Pending<Packet<D>>>, log: seq<Packet<D>>, n: nat)
    requires SendInv(send, log) && n <= |send.data|
    ensures SendInv(DropFront(send, n), log)
  {
    DropWithin(send, n);
    var send' := Window(send.left + n, send.data[n..], send.cap);
    forall i | 0 <= i < |send'.data| ensures HoldsLogged(send', i, log) {
      assert HoldsLogged(send, n + i, log);
      assert send'.data[i] == send.data[n + i];
    }
  }

  /** The window's map once `p` has been put, if it was. */
  ghost function Buffered<D>(recv: Window<Packet<D>>, p: Packet<D>, s: nat): map<nat, Packet<D>> {
    if recv.left <= s <= recv.RightBounds() then recv.Contents()[s := p] else recv.Contents()
  }

  lemma PutThenDrain<D>(recv: Window<Packet<D>>, p: Packet<D>, s: nat)
    requires recv.Valid() && recv.left !in recv.Contents()
    requires Put(recv, s, p).Ok?
    ensures var (recv', ready) := DrainFront(Put(recv, s, p).value);
            && RunTaken(Buffered(recv, p, s), recv.left, ready, recv')
            && recv'.cap == recv.cap
            && (ready != [] <==> s == recv.left)
  {
    PutIsUpdate(recv, s, p);
    DrainIsMaximalRun(Put(recv, s, p).value);
  }

  ghost predicate BeyondWindow<D>(recv: Window<Packet<D>>, s: nat) {
    recv.left <= s && recv.RightBounds() < s
  }

  /** What one arriving data packet does to the receive window, in terms of the map it stands for. */
  lemma ArrivalEffect<D>(e: Endpoint<Packet<D>, D>, p: Packet<D>, s: nat)
    requires e.recv.Valid() && p.header.seqnum == Some(s) && p.header.ackNum.None?
    requires e.recv.left !in e.recv.Contents()
    ensures var (e', r) := UpdateReceiverWindow(e, p.header, p.data);
            var ready := ReleasedBy(e, p);
            && e' == e.(recv := e'.recv, shouldAck := e'.shouldAck)
            && e'.recv.cap == e.recv.cap
            && r == (if BeyondWindow(e.recv, s) then Err(ReceiveWindowFull(s)) else Ok(ready))
            && (BeyondWindow(e.recv, s) ==> ready == [])
            && (e'.shouldAck <==> e.shouldAck || (s <= e.recv.left && !BeyondWindow(e.recv, s)))
            && RunTaken(Buffered(e.recv, p, s), e.recv.left, ready, e'.recv)
  {
    PutIsUpdate(e.recv, s, p);
    assert Packet(p.header, p.data) == p;
    if Put(e.recv, s, p).Ok? {
      PutThenDrain(e.recv, p, s);
    } else {
      assert From(e.recv.Contents(), e.recv.left) == e.recv.Contents();
    }
  }

  /** How a node takes in a data packet numbered `s`, giving up `ready` from its window. */
  ghost predicate TakesData<D>(n: Node<D>, p: Packet<D>, s: nat, ready: seq<Packet<D>>, n': Node<D>) {
    && SameSender(n, n')
    && n'.merging == n.merging
    && n'.ep.recv.cap == n.ep.recv.cap
    && n'.released == n.released + ready
    && RunTaken(Buffered(n.ep.recv, p, s), n.ep.recv.left, ready, n'.ep.recv)
    && (n'.ep.shouldAck <==> n.ep.shouldAck || (s <= n.ep.recv.left && !BeyondWindow(n.ep.recv, s)))
    && (BeyondWindow(n.ep.recv, s) ==> ready == [])
  }

  /** The sending half of a node is untouched. */
  ghost predicate SameSender<D>(n: Node<D>, n': Node<D>) {
    n'.ep.send == n.ep.send && n'.calls == n.calls && n'.log == n.log && n'.wire == n.wire
  }

  /** What the application gets for a data packet numbered `s` that released `ready`. */
  ghost function Handed<D>(ext: (D, seq<D>) -> D, n: Node<D>, s: nat, ready: seq<Packet<D>>): Outcome<D> {
    if BeyondWindow(n.ep.recv, s) then (n.ep.merge, Err(ReceiveWindowFull(s)))
    else if n.merging then MergeRun(ext, n.ep.recv.cap, n.ep.merge, ready)
    else (n.ep.merge, Ok(Payloads(ready)))
  }

  ghost predicate HandsOver<D>(n: Node<D>, outcome: Outcome<D>, n': Node<D>) {
    && n'.ep.merge == outcome.0
    && n'.returned == (if outcome.1.Ok? then n.returned + outcome.1.value else n.returned)
    && n'.errors == (if outcome.1.Err? then n.errors + [outcome.1.error] else n.errors)
  }

  lemma DeliverDataIs<D>(ext: (D, seq<D>) -> D, n: Node<D>, p: Packet<D>, s: nat)
    requires n.ep.recv.Valid() && n.ep.recv.left !in n.ep.recv.Contents()
    requires p.header.ackNum.None? && p.header.seqnum == Some(s)
    ensures TakesData(n, p, s, ReleasedBy(n.ep, p), ActDeliver(ext, n, p))
    ensures HandsOver(n, Handed(ext, n, s, ReleasedBy(n.ep, p)), ActDeliver(ext, n, p))
  {
    ArrivalEffect(n.ep, p, s);
  }

  lemma RunKeepsRecv<D>(recv: Window<Packet<D>>, released: seq<Packet<D>>, p: Packet<D>, s: nat,
                        ready: seq<Packet<D>>, recv': Window<Packet<D>>)
    requires RecvInv(recv, released) && p.header.seqnum == Some(s)
    requires RunTaken(Buffered(recv, p, s), recv.left, ready, recv')
    ensures RecvInv(recv', released + ready) && Consecutive(ready, recv.left)
  {
    var c := Buffered(recv, p, s);
    assert AtOwnNumber(c);
    forall i | 0 <= i < |ready| ensures ready[i].header.seqnum == Some(recv.left + i) {
      assert RunAt(c, recv.left, ready, i);
    }
  }

  lemma HandedKeepsMerger<D>(ext: (D, seq<D>) -> D, n: Node<D>, s: nat, ready: seq<Packet<D>>)
    requires MergerInv(n) && Consecutive(ready, n.ep.recv.left)
    requires BeyondWindow(n.ep.recv, s) ==> ready == []
    ensures var (m, r) := Handed(ext, n, s, ready);
            && MergeInv(m, n.ep.recv.left + |ready|, n.ep.recv.cap)
            && (!n.merging ==> m == InitialMerge())
            && r != Err(InvalidMergeState)
  {
    MergeRunKeepsInv(ext, n.ep.recv.cap, n.ep.merge, ready, n.ep.recv.left);
  }

  lemma WireStays<D>(wire: seq<Packet<D>>, log: seq<Packet<D>>, ack: nat, ack': nat)
    requires WireInv(wire, log, ack) && ack <= ack'
    ensures WireInv(wire, log, ack')
  {
    forall p | p in wire ensures Honest(p, log, ack') { assert Honest(p, log, ack); }
  }

  lemma DataKeepsInv<D>(ext: (D, seq<D>) -> D, n: Node<D>, p: Packet<D>, s: nat, ready: seq<Packet<D>>,
                        outcome: Outcome<D>, n': Node<D>)
    requires NodeInv(n) && p.header.seqnum == Some(s)
    requires TakesData(n, p, s, ready, n')
    requires outcome == Handed(ext, n, s, ready) && HandsOver(n, outcome, n')
    ensures NodeInv(n') && Advances(n, n')
  {
    RunKeepsRecv(n.ep.recv, n.released, p, s, ready, n'.ep.recv);
    HandedKeepsMerger(ext, n, s, ready);
    WireStays(n.wire, n.log, n.ep.recv.left, n'.ep.recv.left);
  }

  lemma DeliverAckKeepsInv<D>(ext: (D, seq<D>) -> D, n: Node<D>, p: Packet<D>)
    requires NodeInv(n) && p.header.ackNum.Some?
    ensures var n' := ActDeliver(ext, n, p);
            && NodeInv(n') && Advances(n, n')
            && n' == n.(ep := n.ep.(send := n'.ep.send))
            && n'.ep.send.left == if n.ep.send.left <= p.header.ackNum.value <= |n.log| + 1 then p.header.ackNum.value else n.ep.send.left
  {
    AckArrivalKeepsSend(n.ep, n.log, p.header.ackNum.value);
    assert n.released + [] == n.released;
    assert n.returned + [] == n.returned;
  }

  lemma DeliverOtherKeepsInv<D>(ext: (D, seq<D>) -> D, n: Node<D>, p: Packet<D>)
    requires NodeInv(n) && p.header.ackNum.None? && p.header.seqnum.None?
    ensures ActDeliver(ext, n, p) == n.(returned := n.returned + [p.data])
    ensures NodeInv(ActDeliver(ext, n, p))
  {
    assert n.released + [] == n.released;
  }

  lemma DeliverKeepsInv<D>(ext: (D, seq<D>) -> D, n: Node<D>, p: Packet<D>)
    requires NodeInv(n)
    ensures NodeInv(ActDeliver(ext, n, p)) && Advances(n, ActDeliver(ext, n, p))
  {
    var n' := ActDeliver(ext, n, p);
    if p.header.ackNum.Some? {
      DeliverAckKeepsInv(ext, n, p);
    } else if p.header.seqnum.Some? {
      var s, ready := p.header.seqnum.value, ReleasedBy(n.ep, p);
      DeliverDataIs(ext, n, p, s);
      DataKeepsInv(ext, n, p, s, ready, Handed(ext, n, s, ready), n');
    } else {
      DeliverOtherKeepsInv(ext, n, p);
    }
  }

  /** Every action keeps the invariant, with arbitrary packets arriving. */
  lemma ActKeepsInv<D>(ext: (D, seq<D>) -> D, n: Node<D>, a: Action<D>)
    requires NodeInv(n) && HasRoom(n, a)
    ensures NodeInv(Act(ext, n, a)) && Advances(n, Act(ext, n, a))
    ensures !a.Deliver? ==> Quiet(n, Act(ext, n, a))
  {
    match a
    case Send(d, ok, timeout) => SendKeepsInv(n, d, ok, timeout);
    case SendFragments(fragments, timeouts) => SendFragmentsKeepsInv(n, fragments, timeouts);
    case SendAck(d, ok) => AckKeepsInv(n, d, ok);
    case Resend(now, answers) => ResendKeepsInv(n, now, answers);
    case Deliver(p) => DeliverKeepsInv(ext, n, p);
  }
}
