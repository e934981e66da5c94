/**
 * The sender and receiver state machine of mrp/src/stream.rs on values: one function per
 * operation of MrpStream, from the state before a call to the state and result after it.
 */
module Endpoints {
  import opened Common
  import opened Packets
  import opened Windows
  import opened Merging

  /** A packet sent and not yet acknowledged.  Instants are natural numbers. */
  datatype Pending<+S> = Pending(packet: S, nextSendAt: nat, tryCount: nat)

  datatype Endpoint<S, R> = Endpoint(
    shouldAck: bool,
    send: Window<Pending<S>>,
    recv: Window<Packet<R>>,
    merge: MergeState<R>)
  {
    /** Sequence number of the next packet to send. */
    function NextSeqnum(): nat {
      send.Next()
    }

    function AckSeqnum(): nat {
      recv.left
    }

    ghost predicate Valid() {
      send.Valid() && recv.Valid()
    }
  }

  const INITIAL_SEQNUM := 1
  const INITIAL_ACKNUM := 1

  function NewEndpoint<S, R>(cap: nat): Endpoint<S, R> {
    Endpoint(false, Window(INITIAL_SEQNUM, [], cap), Window(INITIAL_ACKNUM, [], cap), InitialMerge())
  }

  function TrySend<S, R>(e: Endpoint<S, R>, sendData: Header -> Option<(S, nat)>)
    : (Endpoint<S, R>, Result<(), SendError>)
    requires e.Valid() && e.NextSeqnum() < U64_MAX
  {
    if e.send.IsFull() then (e, Err(SendWindowFull))
    else
      match sendData(DEFAULT_HEADER.(seqnum := Some(e.NextSeqnum())))
      case None => (e, Err(InnerSendFailed))
      case Some((packet, timeout)) =>
        var pending := Pending(packet, timeout, 1);
        PutAtNext(e.send, pending);
        (e.(send := Put(e.send, e.NextSeqnum(), pending).value), Ok(()))
  }

  /** Fragments `i`, `i + 1`, ... of a fragmented send. */
  function SendFrom<S, R>(e: Endpoint<S, R>, fragments: seq<S>, i: nat, sendData: (nat, Header, S) -> (S, nat))
    : (r: Endpoint<S, R>)
    requires e.Valid() && i <= |fragments|
    requires |e.send.data| + (|fragments| - i) < e.send.cap
    requires e.NextSeqnum() + (|fragments| - i) <= U64_MAX
    ensures r.Valid() && r.NextSeqnum() == e.NextSeqnum() + (|fragments| - i)
    decreases |fragments| - i
  {
    if i == |fragments| then e
    else
      var (e', _) := TrySend(e, FragmentSender(fragments, i, sendData));
      SendFrom(e', fragments, i + 1, sendData)
  }

  /** The callback that a fragmented send passes on for fragment `i`. */
  function FragmentSender<S>(fragments: seq<S>, i: nat, sendData: (nat, Header, S) -> (S, nat)): Header -> Option<(S, nat)>
    requires i < |fragments|
  {
    (h: Header) => Some(sendData(i, if i == 0 then h.(numPackets := Some(|fragments| % U32_COUNT)) else h, fragments[i]))
  }

  lemma SendFromUnfolds<S, R>(e: Endpoint<S, R>, fragments: seq<S>, i: nat, sendData: (nat, Header, S) -> (S, nat), e1: Endpoint<S, R>)
    requires e.Valid() && i < |fragments|
    requires |e.send.data| + (|fragments| - i) < e.send.cap
    requires e.NextSeqnum() + (|fragments| - i) <= U64_MAX
    requires TrySend(e, FragmentSender(fragments, i, sendData)).0 == e1
    ensures e1.Valid() && |e1.send.data| == |e.send.data| + 1 && e1.send.cap == e.send.cap
    ensures e1.NextSeqnum() == e.NextSeqnum() + 1
    ensures SendFrom(e, fragments, i, sendData) == SendFrom(e1, fragments, i + 1, sendData)
  {
  }

  function TrySendFragmented<S, R>(e: Endpoint<S, R>, fragments: seq<S>, sendData: (nat, Header, S) -> (S, nat))
    : (Endpoint<S, R>, Result<(), SendError>)
    requires e.Valid() && e.NextSeqnum() + |fragments| <= U64_MAX
  {
    if |e.send.data| + |fragments| >= e.send.cap then (e, Err(SendWindowFull))
    else (SendFrom(e, fragments, 0, sendData), Ok(()))
  }

  function TrySendAck<S, R>(e: Endpoint<S, R>, sendAck: Header -> bool): (Endpoint<S, R>, Result<Option<nat>, SendError>) {
    if !e.shouldAck then (e, Ok(None))
    else if sendAck(DEFAULT_HEADER.(ackNum := Some(e.AckSeqnum()))) then
      (e.(shouldAck := false), Ok(Some(e.AckSeqnum())))
    else (e, Err(InnerSendFailed))
  }

  /** What a resend does to the send window, what it put on the wire, and how it ended. */
  datatype Resent<S> = Resent(window: Window<Pending<S>>, transmitted: seq<S>, result: Result<(), SendError>)

  /**
   * Resending from slot `i` on.  `sendData(k, packet)` is the answer of the callback's k-th call
   * of this poll: the next timeout, or failure, which ends the poll.
   */
  function ResendFrom<S>(w: Window<Pending<S>>, i: nat, k: nat, now: nat, sendData: (nat, S) -> Option<nat>): Resent<S>
    requires i <= |w.data|
    decreases |w.data| - i
  {
    if i == |w.data| then Resent(w, [], Ok(()))
    else if w.data[i].None? || now < w.data[i].value.nextSendAt then ResendFrom(w, i + 1, k, now, sendData)
    else
      var p := w.data[i].value;
      match sendData(k, p.packet)
      case None => Resent(w, [], Err(InnerSendFailed))
      case Some(next) =>
        var w' := w.(data := w.data[i := Some(Pending(p.packet, next, p.tryCount + 1))]);
        var r := ResendFrom(w', i + 1, k + 1, now, sendData);
        r.(transmitted := [p.packet] + r.transmitted)
  }

  /** A resend callback described by its answers alone: by the number of packets the poll has sent so far. */
  function Answering<S>(answers: nat -> Option<nat>): (nat, S) -> Option<nat> {
    (k: nat, p: S) => answers(k)
  }

  function TryResend<S, R>(e: Endpoint<S, R>, now: nat, sendData: (nat, S) -> Option<nat>)
    : (Endpoint<S, R>, seq<S>, Result<(), SendError>)
  {
    var r := ResendFrom(e.send, 0, 0, now, sendData);
    (e.(send := r.window), r.transmitted, r.result)
  }

  /** Impossible and old acknowledgements are ignored. */
  function UpdateSendWindow<S, R>(e: Endpoint<S, R>, ackNum: nat): Endpoint<S, R> {
    if ackNum > e.NextSeqnum() || ackNum < e.send.left then e
    else e.(send := DropFront(e.send, ackNum - e.send.left))
  }

  function UpdateReceiverWindow<S, R>(e: Endpoint<S, R>, header: Header, data: R)
    : (Endpoint<S, R>, Result<seq<Packet<R>>, ReceiveError>)
  {
    match header.seqnum
    case None => (e, Ok([]))
    case Some(s) =>
      match Put(e.recv, s, Packet(header, data))
      case Err(BeforeWindow) => (e.(shouldAck := true), Ok([]))
      case Err(AfterWindow) => (e, Err(ReceiveWindowFull(s)))
      case Ok(w) =>
        var (w', ready) := DrainFront(w);
        (e.(recv := w', shouldAck := e.shouldAck || ready != []), Ok(ready))
  }

  function Receive<S, R>(e: Endpoint<S, R>, header: Header, data: R): (Endpoint<S, R>, Result<seq<R>, ReceiveError>) {
    if header.ackNum.Some? then (UpdateSendWindow(e, header.ackNum.value), Ok([]))
    else if header.seqnum.Some? then
      var (e', r) := UpdateReceiverWindow(e, header, data);
      match r
      case Err(err) => (e', Err(err))
      case Ok(ready) => (e', Ok(Payloads(ready)))
    else (e, Ok([data]))
  }

  function ReceiveAndMerge<S, R>(ext: (R, seq<R>) -> R, e: Endpoint<S, R>, header: Header, data: R)
    : (Endpoint<S, R>, Result<seq<R>, ReceiveError>)
  {
    if header.ackNum.Some? then (UpdateSendWindow(e, header.ackNum.value), Ok([]))
    else if header.seqnum.Some? then
      var (e', r) := UpdateReceiverWindow(e, header, data);
      match r
      case Err(err) => (e', Err(err))
      case Ok(ready) =>
        var (m, out) := MergeRun(ext, e.recv.cap, e'.merge, ready);
        (e'.(merge := m), out)
    else (e, Ok([data]))
  }
}
