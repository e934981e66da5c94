/** MrpStream of mrp/src/stream.rs as the object whose methods run the state machine in place. */
module MrpStreams {
  import opened Common
  import opened Packets
  import opened Windows
  import opened BufferWindows
  import opened Merging
  import opened MergeBuffers
  import opened Endpoints

  class MrpStream<S, R> {
    var shouldAck: bool
    const sendBuffer: BufferWindow<Pending<S>>
    const receiveBuffer: BufferWindow<Packet<R>>
    var mergeBuffer: MergeBuffer?<R>
    var mergeEndSeqnum: Option<nat>
    /** The payload's Extend implementation. */
    const extend: (R, seq<R>) -> R

    ghost predicate Valid()
      reads this, sendBuffer, receiveBuffer
    {
      && sendBuffer as object != receiveBuffer
      && sendBuffer.Valid()
      && receiveBuffer.Valid()
    }

    ghost function MergeView(): MergeState<R>
      reads this, mergeBuffer
    {
      MergeState(if mergeBuffer == null then None else Some(mergeBuffer.View()), mergeEndSeqnum)
    }

    /** The value this object stands for. */
    ghost function View(): Endpoint<S, R>
      reads this, sendBuffer, receiveBuffer, mergeBuffer
    {
      Endpoint(shouldAck, sendBuffer.View(), receiveBuffer.View(), MergeView())
    }

    constructor (maxWindowSize: nat, extend: (R, seq<R>) -> R)
      requires maxWindowSize != 0
      ensures Valid() && fresh(sendBuffer) && fresh(receiveBuffer) && mergeBuffer == null
      ensures View() == NewEndpoint(maxWindowSize)
      ensures this.extend == extend
    {
      shouldAck := false;
      sendBuffer := new BufferWindow(maxWindowSize, INITIAL_SEQNUM);
      receiveBuffer := new BufferWindow(maxWindowSize, INITIAL_ACKNUM);
      mergeBuffer := null;
      mergeEndSeqnum := None;
      this.extend := extend;
    }

    method NextSeqnum() returns (s: nat)
      requires Valid()
      ensures s == View().NextSeqnum()
      ensures s !in sendBuffer.View().Contents()
    {
      s := sendBuffer.MaxSeenSeqnum();
      s := s + 1;
    }

    /** The `expect` on put cannot fire: a window that is not full accepts the next sequence number. */
    method TrySend(sendData: Header -> Option<(S, nat)>) returns (r: Result<(), SendError>)
      requires Valid() && View().NextSeqnum() < U64_MAX
      modifies sendBuffer
      ensures Valid()
      ensures (View(), r) == Endpoints.TrySend(old(View()), sendData)
      ensures r == Err(SendWindowFull) <==> |old(sendBuffer.data)| == sendBuffer.capacityLimit
      ensures r == Err(InnerSendFailed) <==>
                && |old(sendBuffer.data)| < sendBuffer.capacityLimit
                && sendData(Header(Some(old(View().NextSeqnum())), None, None)).None?
      ensures r.Err? ==> View() == old(View())
    {
      if |sendBuffer.data| == sendBuffer.capacityLimit {
        return Err(SendWindowFull);
      }
      var next := NextSeqnum();
      var header := DEFAULT_HEADER.(seqnum := Some(next));
      match sendData(header) {
        case Some((packet, timeout)) =>
          PutAtNext(sendBuffer.View(), Pending(packet, timeout, 1));
          var put := sendBuffer.Put(next, Pending(packet, timeout, 1));
          assert put.Ok?;
          r := Ok(());
        case None =>
          r := Err(InnerSendFailed);
      }
    }

    /** The `expect` in the loop cannot fire either: SendFragment asserts it. */
    method TrySendFragmented(fragments: seq<S>, sendData: (nat, Header, S) -> (S, nat)) returns (r: Result<(), SendError>)
      requires Valid() && View().NextSeqnum() + |fragments| <= U64_MAX
      modifies sendBuffer
      ensures Valid()
      ensures (View(), r) == Endpoints.TrySendFragmented(old(View()), fragments, sendData)
      ensures r == Ok(()) <==> |old(sendBuffer.data)| + |fragments| < sendBuffer.capacityLimit
      ensures r == Err(SendWindowFull) <==> |old(sendBuffer.data)| + |fragments| >= sendBuffer.capacityLimit
      ensures r.Err? ==> View() == old(View())
    {
      if |sendBuffer.data| + |fragments| >= sendBuffer.capacityLimit {
        return Err(SendWindowFull);
      }
      var i := 0;
      while i < |fragments|
        invariant i <= |fragments|
        invariant Valid()
        invariant |sendBuffer.data| + (|fragments| - i) < sendBuffer.capacityLimit
        invariant View().NextSeqnum() + (|fragments| - i) <= U64_MAX
        invariant SendFrom(View(), fragments, i, sendData) == SendFrom(old(View()), fragments, 0, sendData)
      {
        SendFragment(fragments, i, sendData);
        i := i + 1;
      }
      r := Ok(());
    }

    /** The loop body of TrySendFragmented, whose send cannot fail. */
    method SendFragment(fragments: seq<S>, i: nat, sendData: (nat, Header, S) -> (S, nat))
      requires Valid() && i < |fragments|
      requires |sendBuffer.data| + (|fragments| - i) < sendBuffer.capacityLimit
      requires View().NextSeqnum() + (|fragments| - i) <= U64_MAX
      modifies sendBuffer
      ensures Valid()
      ensures |sendBuffer.data| == |old(sendBuffer.data)| + 1 && View().NextSeqnum() == old(View()).NextSeqnum() + 1
      ensures SendFrom(View(), fragments, i + 1, sendData) == SendFrom(old(View()), fragments, i, sendData)
    {
      ghost var before := View();
      var sent := TrySend(FragmentSender(fragments, i, sendData));
      assert sent.Ok?;
      SendFromUnfolds(before, fragments, i, sendData, View());
    }

    method TrySendAck(sendAck: Header -> bool) returns (r: Result<Option<nat>, SendError>)
      requires Valid()
      modifies this`shouldAck
      ensures Valid()
      ensures (View(), r) == Endpoints.TrySendAck(old(View()), sendAck)
      ensures r == Ok(None) <==> !old(shouldAck)
      ensures r == Err(InnerSendFailed) <==> old(shouldAck) && !sendAck(Header(None, Some(receiveBuffer.left), None))
      ensures r == Ok(Some(receiveBuffer.left)) <==> old(shouldAck) && !shouldAck
    {
      if shouldAck {
        var header := DEFAULT_HEADER.(ackNum := Some(receiveBuffer.left));
        if sendAck(header) {
          shouldAck := false;
          r := Ok(Some(receiveBuffer.left));
        } else {
          r := Err(InnerSendFailed);
        }
      } else {
        r := Ok(None);
      }
    }

    /** `transmitted` is what the callback put on the wire, in order. */
    method TryResend(now: nat, sendData: (nat, S) -> Option<nat>) returns (transmitted: seq<S>, r: Result<(), SendError>)
      requires Valid() && View().NextSeqnum() <= U64_MAX
      modifies sendBuffer
      ensures Valid()
      ensures (View(), transmitted, r) == Endpoints.TryResend(old(View()), now, sendData)
    {
      transmitted := [];
      ghost var was := sendBuffer.View();
      var seqnum, last := sendBuffer.left, sendBuffer.left + |sendBuffer.data| - 1;
      while seqnum <= last
        invariant Valid()
        invariant sendBuffer.left == was.left <= seqnum <= last + 1
        invariant last + 1 == sendBuffer.left + |sendBuffer.data|
        invariant ResendFrom(was, 0, 0, now, sendData)
               == After(transmitted, ResendFrom(sendBuffer.View(), seqnum - sendBuffer.left, |transmitted|, now, sendData))
      {
        var failed;
        transmitted, failed := ResendSlot(seqnum, transmitted, now, sendData);
        if failed { return transmitted, Err(InnerSendFailed); }
        seqnum := seqnum + 1;
      }
      assert transmitted + [] == transmitted;
      r := Ok(());
    }

    /** The loop body of TryResend: a slot is skipped, sent again, or fails; `sent` went out before. */
    method ResendSlot(seqnum: nat, sent: seq<S>, now: nat, sendData: (nat, S) -> Option<nat>) returns (sent': seq<S>, failed: bool)
      requires Valid() && sendBuffer.left <= seqnum < View().NextSeqnum() <= U64_MAX
      modifies sendBuffer
      ensures Valid() && sendBuffer.left == old(sendBuffer.left) && |sendBuffer.data| == |old(sendBuffer.data)|
      ensures After(sent, ResendFrom(old(sendBuffer.View()), seqnum - sendBuffer.left, |sent|, now, sendData))
           == if failed then Resent(sendBuffer.View(), sent', Err(InnerSendFailed))
              else After(sent', ResendFrom(sendBuffer.View(), seqnum + 1 - sendBuffer.left, |sent'|, now, sendData))
    {
      var slot := sendBuffer.Get(seqnum);
      ghost var i := seqnum - sendBuffer.left;
      assert slot == sendBuffer.data[i];
      if slot.None? || now < slot.value.nextSendAt {
        return sent, false;
      }
      var pending := slot.value;
      var answer := sendData(|sent|, pending.packet);
      if answer.None? {
        assert sent + [] == sent;
        return sent, true;
      }
      var pending' := Pending(pending.packet, answer.value, pending.tryCount + 1);
      ResendSends(sendBuffer.View(), i, sent, now, sendData, pending');
      sendBuffer.Replace(seqnum, pending');
      sent', failed := sent + [pending.packet], false;
    }

    method UpdateSendWindow(receivedAckNum: nat)
      requires Valid()
      modifies sendBuffer
      ensures Valid()
      ensures View() == Endpoints.UpdateSendWindow(old(View()), receivedAckNum)
      ensures View().NextSeqnum() == old(View().NextSeqnum())
    {
      var next := NextSeqnum();
      if receivedAckNum > next {
        return;
      }
      if receivedAckNum < sendBuffer.left {
        return;
      }
      var _ := sendBuffer.DropFront(receivedAckNum - sendBuffer.left);
    }

    method UpdateReceiverWindow(header: Header, packet: R) returns (r: Result<seq<Packet<R>>, ReceiveError>)
      requires Valid()
      modifies this`shouldAck, receiveBuffer
      ensures Valid()
      ensures (View(), r) == Endpoints.UpdateReceiverWindow(old(View()), header, packet)
    {
      match header.seqnum {
        case None => return Ok([]);
        case Some(seqnum) =>
          var put := receiveBuffer.Put(seqnum, Packet(header, packet));
          match put {
            case Err(BeforeWindow) =>
              shouldAck := true;
              r := Ok([]);
            case Err(AfterWindow) =>
              r := Err(ReceiveWindowFull(seqnum));
            case Ok(_) =>
              var drained := receiveBuffer.DrainFront();
              match drained {
                case Some((_, ready)) =>
                  shouldAck := true;
                  r := Ok(ready);
                case None =>
                  r := Ok([]);
              }
          }
      }
    }

    method Receive(header: Header, packet: R) returns (r: Result<seq<R>, ReceiveError>)
      requires Valid()
      modifies this`shouldAck, sendBuffer, receiveBuffer
      ensures Valid()
      ensures (View(), r) == Endpoints.Receive(old(View()), header, packet)
    {
      match header.ackNum {
        case Some(ackNum) =>
          UpdateSendWindow(ackNum);
          r := Ok([]);
        case None =>
          if header.seqnum.Some? {
            var ready := UpdateReceiverWindow(header, packet);
            match ready {
              case Err(e) => r := Err(e);
              case Ok(packets) => r := Ok(Payloads(packets));
            }
          } else {
            r := Ok([packet]);
          }
      }
    }

    method ReceiveAndMerge(header: Header, packet: R) returns (r: Result<seq<R>, ReceiveError>)
      requires Valid()
      modifies this, sendBuffer, receiveBuffer, mergeBuffer
      ensures Valid()
      ensures (View(), r) == Endpoints.ReceiveAndMerge(extend, old(View()), header, packet)
    {
      match header.ackNum {
        case Some(ackNum) =>
          UpdateSendWindow(ackNum);
          r := Ok([]);
        case None =>
          if header.seqnum.Some? {
            var ready := UpdateReceiverWindow(header, packet);
            match ready {
              case Err(e) => r := Err(e);
              case Ok(packets) => r := MergePackets(packets);
            }
          } else {
            r := Ok([packet]);
          }
      }
    }

    method MergePackets(packets: seq<Packet<R>>) returns (r: Result<seq<R>, ReceiveError>)
      requires Valid()
      modifies this`mergeBuffer, this`mergeEndSeqnum, mergeBuffer
      ensures Valid()
      ensures (MergeView(), r) == MergeRun(extend, receiveBuffer.capacityLimit, old(MergeView()), packets)
      ensures mergeBuffer == null || mergeBuffer == old(mergeBuffer) || fresh(mergeBuffer)
    {
      var result := [];
      ghost var cap := receiveBuffer.capacityLimit;
      var i := 0;
      assert packets[0..] == packets;
      PrependNothing(MergeRun(extend, cap, MergeView(), packets));
      while i < |packets|
        invariant i <= |packets|
        invariant Valid()
        invariant mergeBuffer == null || mergeBuffer == old(mergeBuffer) || fresh(mergeBuffer)
        invariant MergeRun(extend, cap, old(MergeView()), packets)
               == Prepend(result, MergeRun(extend, cap, MergeView(), packets[i..]))
      {
        assert packets[i..][0] == packets[i] && packets[i..][1..] == packets[i + 1..];
        var out := MergePacket(packets[i]);
        if out.Err? {
          return Err(out.error);
        }
        PrependTwice(result, out.value, MergeRun(extend, cap, MergeView(), packets[i + 1..]));
        result := result + out.value;
        i := i + 1;
      }
      assert result + [] == result;
      r := Ok(result);
    }

    /** The body of the merge loop: what the packet adds to the result, or the error that ends the loop. */
    method MergePacket(p: Packet<R>) returns (out: Result<seq<R>, ReceiveError>)
      requires Valid()
      modifies this`mergeBuffer, this`mergeEndSeqnum, mergeBuffer
      ensures Valid()
      ensures (MergeView(), out) == MergeStep(extend, receiveBuffer.capacityLimit, old(MergeView()), p)
      ensures mergeBuffer == null || mergeBuffer == old(mergeBuffer) || fresh(mergeBuffer)
    {
      if p.header.seqnum.None? {
        return Ok([]);
      }
      var seqnum := p.header.seqnum.value;
      if mergeEndSeqnum.Some? && mergeBuffer == null {
        if mergeEndSeqnum.value < seqnum {
          mergeBuffer := null;
        } else {
          return Ok([]);
        }
      }
      if mergeBuffer != null {
        if p.header.numPackets.Some? && p.header.numPackets.value != 0 {
          out := FailMerge(PacketMergeConflict);
          return;
        }
        var pushed := mergeBuffer.Push(p.data);
        match pushed {
          case Ok(true) =>
            var buffer := mergeBuffer;
            mergeBuffer := null;
            var merged := buffer.Merge(extend);
            out := Ok([merged]);
          case Ok(false) =>
            out := Ok([]);
          case Err(_) =>
            out := FailMerge(InvalidMergeState);
        }
      } else if p.header.numPackets.Some? {
        var numPackets := p.header.numPackets.value;
        if numPackets <= 1 {
          out := Ok([p.data]);
        } else if numPackets > receiveBuffer.capacityLimit {
          out := Err(InvalidNumPackets(numPackets));
        } else {
          var buffer := MergeBuffer.Create(numPackets);
          var _ := buffer.Push(p.data);
          mergeBuffer := buffer;
          mergeEndSeqnum := Some(seqnum + numPackets - 1);
          assert buffer.data == [p.data];
          out := Ok([]);
        }
      } else {
        out := Ok([p.data]);
      }
    }

    method FailMerge<T>(reason: ReceiveError) returns (r: Result<T, ReceiveError>)
      modifies this`mergeBuffer
      ensures mergeBuffer == null && r == Err(reason)
    {
      mergeBuffer := null;
      r := Err(reason);
    }
  }

  /** The outcome of a resend that had already put `sent` on the wire. */
  function After<S>(sent: seq<S>, r: Resent<S>): Resent<S> {
    r.(transmitted := sent + r.transmitted)
  }

  lemma ResendSends<S>(w: Window<Pending<S>>, i: nat, sent: seq<S>, now: nat, sendData: (nat, S) -> Option<nat>, p': Pending<S>)
    requires i < |w.data| && w.data[i].Some? && now >= w.data[i].value.nextSendAt
    requires sendData(|sent|, w.data[i].value.packet) == Some(p'.nextSendAt)
    requires p'.packet == w.data[i].value.packet && p'.tryCount == w.data[i].value.tryCount + 1
    ensures After(sent, ResendFrom(w, i, |sent|, now, sendData))
         == After(sent + [p'.packet], ResendFrom(w.(data := w.data[i := Some(p')]), i + 1, |sent| + 1, now, sendData))
  {
    var rest := ResendFrom(w.(data := w.data[i := Some(p')]), i + 1, |sent| + 1, now, sendData);
    assert sent + ([p'.packet] + rest.transmitted) == sent + [p'.packet] + rest.transmitted;
  }

  lemma PrependTwice<R>(a: seq<R>, b: seq<R>, o: Outcome<R>)
    ensures Prepend(a, Prepend(b, o)) == Prepend(a + b, o)
  {
    if o.1.Ok? { assert a + (b + o.1.value) == a + b + o.1.value; }
  }
}
