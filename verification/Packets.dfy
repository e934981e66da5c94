/** The headers and packets of mrp/src/stream.rs. */
module Packets {
  import opened Common

  datatype Header = Header(seqnum: Option<nat>, ackNum: Option<nat>, numPackets: Option<nat>)

  const DEFAULT_HEADER := Header(None, None, None)

  datatype Packet<+D> = Packet(header: Header, data: D)

  datatype ReceiveError =
    | ReceiveWindowFull(seqnum: nat)
    | PacketMergeConflict
    | InvalidNumPackets(num: nat)
    | InvalidMergeState

  datatype SendError = SendWindowFull | InnerSendFailed

  /** The packets carry the sequence numbers `first`, `first + 1`, ... */
  ghost predicate Consecutive<D>(packets: seq<Packet<D>>, first: nat) {
    forall i :: 0 <= i < |packets| ==> packets[i].header.seqnum == Some(first + i)
  }

  function Payloads<D>(packets: seq<Packet<D>>): (r: seq<D>)
    ensures |r| == |packets|
    ensures forall i :: 0 <= i < |r| ==> r[i] == packets[i].data
  {
    seq(|packets|, i requires 0 <= i < |packets| => packets[i].data)
  }

  lemma PayloadsAppend<D>(a: seq<Packet<D>>, b: seq<Packet<D>>)
    ensures Payloads(a + b) == Payloads(a) + Payloads(b)
    ensures b == [] ==> a + b == a
  {
  }
}
