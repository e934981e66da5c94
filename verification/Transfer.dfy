/**
 * What an application submits over whole runs: texts that are cut into chunks and sent as fragments, and
 * messages sent on their own between them, all carrying the headers of their packets.
 */
module Transfer {
  import opened Common
  import opened Packets
  import opened Reassembly
  import opened Network
  import opened Delivery
  import opened SfuMessages

  datatype Item<+X> = Text(bytes: Bytes, other: X) | Alone(content: Option<Bytes>, other: X)

  /** The call that submits `item` when the next sequence number is `first`. */
  function ItemCall<X>(item: Item<X>, size: nat, first: nat): Call<Message<X>>
    requires 1 <= size
  {
    match item
    case Text(bytes, other) => Group(Payloads(Fragmented(Chunks(bytes, size), first, other)))
    case Alone(content, other) => Single(Message(Some(Header(Some(first), None, None)), content, other))
  }

  ghost predicate SubmitsItem<X>(calls: seq<Call<Message<X>>>, i: nat, item: Item<X>, size: nat)
    requires 1 <= size && i < |calls|
  {
    calls[i] == ItemCall(item, size, |Encode(calls[..i])| + 1)
  }

  /** Each call submits one of the items, texts in chunks of `size`, under the sequence numbers it is really given. */
  ghost predicate Submits<X>(calls: seq<Call<Message<X>>>, items: seq<Item<X>>, size: nat)
    requires 1 <= size
  {
    && |calls| == |items|
    && forall i :: 0 <= i < |calls| ==> SubmitsItem(calls, i, items[i], size)
  }

  /** A message without its header. */
  type Body<X> = (Option<Bytes>, X)

  function Bodies<X>(messages: seq<Message<X>>): (r: seq<Body<X>>)
    ensures |r| == |messages|
    ensures forall i :: 0 <= i < |r| ==> r[i] == (messages[i].content, messages[i].other)
  {
    seq(|messages|, i requires 0 <= i < |messages| => (messages[i].content, messages[i].other))
  }

  /** What the peer's application is to see of an item: nothing of an empty text. */
  function ItemBody<X>(item: Item<X>): seq<Body<X>> {
    match item
    case Text(bytes, other) => if bytes == [] then [] else [(Some(bytes), other)]
    case Alone(content, other) => [(content, other)]
  }

  function ItemBodies<X>(items: seq<Item<X>>): seq<Body<X>> {
    if items == [] then [] else ItemBodies(items[..|items| - 1]) + ItemBody(items[|items| - 1])
  }

  /** The packets of such a call carry their own headers. */
  lemma ItemAgrees<X>(item: Item<X>, size: nat, first: nat)
    requires 1 <= size
    ensures forall i :: 0 <= i < |EncodeCall(ItemCall(item, size, first), first)| ==>
              Agrees(EncodeCall(ItemCall(item, size, first), first)[i])
  {
    if item.Text? {
      var chunks := Chunks(item.bytes, size);
      var packets := Fragmented(chunks, first, item.other);
      forall i | 0 <= i < |packets| ensures Agrees(EncodeGroup(Payloads(packets), first)[i]) {
        assert packets[i] == Fragment(chunks, first, item.other, i);
      }
    }
  }

  /** Such a call means what the peer's application is to see. */
  lemma ItemMeant<X>(item: Item<X>, size: nat, first: nat)
    requires 1 <= size
    ensures Bodies(CallMessages(Extending(), ItemCall(item, size, first))) == ItemBody(item)
  {
    if item.Text? {
      var chunks := Chunks(item.bytes, size);
      var packets := Fragmented(chunks, first, item.other);
      var fragments := Payloads(packets);
      ChunksFlatten(item.bytes, size);
      FragmentedConcat(chunks, first, item.other);
      if chunks != [] {
        assert packets[0] == Fragment(chunks, first, item.other, 0);
        assert fragments[0].content == Some(chunks[0]) && fragments[0].IsExtendable();
        if |chunks| == 1 {
          assert chunks[1..] == [] && Flatten(chunks) == chunks[0] + [];
        } else {
          assert Concat(fragments) == fragments[0].Bytes() + Concat(fragments[1..]);
        }
      }
    }
  }

  lemma SubmitsEarlier<X>(calls: seq<Call<Message<X>>>, n: nat, i: nat, item: Item<X>, size: nat)
    requires 1 <= size && i < n <= |calls| && SubmitsItem(calls, i, item, size)
    ensures SubmitsItem(calls[..n], i, item, size)
  {
    assert calls[..n][..i] == calls[..i];
  }

  lemma SubmitsPrefix<X>(calls: seq<Call<Message<X>>>, items: seq<Item<X>>, size: nat)
    requires 1 <= size && Submits(calls, items, size) && calls != []
    ensures Submits(calls[..|calls| - 1], items[..|calls| - 1], size)
  {
    var n := |calls| - 1;
    forall i | 0 <= i < n ensures SubmitsItem(calls[..n], i, items[..n][i], size) {
      assert SubmitsItem(calls, i, items[i], size);
      SubmitsEarlier(calls, n, i, items[i], size);
    }
  }

  lemma BodiesAppend<X>(a: seq<Message<X>>, b: seq<Message<X>>)
    ensures Bodies(a + b) == Bodies(a) + Bodies(b)
  {
  }

  lemma LastItemMeant<X>(calls: seq<Call<Message<X>>>, items: seq<Item<X>>, size: nat)
    requires 1 <= size && Submits(calls, items, size) && calls != []
    ensures Bodies(CallMessages(Extending(), calls[|calls| - 1])) == ItemBody(items[|items| - 1])
  {
    var n := |calls| - 1;
    assert SubmitsItem(calls, n, items[n], size);
    ItemMeant(items[n], size, |Encode(calls[..n])| + 1);
  }

  lemma {:induction false} ItemsMeant<X>(calls: seq<Call<Message<X>>>, items: seq<Item<X>>, size: nat)
    requires 1 <= size && Submits(calls, items, size)
    ensures Bodies(Messages(Extending(), calls)) == ItemBodies(items)
    decreases |calls|
  {
    if calls != [] {
      var n := |calls| - 1;
      SubmitsPrefix(calls, items, size);
      LastItemMeant(calls, items, size);
      ItemsMeant(calls[..n], items[..n], size);
      BodiesAppend(Messages(Extending(), calls[..n]), CallMessages(Extending(), calls[n]));
    }
  }

  lemma {:induction false} ItemsAgree<X>(calls: seq<Call<Message<X>>>, items: seq<Item<X>>, size: nat)
    requires 1 <= size && Submits(calls, items, size)
    ensures forall i :: 0 <= i < |Encode(calls)| ==> Agrees(Encode(calls)[i])
    decreases |calls|
  {
    if calls != [] {
      var n := |calls| - 1;
      SubmitsPrefix(calls, items, size);
      ItemsAgree(calls[..n], items[..n], size);
      assert SubmitsItem(calls, n, items[n], size);
      ItemAgrees(items[n], size, |Encode(calls[..n])| + 1);
    }
  }

  lemma BodiesPrefix<X>(a: seq<Message<X>>, all: seq<Message<X>>)
    requires a <= all
    ensures Bodies(a) <= Bodies(all)
  {
    assert a == all[..|a|];
    assert Bodies(a) == Bodies(all)[..|a|];
  }

  lemma LogIsEncoded<X(!new)>(capA: nat, capB: nat, mergingA: bool, s: System<Message<X>>)
    requires 1 <= capA && 1 <= capB
    requires Reachable(Extending(), NewSystem(capA, capB, mergingA, true), s)
    ensures s.a.log == Encode(s.a.calls)
  {
    ReachableInv(Extending(), capA, capB, mergingA, true, s);
  }

  /**
   * In every run whose sender submits texts and messages in this way, to a receiver of any capacity that
   * accepts the groups: what is returned is at every moment a prefix of what was submitted, in order and
   * each once, without the empty texts, and all of it once everything has been released.  Every message
   * travels with its packet's header.
   */
  lemma ItemsDelivered<X(!new)>(capA: nat, capB: nat, mergingA: bool, s: System<Message<X>>, items: seq<Item<X>>, size: nat)
    requires 1 <= capA && 1 <= capB && 1 <= size
    requires Reachable(Extending(), NewSystem(capA, capB, mergingA, true), s)
    requires Submits(s.a.calls, items, size)
    requires AnnouncesFit(s.a.calls, capB) && Fits(s.a.calls, U32_COUNT - 1)
    ensures forall i :: 0 <= i < |s.a.log| ==> Agrees(s.a.log[i])
    ensures Bodies(s.b.returned) <= ItemBodies(items)
    ensures s.b.ep.AckSeqnum() == s.a.ep.NextSeqnum() ==> Bodies(s.b.returned) == ItemBodies(items)
  {
    MessagesDelivered(Extending(), capA, capB, mergingA, s);
    BodiesPrefix(s.b.returned, Messages(Extending(), s.a.calls));
    ItemsMeant(s.a.calls, items, size);
    ItemsAgree(s.a.calls, items, size);
    LogIsEncoded(capA, capB, mergingA, s);
  }
}
