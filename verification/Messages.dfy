/**
 * The messages that are merged in practice: the Extend implementations that SfuToDevice and
 * DeviceToSfu share word for word in src/rust/src/protobuf.rs, what they make of a merge, and how
 * src/rust/src/core/group_call.rs cuts a message that is too large into fragments.
 */
module SfuMessages {
  import opened Common
  import opened Packets
  import opened Merging
  import opened Reassembly

  type Bytes = seq<bv8>

  /** `other` stands for all fields that extending leaves alone. */
  datatype Message<X> = Message(mrpHeader: Option<Header>, content: Option<Bytes>, other: X) {
    predicate IsExtendable() {
      mrpHeader.Some? && mrpHeader.value.numPackets.Some?
    }

    function Bytes(): Bytes {
      if content.Some? then content.value else []
    }
  }

  function Concat<X>(messages: seq<Message<X>>): Bytes {
    if messages == [] then [] else messages[0].Bytes() + Concat(messages[1..])
  }

  lemma {:induction false} ConcatAppend<X>(a: seq<Message<X>>, b: seq<Message<X>>)
    ensures Concat(a + b) == Concat(a) + Concat(b)
    decreases |a|
  {
    if a == [] {
      assert a + b == b;
    } else {
      assert (a + b)[1..] == a[1..] + b;
      ConcatAppend(a[1..], b);
    }
  }

  /** The contents of those messages that have one. */
  function ContentsOf<X>(messages: seq<Message<X>>): seq<Bytes> {
    if messages == [] then []
    else (if messages[0].content.Some? then [messages[0].content.value] else []) + ContentsOf(messages[1..])
  }

  lemma {:induction false} ConcatIsContents<X>(messages: seq<Message<X>>)
    ensures Concat(messages) == Flatten(ContentsOf(messages))
    decreases |messages|
  {
    if messages != [] {
      var rest := ContentsOf(messages[1..]);
      ConcatIsContents(messages[1..]);
      if messages[0].content.Some? {
        assert ([messages[0].content.value] + rest)[1..] == rest;
      } else {
        assert [] + rest == rest;
      }
    }
  }

  /** Missing content counts as empty; a message that announced no fragments is left alone. */
  function Extended<X>(m: Message<X>, rest: seq<Message<X>>): Message<X> {
    if m.IsExtendable() then m.(content := Some(m.Bytes() + Concat(rest))) else m
  }

  /** Extending, as the merger is given it. */
  function Extending<X>(): (Message<X>, seq<Message<X>>) -> Message<X> {
    (m: Message<X>, rest: seq<Message<X>>) => Extended(m, rest)
  }

  /** One message further in a list that is being appended. */
  lemma ConcatStep<X>(content: Bytes, rest: seq<Message<X>>, i: nat)
    requires i < |rest|
    ensures content + Concat(rest[i..]) == content + rest[i].Bytes() + Concat(rest[i + 1..])
    ensures rest[i].content.None? ==> content + rest[i].Bytes() == content
  {
    assert rest[i..][0] == rest[i] && rest[i..][1..] == rest[i + 1..];
    assert content + (rest[i].Bytes() + Concat(rest[i + 1..])) == content + rest[i].Bytes() + Concat(rest[i + 1..]);
  }

  method Extend<X>(m: Message<X>, rest: seq<Message<X>>) returns (r: Message<X>)
    ensures r == Extended(m, rest)
    ensures if m.mrpHeader.Some? && m.mrpHeader.value.numPackets.Some?
            then r == m.(content := r.content) && r.content == Some(Flatten(ContentsOf([m] + rest)))
            else r == m
  {
    ConcatIsContents([m] + rest);
    assert ([m] + rest)[1..] == rest;
    if !m.IsExtendable() {
      return m;
    }
    var content := if m.content.None? then [] else m.content.value;
    var i := 0;
    assert rest[0..] == rest;
    while i < |rest|
      invariant i <= |rest|
      invariant content + Concat(rest[i..]) == m.Bytes() + Concat(rest)
    {
      ConcatStep(content, rest, i);
      if rest[i].content.Some? {
        content := content + rest[i].content.value;
      }
      i := i + 1;
    }
    assert rest[|rest|..] == [] && content + [] == content;
    r := m.(content := Some(content));
  }

  /** Extending by a list is extending by the parts of any split of it in turn. */
  lemma ExtendSplits<X>(m: Message<X>, a: seq<Message<X>>, b: seq<Message<X>>)
    ensures Extended(Extended(m, a), b) == Extended(m, a + b)
  {
    ConcatAppend(a, b);
    assert m.Bytes() + Concat(a) + Concat(b) == m.Bytes() + (Concat(a) + Concat(b));
  }

  /** The message carries the header it was sent under. */
  ghost predicate Agrees<X>(p: Packet<Message<X>>) {
    p.data.mrpHeader == Some(p.header)
  }

  /** The open group, if any, was opened by a message that can be extended. */
  ghost predicate OpenExtendable<X>(st: MergeState<Message<X>>) {
    st.buffer.Some? ==> 1 <= |st.buffer.value.data| && st.buffer.value.data[0].IsExtendable()
  }

  /**
   * Whatever packets arrive, as long as each message agrees with its header a merge is only ever
   * opened by an extendable message, so no merge is skipped by the guard in extend.
   */
  lemma {:induction false} MergesAreExtendable<X>(cap: nat, st: MergeState<Message<X>>, packets: seq<Packet<Message<X>>>)
    requires OpenExtendable(st)
    requires forall i :: 0 <= i < |packets| ==> Agrees(packets[i])
    ensures OpenExtendable(MergeRun(Extending(), cap, st, packets).0)
    decreases |packets|
  {
    if packets != [] {
      var ext := Extending<X>();
      assert Agrees(packets[0]);
      var (st', r) := MergeStep(ext, cap, st, packets[0]);
      assert OpenExtendable(st');
      if r.Ok? { MergesAreExtendable(cap, st', packets[1..]); }
    }
  }

  /** A complete group comes out as its first message with the contents of all of them, in order. */
  lemma GroupIsConcatenated<X>(cap: nat, st: MergeState<Message<X>>, p: seq<Packet<Message<X>>>, s: nat)
    requires IsPiece(p, cap) && 2 <= |p| && Consecutive(p, s) && Idle(st, s)
    requires Agrees(p[0])
    ensures MergeRun(Extending(), cap, st, p).1
         == Ok([p[0].data.(content := Some(Concat(Payloads(p))))])
  {
    var ext := Extending<X>();
    PieceWhole(ext, cap, st, p, s);
    assert Concat(Payloads(p)) == Payloads(p)[0].Bytes() + Concat(Payloads(p)[1..]);
  }

  /**
   * With headers that need not agree: a complete group holds the contents of all its messages if and
   * only if its first message can be extended, or the others have nothing to add.
   */
  lemma MergedContentIff<X>(cap: nat, st: MergeState<Message<X>>, p: seq<Packet<Message<X>>>, s: nat)
    requires IsPiece(p, cap) && 2 <= |p| && Consecutive(p, s) && Idle(st, s)
    ensures var r := MergeRun(Extending(), cap, st, p).1;
            && r.Ok? && |r.value| == 1
            && (r.value[0].Bytes() == Concat(Payloads(p)) <==> p[0].data.IsExtendable() || Concat(Payloads(p)[1..]) == [])
  {
    PieceWhole(Extending(), cap, st, p, s);
    var first, rest := Payloads(p)[0], Payloads(p)[1..];
    assert Concat(Payloads(p)) == first.Bytes() + Concat(rest);
    assert |first.Bytes() + Concat(rest)| == |first.Bytes()| + |Concat(rest)|;
    assert Concat(rest) == [] ==> first.Bytes() + Concat(rest) == first.Bytes();
  }

  // --- Fragmenting a message that is too large for one packet ------------------------------------

  /** Consecutive stretches of `size` bytes, the last one possibly shorter. */
  function Chunks(bytes: Bytes, size: nat): (r: seq<Bytes>)
    requires 1 <= size
    ensures bytes != [] ==> r != []
    ensures forall i :: 0 <= i < |r| ==> 1 <= |r[i]| <= size
    ensures forall i :: 0 <= i < |r| - 1 ==> |r[i]| == size
    decreases |bytes|
  {
    if bytes == [] then []
    else if |bytes| <= size then [bytes]
    else [bytes[..size]] + Chunks(bytes[size..], size)
  }

  /** Each chunk travels as the content of a message of its own, under the header of its packet. */
  function Fragmented<X>(chunks: seq<Bytes>, first: nat, other: X): (r: seq<Packet<Message<X>>>)
    ensures |r| == |chunks|
    ensures forall i :: 0 <= i < |r| ==> r[i] == Fragment(chunks, first, other, i)
  {
    seq(|chunks|, i requires 0 <= i < |chunks| => Fragment(chunks, first, other, i))
  }

  function Fragment<X>(chunks: seq<Bytes>, first: nat, other: X, i: nat): Packet<Message<X>>
    requires i < |chunks|
  {
    var h := EncodeGroup(chunks, first)[i].header;
    Packet(h, Message(Some(h), Some(chunks[i]), other))
  }

  lemma {:induction false} ChunksFlatten(bytes: Bytes, size: nat)
    requires 1 <= size
    ensures Flatten(Chunks(bytes, size)) == bytes
    decreases |bytes|
  {
    if |bytes| > size {
      ChunksFlatten(bytes[size..], size);
      assert Chunks(bytes, size)[1..] == Chunks(bytes[size..], size);
      assert bytes == bytes[..size] + bytes[size..];
    }
  }

  lemma {:induction false} ConcatIsFlatten<X>(messages: seq<Message<X>>, chunks: seq<Bytes>)
    requires |messages| == |chunks|
    requires forall i :: 0 <= i < |chunks| ==> messages[i].content == Some(chunks[i])
    ensures Concat(messages) == Flatten(chunks)
    decreases |chunks|
  {
    if chunks != [] {
      assert messages[0].content == Some(chunks[0]);
      ConcatIsFlatten(messages[1..], chunks[1..]);
    }
  }

  lemma FragmentedIsPiece<X>(chunks: seq<Bytes>, first: nat, other: X, cap: nat)
    requires 1 <= |chunks| <= cap && |chunks| < U32_COUNT
    ensures var packets := Fragmented(chunks, first, other);
            && IsPiece(packets, cap) && Consecutive(packets, first) && Agrees(packets[0])
            && packets[0].data == Message(Some(packets[0].header), Some(chunks[0]), other)
  {
    var packets := Fragmented(chunks, first, other);
    assert |chunks| % U32_COUNT == |chunks|;
    forall i | 0 <= i < |packets|
      ensures packets[i].header == Header(Some(first + i), None, if i == 0 then Some(|chunks|) else None)
    {
      assert packets[i] == Fragment(chunks, first, other, i);
    }
    assert packets[0] == Fragment(chunks, first, other, 0);
  }

  lemma FragmentedConcat<X>(chunks: seq<Bytes>, first: nat, other: X)
    ensures Concat(Payloads(Fragmented(chunks, first, other))) == Flatten(chunks)
  {
    var packets := Fragmented(chunks, first, other);
    forall i | 0 <= i < |chunks| ensures Payloads(packets)[i].content == Some(chunks[i]) {
      assert packets[i] == Fragment(chunks, first, other, i);
    }
    ConcatIsFlatten(Payloads(packets), chunks);
  }

  /**
   * What is fragmented and sent comes out of the peer's merge as one message with the same bytes;
   * an empty message has no fragments and does not come out at all.
   */
  lemma FragmentsRoundTrip<X>(bytes: Bytes, size: nat, cap: nat, st: MergeState<Message<X>>, first: nat, other: X)
    requires 1 <= size
    requires |Chunks(bytes, size)| <= cap && |Chunks(bytes, size)| < U32_COUNT
    requires Idle(st, first)
    ensures var packets := Fragmented(Chunks(bytes, size), first, other);
            && (packets == [] <==> bytes == [])
            && MergeRun(Extending(), cap, st, packets).1
               == Ok(if packets == [] then [] else [Message(Some(packets[0].header), Some(bytes), other)])
  {
    var chunks := Chunks(bytes, size);
    var packets := Fragmented(chunks, first, other);
    ChunksFlatten(bytes, size);
    if packets != [] {
      FragmentedIsPiece(chunks, first, other, cap);
      FragmentedConcat(chunks, first, other);
      if |packets| == 1 {
        assert chunks[1..] == [] && Flatten(chunks) == chunks[0] + [];
        PieceWhole(Extending(), cap, st, packets, first);
      } else {
        GroupIsConcatenated(cap, st, packets, first);
      }
    }
  }
}
