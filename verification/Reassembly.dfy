/**
 * What the fragment merger gives back for what a sender put on the wire: a stream that is a
 * concatenation of pieces comes out as one value per piece, for every prefix of the stream.
 */
module Reassembly {
  import opened Common
  import opened Packets
  import opened Merging

  /** A piece: one packet on its own, or a group announced by its first packet. */
  ghost predicate IsPiece<D>(p: seq<Packet<D>>, cap: nat) {
    && 1 <= |p|
    && (|p| == 1 ==> p[0].header.numPackets.None? || p[0].header.numPackets.value <= 1)
    && (|p| >= 2 ==> p[0].header.numPackets == Some(|p|) && |p| <= cap)
    && (forall i :: 1 <= i < |p| ==> p[i].header.numPackets.None? || p[i].header.numPackets.value == 0)
  }

  ghost predicate ArePieces<D>(pieces: seq<seq<Packet<D>>>, cap: nat) {
    forall i :: 0 <= i < |pieces| ==> IsPiece(pieces[i], cap)
  }

  /** What a complete piece is merged into. */
  function Whole<D>(ext: (D, seq<D>) -> D, p: seq<Packet<D>>): D
    requires 1 <= |p|
  {
    var ds := Payloads(p);
    if |p| == 1 then ds[0] else ext(ds[0], ds[1..])
  }

  function Wholes<D>(ext: (D, seq<D>) -> D, pieces: seq<seq<Packet<D>>>): (r: seq<D>)
    requires forall i :: 0 <= i < |pieces| ==> 1 <= |pieces[i]|
    ensures |r| == |pieces|
    ensures forall i :: 0 <= i < |pieces| ==> r[i] == Whole(ext, pieces[i])
  {
    seq(|pieces|, i requires 0 <= i < |pieces| => Whole(ext, pieces[i]))
  }

  function Flatten<D>(pieces: seq<seq<D>>): seq<D> {
    if pieces == [] then [] else pieces[0] + Flatten(pieces[1..])
  }

  lemma {:induction false} FlattenAppend<D>(a: seq<seq<D>>, b: seq<seq<D>>)
    ensures Flatten(a + b) == Flatten(a) + Flatten(b)
    decreases |a|
  {
    if a == [] {
      assert a + b == b;
    } else {
      assert (a + b)[1..] == a[1..] + b;
      FlattenAppend(a[1..], b);
    }
  }

  /** No group is open and the next packet lies beyond the last one. */
  ghost predicate Idle<D>(st: MergeState<D>, s: nat) {
    st.buffer.None? && (st.end.None? || st.end.value < s)
  }

  function Open<D>(p: seq<Packet<D>>, k: nat, s: nat): MergeState<D>
    requires 1 <= k < |p|
  {
    MergeState(Some(Fragments(Payloads(p[..k]), |p|)), Some(s + |p| - 1))
  }

  lemma {:induction false} PieceSoFar<D>(ext: (D, seq<D>) -> D, cap: nat, st: MergeState<D>, p: seq<Packet<D>>, k: nat, s: nat)
    requires IsPiece(p, cap) && Consecutive(p, s) && Idle(st, s) && 1 <= k < |p|
    ensures MergeRun(ext, cap, st, p[..k]) == (Open(p, k, s), Ok([]))
    decreases k
  {
    assert p[0].header.seqnum == Some(s + 0);
    if k == 1 {
      assert p[..1] == [p[0]];
      RunOne(ext, cap, st, p[0]);
      assert Payloads(p[..1]) == [p[0].data];
    } else {
      PieceSoFar(ext, cap, st, p, k - 1, s);
      assert p[..k] == p[..k - 1] + [p[k - 1]];
      MergeRunAppend(ext, cap, st, p[..k - 1], [p[k - 1]]);
      var mid := Open(p, k - 1, s);
      RunOne(ext, cap, mid, p[k - 1]);
      assert p[k - 1].header.seqnum == Some(s + (k - 1));
      assert Payloads(p[..k]) == Payloads(p[..k - 1]) + [p[k - 1].data];
      PrependNothing(MergeRun(ext, cap, mid, [p[k - 1]]));
    }
  }

  lemma RunOne<D>(ext: (D, seq<D>) -> D, cap: nat, st: MergeState<D>, p: Packet<D>)
    ensures MergeRun(ext, cap, st, [p]) == MergeStep(ext, cap, st, p)
  {
    var (st', r) := MergeStep(ext, cap, st, p);
    assert MergeRun(ext, cap, st', []) == (st', Ok([]));
    if r.Ok? { assert r.value + [] == r.value; }
  }

  lemma PieceWhole<D>(ext: (D, seq<D>) -> D, cap: nat, st: MergeState<D>, p: seq<Packet<D>>, s: nat)
    requires IsPiece(p, cap) && Consecutive(p, s) && Idle(st, s)
    ensures var (st', r) := MergeRun(ext, cap, st, p);
            r == Ok([Whole(ext, p)]) && Idle(st', s + |p|)
  {
    var n := |p|;
    assert p[0].header.seqnum == Some(s + 0);
    if n == 1 {
      assert p == [p[0]];
      RunOne(ext, cap, st, p[0]);
    } else {
      PieceSoFar(ext, cap, st, p, n - 1, s);
      assert p == p[..n - 1] + [p[n - 1]];
      MergeRunAppend(ext, cap, st, p[..n - 1], [p[n - 1]]);
      var mid := Open(p, n - 1, s);
      RunOne(ext, cap, mid, p[n - 1]);
      assert p[n - 1].header.seqnum == Some(s + (n - 1));
      assert Payloads(p) == Payloads(p[..n - 1]) + [p[n - 1].data];
      PrependNothing(MergeRun(ext, cap, mid, [p[n - 1]]));
    }
  }

  lemma {:induction false} PiecesWhole<D>(ext: (D, seq<D>) -> D, cap: nat, st: MergeState<D>,
                                          pieces: seq<seq<Packet<D>>>, s: nat)
    requires ArePieces(pieces, cap) && Consecutive(Flatten(pieces), s) && Idle(st, s)
    ensures var (st', r) := MergeRun(ext, cap, st, Flatten(pieces));
            r == Ok(Wholes(ext, pieces)) && Idle(st', s + |Flatten(pieces)|)
    decreases |pieces|
  {
    if pieces != [] {
      var p, rest := pieces[0], Flatten(pieces[1..]);
      assert Flatten(pieces) == p + rest;
      ConsecutiveParts(p, rest, s);
      PieceWhole(ext, cap, st, p, s);
      MergeRunAppend(ext, cap, st, p, rest);
      PiecesWhole(ext, cap, MergeRun(ext, cap, st, p).0, pieces[1..], s + |p|);
      WholesCons(ext, pieces);
    }
  }

  lemma WholesCons<D>(ext: (D, seq<D>) -> D, pieces: seq<seq<Packet<D>>>)
    requires pieces != [] && forall i :: 0 <= i < |pieces| ==> 1 <= |pieces[i]|
    ensures Wholes(ext, pieces) == [Whole(ext, pieces[0])] + Wholes(ext, pieces[1..])
  {
  }

  lemma ConsecutiveParts<D>(a: seq<Packet<D>>, b: seq<Packet<D>>, s: nat)
    requires Consecutive(a + b, s)
    ensures Consecutive(a, s) && Consecutive(b, s + |a|)
  {
    forall i | 0 <= i < |a| ensures a[i].header.seqnum == Some(s + i) {
      assert (a + b)[i] == a[i];
    }
    forall i | 0 <= i < |b| ensures b[i].header.seqnum == Some(s + |a| + i) {
      assert (a + b)[|a| + i] == b[i];
    }
  }

  /** Where packet number `n` of the stream falls: `j` complete pieces, then `k` packets of the next. */
  function Locate<D>(pieces: seq<seq<D>>, n: nat): (r: (nat, nat))
    requires n <= |Flatten(pieces)|
    requires forall i :: 0 <= i < |pieces| ==> 1 <= |pieces[i]|
    ensures r.0 <= |pieces|
    ensures r.0 < |pieces| ==> r.1 < |pieces[r.0]|
    ensures r.0 == |pieces| ==> r.1 == 0
    decreases |pieces|
  {
    if pieces == [] || n < |pieces[0]| then (0, n)
    else
      var (j, k) := Locate(pieces[1..], n - |pieces[0]|);
      (j + 1, k)
  }

  function PartOf<D>(pieces: seq<seq<D>>, at: (nat, nat)): seq<D>
    requires at.0 <= |pieces|
    requires at.0 < |pieces| ==> at.1 <= |pieces[at.0]|
  {
    if at.0 < |pieces| then pieces[at.0][..at.1] else []
  }

  lemma {:induction false} LocateSplits<D>(pieces: seq<seq<D>>, n: nat)
    requires n <= |Flatten(pieces)|
    requires forall i :: 0 <= i < |pieces| ==> 1 <= |pieces[i]|
    ensures var at := Locate(pieces, n);
            Flatten(pieces)[..n] == Flatten(pieces[..at.0]) + PartOf(pieces, at)
    decreases |pieces|
  {
    if pieces == [] || n < |pieces[0]| {
    } else {
      LocateSplits(pieces[1..], n - |pieces[0]|);
      var at := Locate(pieces, n);
      assert pieces[..at.0][1..] == pieces[1..][..at.0 - 1];
      assert Flatten(pieces[..at.0]) == pieces[0] + Flatten(pieces[1..][..at.0 - 1]);
      assert PartOf(pieces, at) == PartOf(pieces[1..], (at.0 - 1, at.1));
      assert Flatten(pieces)[..n] == pieces[0] + Flatten(pieces[1..])[..n - |pieces[0]|];
    }
  }

  /**
   * Every prefix of a stream of pieces: the complete pieces come out in order, each once and merged,
   * and the buffer holds exactly the arrived part of the one that is unfinished.
   */
  lemma PrefixMerges<D>(ext: (D, seq<D>) -> D, cap: nat, pieces: seq<seq<Packet<D>>>, n: nat)
    requires ArePieces(pieces, cap) && Consecutive(Flatten(pieces), 1)
    requires n <= |Flatten(pieces)|
    ensures var (j, k) := Locate(pieces, n);
            var (st, r) := MergeRun(ext, cap, InitialMerge(), Flatten(pieces)[..n]);
            && r == Ok(Wholes(ext, pieces[..j]))
            && st.buffer == (if k == 0 then None else Some(Fragments(Payloads(pieces[j][..k]), |pieces[j]|)))
            && (st.end.Some? ==> st.end.value <= |Flatten(pieces)|)
  {
    var at := Locate(pieces, n);
    LocateSplits(pieces, n);
    var full, part := Flatten(pieces[..at.0]), PartOf(pieces, at);
    FullPiecesMerge(ext, cap, pieces, at.0);
    MergeRunAppend(ext, cap, InitialMerge(), full, part);
    var (mid, r) := MergeRun(ext, cap, InitialMerge(), full);
    if at.1 > 0 {
      PieceIsConsecutive(pieces, at.0);
      PieceSoFar(ext, cap, mid, pieces[at.0], at.1, 1 + |full|);
    }
    assert r.value + [] == r.value;
  }

  lemma FullPiecesMerge<D>(ext: (D, seq<D>) -> D, cap: nat, pieces: seq<seq<Packet<D>>>, j: nat)
    requires ArePieces(pieces, cap) && Consecutive(Flatten(pieces), 1) && j <= |pieces|
    ensures var (st, r) := MergeRun(ext, cap, InitialMerge(), Flatten(pieces[..j]));
            && r == Ok(Wholes(ext, pieces[..j]))
            && Idle(st, 1 + |Flatten(pieces[..j])|)
            && |Flatten(pieces[..j])| <= |Flatten(pieces)|
  {
    assert pieces == pieces[..j] + pieces[j..];
    FlattenAppend(pieces[..j], pieces[j..]);
    ConsecutiveParts(Flatten(pieces[..j]), Flatten(pieces[j..]), 1);
    PiecesWhole(ext, cap, InitialMerge(), pieces[..j], 1);
  }

  lemma PieceIsConsecutive<D>(pieces: seq<seq<Packet<D>>>, j: nat)
    requires j < |pieces| && Consecutive(Flatten(pieces), 1)
    ensures Consecutive(pieces[j], 1 + |Flatten(pieces[..j])|)
    ensures |Flatten(pieces[..j])| + |pieces[j]| <= |Flatten(pieces)|
  {
    var full, rest := Flatten(pieces[..j]), Flatten(pieces[j + 1..]);
    assert pieces == pieces[..j] + pieces[j..];
    FlattenAppend(pieces[..j], pieces[j..]);
    assert pieces[j..][1..] == pieces[j + 1..];
    ConsecutiveParts(full, pieces[j] + rest, 1);
    ConsecutiveParts(pieces[j], rest, 1 + |full|);
  }

  // --- What the sender's calls put on the wire -------------------------------------------------

  /** One accepted call of the sender: try_send, or try_send_fragmented. */
  datatype Call<+D> = Single(payload: D) | Group(fragments: seq<D>)

  /** The packets of a fragmented send; the count travels in 32 bits on the first of them. */
  function EncodeGroup<D>(fragments: seq<D>, first: nat): (r: seq<Packet<D>>)
    ensures |r| == |fragments|
    ensures forall i :: 0 <= i < |r| ==>
              r[i] == Packet(Header(Some(first + i), None, if i == 0 then Some(|fragments| % U32_COUNT) else None), fragments[i])
  {
    seq(|fragments|, i requires 0 <= i < |fragments| =>
      Packet(Header(Some(first + i), None, if i == 0 then Some(|fragments| % U32_COUNT) else None), fragments[i]))
  }

  function EncodeCall<D>(c: Call<D>, first: nat): seq<Packet<D>> {
    match c
    case Single(d) => [Packet(Header(Some(first), None, None), d)]
    case Group(fragments) => EncodeGroup(fragments, first)
  }

  function Encode<D>(calls: seq<Call<D>>): seq<Packet<D>> {
    if calls == [] then []
    else
      var before := Encode(calls[..|calls| - 1]);
      before + EncodeCall(calls[|calls| - 1], |before| + 1)
  }

  function Singles<D>(packets: seq<Packet<D>>): (r: seq<seq<Packet<D>>>)
    ensures |r| == |packets|
    ensures forall i :: 0 <= i < |r| ==> r[i] == [packets[i]]
  {
    seq(|packets|, i requires 0 <= i < |packets| => [packets[i]])
  }

  /** How the receiver divides the packets of one call, given the truncated count. */
  function CallPieces<D>(c: Call<D>, first: nat): seq<seq<Packet<D>>> {
    match c
    case Single(_) => Singles(EncodeCall(c, first))
    case Group(fragments) =>
      var packets, m := EncodeGroup(fragments, first), |fragments| % U32_COUNT;
      if m <= 1 then Singles(packets) else [packets[..m]] + Singles(packets[m..])
  }

  function Pieces<D>(calls: seq<Call<D>>): seq<seq<Packet<D>>> {
    if calls == [] then []
    else
      var init := calls[..|calls| - 1];
      Pieces(init) + CallPieces(calls[|calls| - 1], |Encode(init)| + 1)
  }

  lemma {:induction false} FlattenSingles<D>(packets: seq<Packet<D>>)
    ensures Flatten(Singles(packets)) == packets
    decreases |packets|
  {
    if packets != [] {
      assert Singles(packets)[1..] == Singles(packets[1..]);
      FlattenSingles(packets[1..]);
    }
  }

  lemma CallPiecesFlatten<D>(c: Call<D>, first: nat)
    ensures Flatten(CallPieces(c, first)) == EncodeCall(c, first)
  {
    match c
    case Single(_) => FlattenSingles(EncodeCall(c, first));
    case Group(fragments) =>
      var packets, m := EncodeGroup(fragments, first), |fragments| % U32_COUNT;
      if m <= 1 {
        FlattenSingles(packets);
      } else {
        FlattenSingles(packets[m..]);
        var pieces := [packets[..m]] + Singles(packets[m..]);
        assert pieces[1..] == Singles(packets[m..]);
        assert packets == packets[..m] + packets[m..];
      }
  }

  lemma {:induction false} PiecesFlatten<D>(calls: seq<Call<D>>)
    ensures Flatten(Pieces(calls)) == Encode(calls)
    decreases |calls|
  {
    if calls != [] {
      var init := calls[..|calls| - 1];
      PiecesFlatten(init);
      var c, first := calls[|calls| - 1], |Encode(init)| + 1;
      FlattenAppend(Pieces(init), CallPieces(c, first));
      CallPiecesFlatten(c, first);
    }
  }

  /** No group has more than `cap` fragments. */
  ghost predicate Fits<D>(calls: seq<Call<D>>, cap: nat) {
    forall c :: c in calls ==> c.Group? ==> |c.fragments| <= cap
  }

  /** The count each group announces, cut to 32 bits, is one that the receiver accepts. */
  ghost predicate AnnouncesFit<D>(calls: seq<Call<D>>, cap: nat) {
    forall c :: c in calls ==> CallFits(c, cap)
  }

  ghost predicate CallFits<D>(c: Call<D>, cap: nat) {
    c.Group? ==> |c.fragments| % U32_COUNT <= 1 || |c.fragments| % U32_COUNT <= cap
  }

  lemma FitsAnnounces<D>(calls: seq<Call<D>>, cap: nat)
    requires Fits(calls, cap)
    ensures AnnouncesFit(calls, cap)
  {
    forall c | c in calls ensures CallFits(c, cap) {
      if c.Group? { assert |c.fragments| % U32_COUNT <= |c.fragments|; }
    }
  }

  lemma CallPiecesArePieces<D>(c: Call<D>, first: nat, cap: nat)
    requires CallFits(c, cap)
    ensures ArePieces(CallPieces(c, first), cap)
  {
    match c
    case Single(_) =>
    case Group(fragments) =>
      var packets, m := EncodeGroup(fragments, first), |fragments| % U32_COUNT;
      if m > 1 {
        assert IsPiece(packets[..m], cap);
        forall i | m <= i < |packets| ensures IsPiece([packets[i]], cap) {
          assert [packets[i]][0] == packets[i];
        }
        var tail := Singles(packets[m..]);
        forall i | 0 <= i < |tail| ensures IsPiece(tail[i], cap) {
          assert tail[i] == [packets[m + i]];
        }
      }
  }

  lemma {:induction false} PiecesArePieces<D>(calls: seq<Call<D>>, cap: nat)
    requires AnnouncesFit(calls, cap)
    ensures ArePieces(Pieces(calls), cap)
    decreases |calls|
  {
    if calls != [] {
      var init, c := calls[..|calls| - 1], calls[|calls| - 1];
      PiecesArePieces(init, cap);
      assert c in calls;
      CallPiecesArePieces(c, |Encode(init)| + 1, cap);
    }
  }

  lemma {:induction false} EncodeConsecutive<D>(calls: seq<Call<D>>)
    ensures Consecutive(Encode(calls), 1)
    decreases |calls|
  {
    if calls != [] {
      EncodeConsecutive(calls[..|calls| - 1]);
    }
  }

  /** The groups of a log are announced within it. */
  lemma {:induction false} EncodeAnnouncesWithin<D>(calls: seq<Call<D>>)
    ensures AnnouncedWithin(Encode(calls), |Encode(calls)|)
    decreases |calls|
  {
    if calls != [] {
      var init, c := calls[..|calls| - 1], calls[|calls| - 1];
      EncodeAnnouncesWithin(init);
      var before, packets := Encode(init), EncodeCall(c, |Encode(init)| + 1);
      CallAnnouncesWithin(c, |before| + 1);
      forall i | 0 <= i < |before + packets| ensures PacketWithin((before + packets)[i], |before + packets|) {
        if i < |before| {
          assert PacketWithin(before[i], |before|);
        } else {
          assert PacketWithin(packets[i - |before|], |before| + |packets|);
        }
      }
    }
  }

  lemma CallAnnouncesWithin<D>(c: Call<D>, first: nat)
    requires 1 <= first
    ensures AnnouncedWithin(EncodeCall(c, first), first - 1 + |EncodeCall(c, first)|)
  {
    if c.Group? { assert |c.fragments| % U32_COUNT <= |c.fragments|; }
  }

  // --- The messages the sender meant -----------------------------------------------------------

  function CallMessages<D>(ext: (D, seq<D>) -> D, c: Call<D>): seq<D> {
    match c
    case Single(d) => [d]
    case Group(fragments) =>
      if |fragments| <= 1 then fragments else [ext(fragments[0], fragments[1..])]
  }

  function Messages<D>(ext: (D, seq<D>) -> D, calls: seq<Call<D>>): seq<D> {
    if calls == [] then []
    else Messages(ext, calls[..|calls| - 1]) + CallMessages(ext, calls[|calls| - 1])
  }

  /** Every payload submitted, fragment by fragment. */
  function Submitted<D>(calls: seq<Call<D>>): seq<D> {
    if calls == [] then []
    else
      var c := calls[|calls| - 1];
      Submitted(calls[..|calls| - 1]) + (if c.Single? then [c.payload] else c.fragments)
  }

  lemma {:induction false} EncodeCarriesSubmitted<D>(calls: seq<Call<D>>)
    ensures Payloads(Encode(calls)) == Submitted(calls)
    decreases |calls|
  {
    if calls != [] {
      var init, c := calls[..|calls| - 1], calls[|calls| - 1];
      EncodeCarriesSubmitted(init);
      var packets := EncodeCall(c, |Encode(init)| + 1);
      PayloadsAppend(Encode(init), packets);
      assert Payloads(packets) == if c.Single? then [c.payload] else c.fragments;
    }
  }

  lemma NonemptyPieces<D>(c: Call<D>, first: nat)
    ensures forall i :: 0 <= i < |CallPieces(c, first)| ==> 1 <= |CallPieces(c, first)[i]|
  {
  }

  /**
   * A call comes out as the message the sender meant if and only if its fragments can be
   * counted in 32 bits; a longer group is cut up.
   */
  lemma CallComesOutIff<D>(ext: (D, seq<D>) -> D, c: Call<D>, first: nat)
    ensures forall i :: 0 <= i < |CallPieces(c, first)| ==> 1 <= |CallPieces(c, first)[i]|
    ensures Wholes(ext, CallPieces(c, first)) == CallMessages(ext, c)
       <==> (c.Group? ==> |c.fragments| < U32_COUNT)
  {
    NonemptyPieces(c, first);
    if c.Group? {
      var n := |c.fragments|;
      var packets, m := EncodeGroup(c.fragments, first), n % U32_COUNT;
      var ws := Wholes(ext, CallPieces(c, first));
      if n < U32_COUNT {
        assert m == n;
        assert Payloads(packets) == c.fragments;
        if 1 < n {
          assert packets[..m] == packets;
          assert ws == [Whole(ext, packets)];
        }
      } else {
        assert |ws| >= 2;
      }
    }
  }

  /** What the merger returns for one call's packets is the message meant, if and only if the count fits in 32 bits. */
  lemma CallMergesIff<D>(ext: (D, seq<D>) -> D, cap: nat, st: MergeState<D>, c: Call<D>, first: nat)
    requires CallFits(c, cap) && Idle(st, first)
    ensures MergeRun(ext, cap, st, EncodeCall(c, first)).1 == Ok(CallMessages(ext, c))
       <==> (c.Group? ==> |c.fragments| < U32_COUNT)
  {
    CallPiecesFlatten(c, first);
    CallPiecesArePieces(c, first, cap);
    PiecesWhole(ext, cap, st, CallPieces(c, first), first);
    CallComesOutIff(ext, c, first);
  }

  /** A call never comes out as fewer values than meant, and as exactly as many only if its count fits. */
  lemma CallPieceCount<D>(ext: (D, seq<D>) -> D, c: Call<D>, first: nat)
    ensures |CallMessages(ext, c)| <= |CallPieces(c, first)|
    ensures |CallMessages(ext, c)| == |CallPieces(c, first)| <==> (c.Group? ==> |c.fragments| < U32_COUNT)
  {
  }

  lemma {:induction false} PieceCount<D>(ext: (D, seq<D>) -> D, calls: seq<Call<D>>)
    ensures |Messages(ext, calls)| <= |Pieces(calls)|
    ensures |Messages(ext, calls)| == |Pieces(calls)| <==> Fits(calls, U32_COUNT - 1)
    decreases |calls|
  {
    if calls != [] {
      var init, c := calls[..|calls| - 1], calls[|calls| - 1];
      FitsLast(calls, U32_COUNT - 1);
      PieceCount(ext, init);
      CallPieceCount(ext, c, |Encode(init)| + 1);
    }
  }

  lemma {:induction false} PiecesNonempty<D>(calls: seq<Call<D>>)
    ensures forall i :: 0 <= i < |Pieces(calls)| ==> 1 <= |Pieces(calls)[i]|
    decreases |calls|
  {
    if calls != [] {
      var init, c := calls[..|calls| - 1], calls[|calls| - 1];
      PiecesNonempty(init);
      NonemptyPieces(c, |Encode(init)| + 1);
    }
  }

  lemma {:induction false} FittingCallsComeOut<D>(ext: (D, seq<D>) -> D, calls: seq<Call<D>>)
    requires Fits(calls, U32_COUNT - 1)
    requires forall i :: 0 <= i < |Pieces(calls)| ==> 1 <= |Pieces(calls)[i]|
    ensures Wholes(ext, Pieces(calls)) == Messages(ext, calls)
    decreases |calls|
  {
    if calls != [] {
      var init, c := calls[..|calls| - 1], calls[|calls| - 1];
      var first := |Encode(init)| + 1;
      FitsLast(calls, U32_COUNT - 1);
      PiecesNonempty(init);
      FittingCallsComeOut(ext, init);
      CallComesOutIff(ext, c, first);
      WholesAppend(ext, Pieces(init), CallPieces(c, first));
    }
  }

  /** The pieces the receiver makes of all calls are the messages meant, if and only if every count fits in 32 bits. */
  lemma CallsComeOut<D>(ext: (D, seq<D>) -> D, calls: seq<Call<D>>)
    ensures forall i :: 0 <= i < |Pieces(calls)| ==> 1 <= |Pieces(calls)[i]|
    ensures Wholes(ext, Pieces(calls)) == Messages(ext, calls) <==> Fits(calls, U32_COUNT - 1)
  {
    PiecesNonempty(calls);
    PieceCount(ext, calls);
    if Fits(calls, U32_COUNT - 1) { FittingCallsComeOut(ext, calls); }
  }

  lemma FitsLast<D>(calls: seq<Call<D>>, cap: nat)
    requires calls != []
    ensures var init, c := calls[..|calls| - 1], calls[|calls| - 1];
            && (Fits(calls, cap) <==> Fits(init, cap) && (c.Group? ==> |c.fragments| <= cap))
            && (AnnouncesFit(calls, cap) <==> AnnouncesFit(init, cap) && CallFits(c, cap))
  {
    var init, c := calls[..|calls| - 1], calls[|calls| - 1];
    assert calls == init + [c];
    assert c in calls;
    forall d | d in calls ensures d in init || d == c {}
    forall d | d in init ensures d in calls {}
  }

  /** Everything sent, merged in one go: the messages meant, if and only if every count fits in 32 bits. */
  lemma CallsMergeIff<D>(ext: (D, seq<D>) -> D, cap: nat, calls: seq<Call<D>>)
    requires AnnouncesFit(calls, cap)
    ensures MergeRun(ext, cap, InitialMerge(), Encode(calls)).1 == Ok(Messages(ext, calls)) <==> Fits(calls, U32_COUNT - 1)
  {
    PiecesFlatten(calls);
    PiecesArePieces(calls, cap);
    EncodeConsecutive(calls);
    PiecesWhole(ext, cap, InitialMerge(), Pieces(calls), 1);
    CallsComeOut(ext, calls);
  }

  /** And it merges without error if and only if every announced count is within the receiver's capacity. */
  lemma {:induction false} MergesWithoutErrorIff<D>(ext: (D, seq<D>) -> D, cap: nat, calls: seq<Call<D>>)
    ensures MergeRun(ext, cap, InitialMerge(), Encode(calls)).1.Ok? <==> AnnouncesFit(calls, cap)
    decreases |calls|
  {
    if AnnouncesFit(calls, cap) {
      CallsMergeIff(ext, cap, calls);
      PiecesFlatten(calls);
      PiecesArePieces(calls, cap);
      EncodeConsecutive(calls);
      PiecesWhole(ext, cap, InitialMerge(), Pieces(calls), 1);
    } else {
      var init, c := calls[..|calls| - 1], calls[|calls| - 1];
      var before, packets := Encode(init), EncodeCall(c, |Encode(init)| + 1);
      FitsLast(calls, cap);
      MergesWithoutErrorIff(ext, cap, init);
      MergeRunAppend(ext, cap, InitialMerge(), before, packets);
      if AnnouncesFit(init, cap) {
        PiecesFlatten(init);
        PiecesArePieces(init, cap);
        EncodeConsecutive(init);
        PiecesWhole(ext, cap, InitialMerge(), Pieces(init), 1);
        OversizedIsRefused(ext, cap, MergeRun(ext, cap, InitialMerge(), before).0, c, |before| + 1);
      }
    }
  }

  /** Any part of a log, from its beginning, merges without error if and only if it announces nothing oversized. */
  lemma PrefixMergesIff<D>(ext: (D, seq<D>) -> D, cap: nat, calls: seq<Call<D>>, n: nat)
    requires n <= |Encode(calls)|
    ensures MergeRun(ext, cap, InitialMerge(), Encode(calls)[..n]).1.Ok? <==> NoneOversized(Encode(calls)[..n], cap)
  {
    PiecesFlatten(calls);
    assert AnnouncesFit(calls, U32_COUNT);
    PiecesArePieces(calls, U32_COUNT);
    EncodeConsecutive(calls);
    PrefixMerges(ext, U32_COUNT, Pieces(calls), n);
    CapacityDecides(ext, cap, U32_COUNT, InitialMerge(), Encode(calls)[..n], 1);
  }

  lemma OversizedIsRefused<D>(ext: (D, seq<D>) -> D, cap: nat, st: MergeState<D>, c: Call<D>, first: nat)
    requires !CallFits(c, cap) && Idle(st, first)
    ensures MergeRun(ext, cap, st, EncodeCall(c, first)).1 == Err(InvalidNumPackets(|c.fragments| % U32_COUNT))
  {
    var packets := EncodeGroup(c.fragments, first);
    assert |c.fragments| % U32_COUNT <= |c.fragments|;
    assert packets[0].header == Header(Some(first + 0), None, Some(|c.fragments| % U32_COUNT));
  }

  lemma WholesAppend<D>(ext: (D, seq<D>) -> D, a: seq<seq<Packet<D>>>, b: seq<seq<Packet<D>>>)
    requires forall i :: 0 <= i < |a| ==> 1 <= |a[i]|
    requires forall i :: 0 <= i < |b| ==> 1 <= |b[i]|
    ensures forall i :: 0 <= i < |a + b| ==> 1 <= |(a + b)[i]|
    ensures Wholes(ext, a + b) == Wholes(ext, a) + Wholes(ext, b)
  {
  }
}
