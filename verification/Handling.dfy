/**
 * How src/rust/src/core/group_call.rs handles what receive_and_merge returns: a loop over each call's
 * messages that returns after the first one with content.
 */
module Handling {
  import opened Common
  import opened Packets
  import opened Merging
  import opened Endpoints
  import opened Reassembly
  import opened Nodes
  import opened Faults
  import opened Network
  import opened SfuMessages
  import opened Transfer

  /** The loop over one call's ready messages: after one with content it returns. */
  function Handled<X>(ready: seq<Message<X>>): seq<Message<X>> {
    if ready == [] then []
    else if ready[0].content.Some? then [ready[0]]
    else [ready[0]] + Handled(ready[1..])
  }

  method HandleReady<X>(ready: seq<Message<X>>) returns (handled: seq<Message<X>>)
    ensures handled == Handled(ready)
    ensures handled <= ready
    ensures forall i :: 0 <= i < |handled| - 1 ==> handled[i].content.None?
    ensures |handled| < |ready| ==> handled != [] && handled[|handled| - 1].content.Some?
  {
    handled := [];
    var i := 0;
    while i < |ready|
      invariant i <= |ready| && handled == ready[..i]
      invariant forall j :: 0 <= j < i ==> ready[j].content.None?
    {
      handled := handled + [ready[i]];
      if ready[i].content.Some? {
        HandledIs(ready, i + 1);
        return;
      }
      i := i + 1;
    }
    HandledIs(ready, |ready|);
  }

  /** Handling `n` messages is right if only the last of them may have content, and must have it if more follow. */
  lemma {:induction false} HandledIs<X>(ready: seq<Message<X>>, n: nat)
    requires n <= |ready| && forall j :: 0 <= j < n - 1 ==> ready[j].content.None?
    requires n < |ready| ==> 0 < n && ready[n - 1].content.Some?
    ensures Handled(ready) == ready[..n]
    decreases |ready|
  {
    if ready != [] {
      assert ready[..n] == [ready[0]] + ready[1..][..n - 1];
      if ready[0].content.None? { HandledIs(ready[1..], n - 1); }
    }
  }

  /** Content only at the end of the batch. */
  ghost predicate ContentLast<X>(ready: seq<Message<X>>) {
    forall i :: 0 <= i < |ready| - 1 ==> ready[i].content.None?
  }

  /** The loop ends with the first message that has content, or with the last message. */
  lemma {:induction false} HandledReaches<X>(ready: seq<Message<X>>)
    ensures Handled(ready) <= ready
    ensures forall i :: 0 <= i < |Handled(ready)| - 1 ==> ready[i].content.None?
    ensures |Handled(ready)| < |ready| ==> Handled(ready) != [] && ready[|Handled(ready)| - 1].content.Some?
    decreases |ready|
  {
    if ready != [] && ready[0].content.None? {
      HandledReaches(ready[1..]);
      assert ready == [ready[0]] + ready[1..];
    }
  }

  lemma {:induction false} HandledAllIff<X>(ready: seq<Message<X>>)
    ensures |Handled(ready)| <= |ready|
    ensures Handled(ready) == ready <==> ContentLast(ready)
    decreases |ready|
  {
    if ready != [] {
      var rest := ready[1..];
      HandledAllIff(rest);
      assert ready == [ready[0]] + rest;
      if ready[0].content.Some? {
        if rest != [] { assert !ContentLast(ready) by { assert ready[0].content.Some?; } }
      } else {
        assert ContentLast(ready) <==> ContentLast(rest) by {
          if ContentLast(rest) {
            forall i | 0 <= i < |ready| - 1 ensures ready[i].content.None? {
              if i > 0 { assert rest[i - 1].content.None?; }
            }
          }
        }
        assert Handled(ready)[1..] == Handled(rest);
      }
    }
  }

  /** The messages that the calls returned. */
  function Delivered<X>(outcomes: seq<Result<seq<Message<X>>, ReceiveError>>): seq<Message<X>> {
    if outcomes == [] then []
    else (if outcomes[0].Ok? then outcomes[0].value else []) + Delivered(outcomes[1..])
  }

  /** The messages that were handled of them; an error handles nothing. */
  function HandledOf<X>(outcomes: seq<Result<seq<Message<X>>, ReceiveError>>): seq<Message<X>> {
    if outcomes == [] then []
    else (if outcomes[0].Ok? then Handled(outcomes[0].value) else []) + HandledOf(outcomes[1..])
  }

  lemma {:induction false} HandledOfIff<X>(outcomes: seq<Result<seq<Message<X>>, ReceiveError>>)
    ensures |HandledOf(outcomes)| <= |Delivered(outcomes)|
    ensures HandledOf(outcomes) == Delivered(outcomes)
       <==> forall i :: 0 <= i < |outcomes| ==> outcomes[i].Ok? ==> ContentLast(outcomes[i].value)
    decreases |outcomes|
  {
    if outcomes != [] {
      var b, rest := if outcomes[0].Ok? then outcomes[0].value else [], outcomes[1..];
      HandledAllIff(b);
      HandledOfIff(rest);
      assert HandledOf(outcomes) == Handled(b) + HandledOf(rest);
      if HandledOf(outcomes) == Delivered(outcomes) {
        SameParts(Handled(b), HandledOf(rest), b, Delivered(rest));
        forall i | 0 <= i < |outcomes| && outcomes[i].Ok? ensures ContentLast(outcomes[i].value) {
          if i > 0 { assert outcomes[i] == rest[i - 1]; }
        }
      } else if ContentLast(b) {
        var i :| 0 <= i < |rest| && rest[i].Ok? && !ContentLast(rest[i].value);
        assert outcomes[i + 1] == rest[i];
      }
    }
  }

  lemma SameParts<T>(a: seq<T>, b: seq<T>, c: seq<T>, d: seq<T>)
    requires a + b == c + d && |a| <= |c| && |b| <= |d|
    ensures a == c && b == d
  {
    assert |a| == |c|;
    assert a == (a + b)[..|a|] && c == (c + d)[..|a|];
    assert b == (a + b)[|a|..] && d == (c + d)[|a|..];
  }

  // --- Whole runs --------------------------------------------------------------------------------------

  /** What B's application gained from one state of a run to the next. */
  function Gained<X>(s: System<Message<X>>, s': System<Message<X>>): seq<Message<X>> {
    if |s.b.returned| <= |s'.b.returned| then s'.b.returned[|s.b.returned|..] else []
  }

  /** The messages handled up to state `k` of a run: of each call of receive_and_merge those that the loop reaches. */
  function HandledUpTo<X>(run: seq<System<Message<X>>>, k: nat): seq<Message<X>>
    requires k < |run|
  {
    if k == 0 then [] else HandledUpTo(run, k - 1) + Handled(Gained(run[k - 1], run[k]))
  }

  /** An arrival at B gains the result of its call, and no other event gains anything. */
  lemma GainedIsResult<X>(s: System<Message<X>>, ev: Event<Message<X>>)
    requires Allowed(s, ev) && s.b.merging
    ensures var s' := Step(Extending(), s, ev);
            && s.b.returned <= s'.b.returned
            && Gained(s, s') == if ev.AtB? && ev.action.Deliver?
               then Delivered([ReceiveAndMerge(Extending(), s.b.ep, ev.action.packet.header, ev.action.packet.data).1])
               else []
  {
    if ev.AtB? && ev.action.Deliver? {
      var p := ev.action.packet;
      var r := ReceiveAndMerge(Extending(), s.b.ep, p.header, p.data).1;
      assert [r][1..] == [];
      if r.Ok? { assert r.value + [] == r.value; }
    }
  }

  ghost predicate Growing<X>(run: seq<System<Message<X>>>, i: nat)
    requires i + 1 < |run|
  {
    run[i].b.returned <= run[i + 1].b.returned
  }

  ghost predicate GainsContentLast<X>(run: seq<System<Message<X>>>, i: nat)
    requires i + 1 < |run|
  {
    ContentLast(Gained(run[i], run[i + 1]))
  }

  ghost predicate AllGainContentLast<X>(run: seq<System<Message<X>>>, k: nat)
    requires k < |run|
  {
    forall i :: 0 <= i < k ==> GainsContentLast(run, i)
  }

  lemma AllGainOneMore<X>(run: seq<System<Message<X>>>, k: nat)
    requires 0 < k < |run|
    ensures AllGainContentLast(run, k) <==> AllGainContentLast(run, k - 1) && GainsContentLast(run, k - 1)
  {
  }

  lemma GrowsByGained<X>(s: System<Message<X>>, s': System<Message<X>>)
    requires s.b.returned <= s'.b.returned
    ensures s'.b.returned == s.b.returned + Gained(s, s')
  {
  }

  lemma HandledStep<X>(handled: seq<Message<X>>, before: seq<Message<X>>, gained: seq<Message<X>>)
    requires |handled| <= |before|
    ensures |handled + Handled(gained)| <= |before + gained|
    ensures handled + Handled(gained) == before + gained <==> handled == before && ContentLast(gained)
  {
    HandledAllIff(gained);
    if handled + Handled(gained) == before + gained { SameParts(handled, Handled(gained), before, gained); }
  }

  lemma HandledOneMore<X>(run: seq<System<Message<X>>>, k: nat)
    requires 0 < k < |run| && Growing(run, k - 1) && |HandledUpTo(run, k - 1)| <= |run[k - 1].b.returned|
    ensures |HandledUpTo(run, k)| <= |run[k].b.returned|
    ensures HandledUpTo(run, k) == run[k].b.returned
       <==> HandledUpTo(run, k - 1) == run[k - 1].b.returned && GainsContentLast(run, k - 1)
  {
    GrowsByGained(run[k - 1], run[k]);
    HandledStep(HandledUpTo(run, k - 1), run[k - 1].b.returned, Gained(run[k - 1], run[k]));
  }

  lemma {:induction false} HandledUpToIff<X>(run: seq<System<Message<X>>>, k: nat)
    requires k < |run| && run[0].b.returned == [] && forall i :: 0 <= i < |run| - 1 ==> Growing(run, i)
    ensures |HandledUpTo(run, k)| <= |run[k].b.returned|
    ensures HandledUpTo(run, k) == run[k].b.returned <==> AllGainContentLast(run, k)
    decreases k
  {
    if k > 0 {
      HandledUpToIff(run, k - 1);
      assert Growing(run, k - 1);
      HandledOneMore(run, k);
      AllGainOneMore(run, k);
    }
  }

  // --- In terms of what was sent and what has arrived ----------------------------------------------

  /** The messages that a sender's packets are merged into. */
  ghost function Merged<X>(calls: seq<Call<Message<X>>>): (r: seq<Message<X>>)
    ensures |r| == |Pieces(calls)|
  {
    PiecesNonempty(calls);
    Wholes(Extending(), Pieces(calls))
  }

  /** How many of them are complete within the first `n` packets. */
  ghost function Complete<X>(calls: seq<Call<Message<X>>>, n: nat): (k: nat)
    requires n <= |Encode(calls)|
    ensures k <= |Pieces(calls)|
  {
    PiecesNonempty(calls);
    PiecesFlatten(calls);
    Locate(Pieces(calls), n).0
  }

  /** Of the messages in `all` that packets `from`, ..., `to` - 1 complete, only the last has content. */
  ghost predicate CompletesContentLast<X>(calls: seq<Call<Message<X>>>, all: seq<Message<X>>, from: nat, to: nat) {
    && 1 <= from <= to <= |Encode(calls)| + 1
    && Complete(calls, from - 1) <= Complete(calls, to - 1) <= |all|
    && ContentLast(all[Complete(calls, from - 1)..Complete(calls, to - 1)])
  }

  /** The receiver has returned those messages in `all` that the packets released so far complete. */
  ghost predicate ReturnedSoFar<X>(calls: seq<Call<Message<X>>>, all: seq<Message<X>>, y: Node<Message<X>>) {
    && 1 <= y.ep.AckSeqnum() <= |Encode(calls)| + 1
    && Complete(calls, y.ep.AckSeqnum() - 1) <= |all|
    && y.returned == all[..Complete(calls, y.ep.AckSeqnum() - 1)]
  }

  lemma ReleasedPrefix<X>(calls: seq<Call<Message<X>>>, s: System<Message<X>>)
    requires Inv(Extending(), s) && s.a.log <= Encode(calls)
    ensures 1 <= s.b.ep.AckSeqnum() <= |Encode(calls)| + 1
    ensures s.b.released == Encode(calls)[..s.b.ep.AckSeqnum() - 1] && Reported(Extending(), s.b)
  {
  }

  lemma MergedPrefix<X>(calls: seq<Call<Message<X>>>, cap: nat, n: nat)
    requires n <= |Encode(calls)| && AnnouncesFit(calls, cap)
    ensures MergeRun(Extending(), cap, InitialMerge(), Encode(calls)[..n]).1 == Ok(Merged(calls)[..Complete(calls, n)])
  {
    PiecesFlatten(calls);
    PiecesArePieces(calls, cap);
    EncodeConsecutive(calls);
    PrefixMerges(Extending(), cap, Pieces(calls), n);
    WholesPrefix(Pieces(calls), Locate(Pieces(calls), n).0);
  }

  lemma WholesPrefix<X>(pieces: seq<seq<Packet<Message<X>>>>, j: nat)
    requires j <= |pieces| && forall i :: 0 <= i < |pieces| ==> 1 <= |pieces[i]|
    ensures Wholes(Extending(), pieces[..j]) == Wholes(Extending(), pieces)[..j]
  {
  }

  lemma PrefixReturned<X>(calls: seq<Call<Message<X>>>, s: System<Message<X>>)
    requires Inv(Extending(), s) && s.b.merging && s.a.log <= Encode(calls) && AnnouncesFit(calls, s.b.ep.recv.cap)
    ensures ReturnedSoFar(calls, Merged(calls), s.b)
  {
    ReleasedPrefix(calls, s);
    ReportedReturned(calls, s.b);
  }

  lemma ReportedReturned<X>(calls: seq<Call<Message<X>>>, y: Node<Message<X>>)
    requires y.merging && Reported(Extending(), y) && AnnouncesFit(calls, y.ep.recv.cap)
    requires 1 <= y.ep.AckSeqnum() <= |Encode(calls)| + 1 && y.released == Encode(calls)[..y.ep.AckSeqnum() - 1]
    ensures ReturnedSoFar(calls, Merged(calls), y)
  {
    MergedPrefix(calls, y.ep.recv.cap, y.ep.AckSeqnum() - 1);
    ReportedOutput(y, Merged(calls)[..Complete(calls, y.ep.AckSeqnum() - 1)]);
  }

  lemma ReportedOutput<X>(y: Node<Message<X>>, out: seq<Message<X>>)
    requires y.merging && Reported(Extending(), y)
    requires MergeRun(Extending(), y.ep.recv.cap, InitialMerge(), y.released).1 == Ok(out)
    ensures y.returned == out
  {
  }

  ghost predicate Follow<X>(run: seq<System<Message<X>>>, events: seq<Event<Message<X>>>, i: nat)
    requires i < |events| && |run| == |events| + 1
  {
    && Growing(run, i)
    && run[i].a.log <= run[i + 1].a.log
    && run[i].b.ep.AckSeqnum() <= run[i + 1].b.ep.AckSeqnum()
  }

  lemma StepFollows<X>(run: seq<System<Message<X>>>, events: seq<Event<Message<X>>>, i: nat)
    requires Network.IsRun(Extending(), run, events) && i < |events| && Inv(Extending(), run[i]) && run[i].b.merging
    ensures Follow(run, events, i)
  {
    assert Network.Follows(Extending(), run[i], events[i], run[i + 1]);
    GainedIsResult(run[i], events[i]);
    match events[i]
    case AtA(a) => ActKeepsInv(Extending(), run[i].a, a);
    case AtB(a) => ActKeepsInv(Extending(), run[i].b, a);
  }

  lemma {:induction false} LogsGrow<X>(run: seq<System<Message<X>>>, events: seq<Event<Message<X>>>, i: nat, j: nat)
    requires |run| == |events| + 1 && i <= j < |run| && forall k :: 0 <= k < |events| ==> Follow(run, events, k)
    ensures run[i].a.log <= run[j].a.log
    decreases j
  {
    if i < j {
      LogsGrow(run, events, i, j - 1);
      assert Follow(run, events, j - 1);
    }
  }

  /** Every state of a run has returned what it completes of the calls made by the end of the run. */
  lemma RunReturns<X>(capA: nat, capB: nat, mergingA: bool, run: seq<System<Message<X>>>, events: seq<Event<Message<X>>>)
    requires 1 <= capA && 1 <= capB
    requires Network.IsRun(Extending(), run, events) && run[0] == NewSystem(capA, capB, mergingA, true)
    requires AnnouncesFit(run[|events|].a.calls, capB)
    ensures forall i :: 0 <= i < |events| ==> Follow(run, events, i)
    ensures forall i :: 0 <= i < |run| ==> ReturnedSoFar(run[|events|].a.calls, Merged(run[|events|].a.calls), run[i].b)
  {
    NewSystemInv<Message<X>>(Extending(), capA, capB, mergingA, true);
    RunKeepsInv(Extending(), run, events);
    forall i | 0 <= i < |events| ensures Follow(run, events, i) { StepFollows(run, events, i); }
    forall i | 0 <= i < |run| ensures ReturnedSoFar(run[|events|].a.calls, Merged(run[|events|].a.calls), run[i].b) {
      LogsGrow(run, events, i, |events|);
      PrefixReturned(run[|events|].a.calls, run[i]);
    }
  }

  lemma GainedIsCompleted<X>(calls: seq<Call<Message<X>>>, all: seq<Message<X>>, s: System<Message<X>>, s': System<Message<X>>)
    requires ReturnedSoFar(calls, all, s.b) && ReturnedSoFar(calls, all, s'.b)
    requires s.b.returned <= s'.b.returned && s.b.ep.AckSeqnum() <= s'.b.ep.AckSeqnum()
    ensures Complete(calls, s.b.ep.AckSeqnum() - 1) <= Complete(calls, s'.b.ep.AckSeqnum() - 1) <= |all|
    ensures ContentLast(Gained(s, s')) <==> CompletesContentLast(calls, all, s.b.ep.AckSeqnum(), s'.b.ep.AckSeqnum())
  {
    GainedSlice(all, Complete(calls, s.b.ep.AckSeqnum() - 1), Complete(calls, s'.b.ep.AckSeqnum() - 1), s, s');
  }

  lemma GainedSlice<X>(all: seq<Message<X>>, j: nat, k: nat, s: System<Message<X>>, s': System<Message<X>>)
    requires j <= |all| && k <= |all| && s.b.returned == all[..j] && s'.b.returned == all[..k]
    requires s.b.returned <= s'.b.returned
    ensures j <= k
    ensures ContentLast(Gained(s, s')) <==> ContentLast(all[j..k])
  {
    assert Gained(s, s') == all[j..k];
  }

  ghost predicate ArrivalContentLast<X>(calls: seq<Call<Message<X>>>, all: seq<Message<X>>, run: seq<System<Message<X>>>, i: nat)
    requires i + 1 < |run|
  {
    CompletesContentLast(calls, all, run[i].b.ep.AckSeqnum(), run[i + 1].b.ep.AckSeqnum())
  }

  lemma ReturnsHandledIff<X>(calls: seq<Call<Message<X>>>, all: seq<Message<X>>,
                             run: seq<System<Message<X>>>, events: seq<Event<Message<X>>>)
    requires |run| == |events| + 1 && run[0].b.returned == []
    requires forall i :: 0 <= i < |events| ==> Follow(run, events, i)
    requires forall i :: 0 <= i < |run| ==> ReturnedSoFar(calls, all, run[i].b)
    ensures HandledUpTo(run, |events|) == run[|events|].b.returned
       <==> forall i :: 0 <= i < |events| ==> ArrivalContentLast(calls, all, run, i)
  {
    forall i | 0 <= i < |events| ensures Growing(run, i) && (GainsContentLast(run, i) <==> ArrivalContentLast(calls, all, run, i)) {
      assert Follow(run, events, i);
      GainedIsCompleted(calls, all, run[i], run[i + 1]);
    }
    HandledUpToIff(run, |events|);
  }

  /**
   * In every run to a receiver that accepts the groups: every message returned is handled if and only if
   * no event moves the acknowledgement number over packets that complete a message with content and then
   * another one; what comes after such a message in the same call is lost to the handler.
   */
  lemma AllHandledIff<X>(capA: nat, capB: nat, mergingA: bool, run: seq<System<Message<X>>>, events: seq<Event<Message<X>>>)
    requires 1 <= capA && 1 <= capB
    requires Network.IsRun(Extending(), run, events) && run[0] == NewSystem(capA, capB, mergingA, true)
    requires AnnouncesFit(run[|events|].a.calls, capB)
    ensures HandledUpTo(run, |events|) == run[|events|].b.returned
       <==> forall i :: 0 <= i < |events| ==> ArrivalContentLast(run[|events|].a.calls, Merged(run[|events|].a.calls), run, i)
  {
    var calls := run[|events|].a.calls;
    RunReturns(capA, capB, mergingA, run, events);
    ReturnsHandledIff(calls, Merged(calls), run, events);
  }

  /** The event at `i` completes at most one message. */
  ghost predicate CompletesOne<X>(calls: seq<Call<Message<X>>>, run: seq<System<Message<X>>>, i: nat)
    requires i + 1 < |run|
  {
    var from, to := run[i].b.ep.AckSeqnum(), run[i + 1].b.ep.AckSeqnum();
    1 <= from <= to <= |Encode(calls)| + 1 && Complete(calls, to - 1) <= Complete(calls, from - 1) + 1
  }

  /**
   * If everything submitted has content, as texts have: all is handled if and only if no arrival ever
   * completes two messages at once.
   */
  lemma ContentHandledIff<X>(capA: nat, capB: nat, mergingA: bool, run: seq<System<Message<X>>>, events: seq<Event<Message<X>>>,
                             items: seq<Item<X>>, size: nat)
    requires 1 <= capA && 1 <= capB && 1 <= size
    requires Network.IsRun(Extending(), run, events) && run[0] == NewSystem(capA, capB, mergingA, true)
    requires AnnouncesFit(run[|events|].a.calls, capB) && Fits(run[|events|].a.calls, U32_COUNT - 1)
    requires Submits(run[|events|].a.calls, items, size)
    requires forall i :: 0 <= i < |items| ==> items[i].Text? || items[i].content.Some?
    ensures HandledUpTo(run, |events|) == run[|events|].b.returned
       <==> forall i :: 0 <= i < |events| ==> CompletesOne(run[|events|].a.calls, run, i)
  {
    var calls := run[|events|].a.calls;
    AllHandledIff(capA, capB, mergingA, run, events);
    RunReturns(capA, capB, mergingA, run, events);
    AllHaveContent(calls, items, size);
    forall i | 0 <= i < |events| ensures ArrivalContentLast(calls, Merged(calls), run, i) <==> CompletesOne(calls, run, i) {
      assert Follow(run, events, i);
      OneIsContentLast(calls, Merged(calls), run, i);
    }
  }

  lemma OneIsContentLast<X>(calls: seq<Call<Message<X>>>, all: seq<Message<X>>, run: seq<System<Message<X>>>, i: nat)
    requires i + 1 < |run| && Growing(run, i) && run[i].b.ep.AckSeqnum() <= run[i + 1].b.ep.AckSeqnum()
    requires ReturnedSoFar(calls, all, run[i].b) && ReturnedSoFar(calls, all, run[i + 1].b)
    requires forall k :: 0 <= k < |all| ==> all[k].content.Some?
    ensures ArrivalContentLast(calls, all, run, i) <==> CompletesOne(calls, run, i)
  {
    GainedIsCompleted(calls, all, run[i], run[i + 1]);
    FullOfContent(all, Complete(calls, run[i].b.ep.AckSeqnum() - 1), Complete(calls, run[i + 1].b.ep.AckSeqnum() - 1));
  }

  lemma FullOfContent<X>(messages: seq<Message<X>>, j: nat, k: nat)
    requires j <= k <= |messages| && forall i :: 0 <= i < |messages| ==> messages[i].content.Some?
    ensures ContentLast(messages[j..k]) <==> k <= j + 1
  {
    if k > j + 1 { assert messages[j..k][0] == messages[j]; }
  }

  lemma AllHaveContent<X>(calls: seq<Call<Message<X>>>, items: seq<Item<X>>, size: nat)
    requires 1 <= size && Submits(calls, items, size) && Fits(calls, U32_COUNT - 1)
    requires forall i :: 0 <= i < |items| ==> items[i].Text? || items[i].content.Some?
    ensures forall i :: 0 <= i < |Merged(calls)| ==> Merged(calls)[i].content.Some?
  {
    CallsComeOut(Extending(), calls);
    ItemsMeant(calls, items, size);
    BodiesHaveContent(items);
    forall i | 0 <= i < |Merged(calls)| ensures Merged(calls)[i].content.Some? {
      assert Bodies(Messages(Extending(), calls))[i].0.Some?;
    }
  }

  lemma {:induction false} BodiesHaveContent<X>(items: seq<Item<X>>)
    requires forall i :: 0 <= i < |items| ==> items[i].Text? || items[i].content.Some?
    ensures forall i :: 0 <= i < |ItemBodies(items)| ==> ItemBodies(items)[i].0.Some?
    decreases |items|
  {
    if items != [] { BodiesHaveContent(items[..|items| - 1]); }
  }

  // --- The same packets in two orders ----------------------------------------------------------------

  /** The packet of a message sent as a group of one fragment, under the number `s`. */
  function OwnPacket<X>(m: Message<X>, s: nat): Packet<Message<X>> {
    EncodeCall(Group([m]), s)[0]
  }

  lemma OwnPacketsMerge<X>(cap: nat, a: Message<X>, b: Message<X>)
    ensures var p, q := OwnPacket(a, 1), OwnPacket(b, 2);
            && MergeRun(Extending(), cap, InitialMerge(), [p]) == (InitialMerge(), Ok([a]))
            && MergeRun(Extending(), cap, InitialMerge(), [q]) == (InitialMerge(), Ok([b]))
            && MergeRun(Extending(), cap, InitialMerge(), [p, q]) == (InitialMerge(), Ok([a, b]))
  {
    var p, q := OwnPacket(a, 1), OwnPacket(b, 2);
    RunOne(Extending(), cap, InitialMerge(), p);
    RunOne(Extending(), cap, InitialMerge(), q);
    assert [p] + [q] == [p, q] && [a] + [b] == [a, b];
    MergeRunAppend(Extending(), cap, InitialMerge(), [p], [q]);
  }

  lemma OfTwo<X>(first: seq<Message<X>>, second: seq<Message<X>>)
    ensures Delivered([Ok(first), Ok(second)]) == first + second
    ensures HandledOf([Ok(first), Ok(second)]) == Handled(first) + Handled(second)
  {
    var both: seq<Result<seq<Message<X>>, ReceiveError>> := [Ok(first), Ok(second)];
    assert both[1..] == [Ok(second)] && both[1..][1..] == [];
    assert Delivered(both[1..]) == second + [] && HandledOf(both[1..]) == Handled(second) + [];
  }

  /**
   * Two packets that arrive at a new stream in order, or the second first, deliver the same two messages;
   * if the first has content, both are handled only in the first case.
   */
  lemma HandlingDependsOnOrder<X>(cap: nat, a: Message<X>, b: Message<X>)
    requires 2 <= cap && a.content.Some?
    ensures var inOrder := Outcomes(Extending(), NewEndpoint(cap), [OwnPacket(a, 1), OwnPacket(b, 2)]);
            var reversed := Outcomes(Extending(), NewEndpoint(cap), [OwnPacket(b, 2), OwnPacket(a, 1)]);
            && Delivered(inOrder) == [a, b] == Delivered(reversed)
            && HandledOf(inOrder) == [a, b]
            && HandledOf(reversed) == [a]
  {
    var p, q := OwnPacket(a, 1), OwnPacket(b, 2);
    TwoOrders(Extending(), cap, p, q);
    OwnPacketsMerge(cap, a, b);
    OfTwo([a], [b]);
    OfTwo([], [a, b]);
    assert [a, b][1..] == [b];
  }
}
