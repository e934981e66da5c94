/**
 * Reassembly of fragments (merge_packets of mrp/src/stream.rs over the buffer of
 * mrp/src/merge_buffer.rs) as a fold over released packets.  `ext` is the payload's
 * Extend implementation: `ext(first, rest)` is `first` after `first.extend(rest)`.
 */
module Merging {
  import opened Common
  import opened Packets

  datatype Fragments<R> = Fragments(data: seq<R>, contentLength: nat)

  /** `end` is the sequence number at which the latest group ends; it is never cleared. */
  datatype MergeState<R> = MergeState(buffer: Option<Fragments<R>>, end: Option<nat>)

  function InitialMerge<R>(): MergeState<R> {
    MergeState(None, None)
  }

  type Outcome<R> = (MergeState<R>, Result<seq<R>, ReceiveError>)

  /** One iteration of the merge loop. */
  function MergeStep<R>(ext: (R, seq<R>) -> R, cap: nat, st: MergeState<R>, p: Packet<R>): Outcome<R> {
    match p.header.seqnum
    case None => (st, Ok([]))
    case Some(s) =>
      if st.buffer.None? && st.end.Some? && s <= st.end.value then
        (st, Ok([]))  // the rest of an abandoned group
      else
        match st.buffer
        case Some(b) => AppendFragment(ext, st, b, p)
        case None => StartGroup(cap, st, s, p)
  }

  function AppendFragment<R>(ext: (R, seq<R>) -> R, st: MergeState<R>, b: Fragments<R>, p: Packet<R>): Outcome<R> {
    if p.header.numPackets.Some? && p.header.numPackets.value != 0 then
      (st.(buffer := None), Err(PacketMergeConflict))
    else if |b.data| == b.contentLength then
      (st.(buffer := None), Err(InvalidMergeState))
    else
      var data := b.data + [p.data];
      if |data| == b.contentLength then
        (st.(buffer := None), Ok([ext(data[0], data[1..])]))
      else
        (st.(buffer := Some(b.(data := data))), Ok([]))
  }

  function StartGroup<R>(cap: nat, st: MergeState<R>, s: nat, p: Packet<R>): Outcome<R> {
    match p.header.numPackets
    case None => (st, Ok([p.data]))
    case Some(n) =>
      if n <= 1 then (st, Ok([p.data]))
      else if n > cap then (st, Err(InvalidNumPackets(n)))
      else (MergeState(Some(Fragments([p.data], n)), Some(s + n - 1)), Ok([]))
  }

  function Prepend<R>(out: seq<R>, rest: Outcome<R>): Outcome<R> {
    match rest.1
    case Ok(more) => (rest.0, Ok(out + more))
    case Err(e) => rest
  }

  lemma PrependNothing<R>(o: Outcome<R>)
    ensures Prepend([], o) == o
  {
    if o.1.Ok? { assert [] + o.1.value == o.1.value; }
  }

  /** The whole loop; an error discards what was accumulated and the rest of the packets. */
  function MergeRun<R>(ext: (R, seq<R>) -> R, cap: nat, st: MergeState<R>, packets: seq<Packet<R>>): Outcome<R>
    decreases |packets|
  {
    if packets == [] then (st, Ok([]))
    else
      var (st', r) := MergeStep(ext, cap, st, packets[0]);
      match r
      case Err(e) => (st', Err(e))
      case Ok(out) => Prepend(out, MergeRun(ext, cap, st', packets[1..]))
  }

  /** Batching is invisible: merging a concatenation is merging the parts in turn. */
  lemma {:induction false} MergeRunAppend<R>(ext: (R, seq<R>) -> R, cap: nat, st: MergeState<R>,
                                             a: seq<Packet<R>>, b: seq<Packet<R>>)
    ensures var (mid, r) := MergeRun(ext, cap, st, a);
            MergeRun(ext, cap, st, a + b) ==
            if r.Err? then (mid, r) else Prepend(r.value, MergeRun(ext, cap, mid, b))
    decreases |a|
  {
    if a == [] {
      assert a + b == b;
      PrependNothing(MergeRun(ext, cap, st, b));
    } else {
      var (st', r) := MergeStep(ext, cap, st, a[0]);
      assert (a + b)[1..] == a[1..] + b;
      if r.Ok? {
        MergeRunAppend(ext, cap, st', a[1..], b);
        var (mid, q) := MergeRun(ext, cap, st', a[1..]);
        if q.Ok? {
          var rest := MergeRun(ext, cap, mid, b);
          if rest.1.Ok? { assert r.value + (q.value + rest.1.value) == (r.value + q.value) + rest.1.value; }
        }
      }
    }
  }

  /**
   * What holds between calls whatever headers arrive: an open group is short of its
   * length, within the receive capacity, and ends where the remaining fragments will.
   */
  ghost predicate MergeInv<R>(st: MergeState<R>, ack: nat, cap: nat) {
    st.buffer.Some? ==>
      var b := st.buffer.value;
      && 1 <= |b.data| < b.contentLength <= cap
      && st.end == Some(ack + (b.contentLength - |b.data|) - 1)
  }

  lemma MergeStepKeepsInv<R>(ext: (R, seq<R>) -> R, cap: nat, st: MergeState<R>, p: Packet<R>, s: nat)
    requires MergeInv(st, s, cap) && p.header.seqnum == Some(s)
    ensures var (st', r) := MergeStep(ext, cap, st, p);
            && MergeInv(st', s + 1, cap)
            && (r.Err? ==> st'.buffer.None? && r.error != InvalidMergeState)
  {
  }

  /** For arbitrary headers: the invariant survives every batch, and InvalidMergeState is never returned. */
  lemma {:induction false} MergeRunKeepsInv<R>(ext: (R, seq<R>) -> R, cap: nat, st: MergeState<R>,
                                               packets: seq<Packet<R>>, first: nat)
    requires MergeInv(st, first, cap) && Consecutive(packets, first)
    ensures var (st', r) := MergeRun(ext, cap, st, packets);
            && MergeInv(st', first + |packets|, cap)
            && (r.Err? ==> st'.buffer.None? && r.error != InvalidMergeState)
    decreases |packets|
  {
    if packets != [] {
      MergeStepKeepsInv(ext, cap, st, packets[0], first);
      var (st', r) := MergeStep(ext, cap, st, packets[0]);
      if r.Ok? { MergeRunKeepsInv(ext, cap, st', packets[1..], first + 1); }
    }
  }

  /** The end of the group that was opened from one state to the next, if one was. */
  function Opened<R>(st: MergeState<R>, st': MergeState<R>): seq<nat> {
    if st.buffer.None? && st'.buffer.Some? && st'.end.Some? then [st'.end.value] else []
  }

  /** The ends of the groups opened while merging `packets`, in the order of opening. */
  function GroupEnds<R>(ext: (R, seq<R>) -> R, cap: nat, st: MergeState<R>, packets: seq<Packet<R>>): seq<nat>
    decreases |packets|
  {
    if packets == [] then []
    else
      var (st', r) := MergeStep(ext, cap, st, packets[0]);
      Opened(st, st')
      + (if r.Ok? then GroupEnds(ext, cap, st', packets[1..]) else [])
  }

  function GroupEndsOfCalls<R>(ext: (R, seq<R>) -> R, cap: nat, st: MergeState<R>, batches: seq<seq<Packet<R>>>): seq<nat>
    decreases |batches|
  {
    if batches == [] then []
    else GroupEnds(ext, cap, st, batches[0]) + GroupEndsOfCalls(ext, cap, MergeRun(ext, cap, st, batches[0]).0, batches[1..])
  }

  /** Strictly increasing, and beyond `low` if there is one. */
  ghost predicate IncreasingFrom(low: Option<nat>, ends: seq<nat>) {
    && (low.Some? && ends != [] ==> low.value < ends[0])
    && forall i, j :: 0 <= i < j < |ends| ==> ends[i] < ends[j]
  }

  /** `high` is the last of `ends`, or still `low` if there is none. */
  ghost predicate ReachedBy(low: Option<nat>, ends: seq<nat>, high: Option<nat>) {
    high == if ends == [] then low else Some(ends[|ends| - 1])
  }

  lemma IncreasingAppend(low: Option<nat>, a: seq<nat>, mid: Option<nat>, b: seq<nat>, high: Option<nat>)
    requires IncreasingFrom(low, a) && ReachedBy(low, a, mid) && IncreasingFrom(mid, b) && ReachedBy(mid, b, high)
    ensures IncreasingFrom(low, a + b) && ReachedBy(low, a + b, high)
  {
    forall i, j | 0 <= i < j < |a + b| ensures (a + b)[i] < (a + b)[j] {
      if i < |a| <= j {
        assert a[i] <= a[|a| - 1] < b[0] <= b[j - |a|];
      }
    }
  }

  lemma {:induction false} GroupEndsIncrease<R>(ext: (R, seq<R>) -> R, cap: nat, st: MergeState<R>, packets: seq<Packet<R>>)
    ensures IncreasingFrom(st.end, GroupEnds(ext, cap, st, packets))
    ensures ReachedBy(st.end, GroupEnds(ext, cap, st, packets), MergeRun(ext, cap, st, packets).0.end)
    decreases |packets|
  {
    if packets != [] {
      var (st', r) := MergeStep(ext, cap, st, packets[0]);
      var rest := if r.Ok? then GroupEnds(ext, cap, st', packets[1..]) else [];
      OpenedIsBeyond(ext, cap, st, packets[0]);
      if r.Ok? { GroupEndsIncrease(ext, cap, st', packets[1..]); }
      IncreasingAppend(st.end, Opened(st, st'), st'.end, rest, MergeRun(ext, cap, st, packets).0.end);
    }
  }

  lemma OpenedIsBeyond<R>(ext: (R, seq<R>) -> R, cap: nat, st: MergeState<R>, p: Packet<R>)
    ensures var st' := MergeStep(ext, cap, st, p).0;
            IncreasingFrom(st.end, Opened(st, st')) && ReachedBy(st.end, Opened(st, st'), st'.end)
  {
  }

  /**
   * Over any sequence of calls, with arbitrary packets and through errors: every group opened ends
   * strictly beyond all groups opened before it, also those finished or abandoned in the same call.
   */
  lemma {:induction false} MergeEndsIncrease<R>(ext: (R, seq<R>) -> R, cap: nat, st: MergeState<R>, batches: seq<seq<Packet<R>>>)
    ensures IncreasingFrom(st.end, GroupEndsOfCalls(ext, cap, st, batches))
    decreases |batches|
  {
    if batches != [] {
      var mid := MergeRun(ext, cap, st, batches[0]).0;
      GroupEndsIncrease(ext, cap, st, batches[0]);
      MergeEndsIncrease(ext, cap, mid, batches[1..]);
      var a, b := GroupEnds(ext, cap, st, batches[0]), GroupEndsOfCalls(ext, cap, mid, batches[1..]);
      IncreasingAppend(st.end, a, mid.end, b, if b == [] then mid.end else Some(b[|b| - 1]));
    }
  }

  ghost predicate EndsWithin<R>(st: MergeState<R>, limit: nat) {
    st.end.Some? ==> st.end.value <= limit
  }

  /** No group is announced beyond `limit`. */
  ghost predicate AnnouncedWithin<D>(packets: seq<Packet<D>>, limit: nat) {
    forall i :: 0 <= i < |packets| ==> PacketWithin(packets[i], limit)
  }

  ghost predicate PacketWithin<D>(p: Packet<D>, limit: nat) {
    p.header.seqnum.Some? && p.header.numPackets.Some? && p.header.numPackets.value > 1 ==>
      p.header.seqnum.value + p.header.numPackets.value - 1 <= limit
  }

  lemma {:induction false} MergeStaysWithin<R>(ext: (R, seq<R>) -> R, cap: nat, st: MergeState<R>, packets: seq<Packet<R>>, limit: nat)
    requires EndsWithin(st, limit) && AnnouncedWithin(packets, limit)
    ensures EndsWithin(MergeRun(ext, cap, st, packets).0, limit)
    decreases |packets|
  {
    if packets != [] {
      assert PacketWithin(packets[0], limit);
      var (st', r) := MergeStep(ext, cap, st, packets[0]);
      if r.Ok? { MergeStaysWithin(ext, cap, st', packets[1..], limit); }
    }
  }

  /** The merger never complains of a full window. */
  lemma {:induction false} MergeErrorKind<R>(ext: (R, seq<R>) -> R, cap: nat, st: MergeState<R>, packets: seq<Packet<R>>)
    ensures var r := MergeRun(ext, cap, st, packets).1; r.Err? ==> !r.error.ReceiveWindowFull?
    decreases |packets|
  {
    if packets != [] {
      var (st', r) := MergeStep(ext, cap, st, packets[0]);
      if r.Ok? { MergeErrorKind(ext, cap, st', packets[1..]); }
    }
  }

  /** Two capacities that both accept the packets give the same result. */
  lemma {:induction false} SameAtBothCapacities<R>(ext: (R, seq<R>) -> R, cap: nat, other: nat, st: MergeState<R>, packets: seq<Packet<R>>)
    requires MergeRun(ext, cap, st, packets).1.Ok? && MergeRun(ext, other, st, packets).1.Ok?
    ensures MergeRun(ext, cap, st, packets) == MergeRun(ext, other, st, packets)
    decreases |packets|
  {
    if packets != [] {
      assert MergeStep(ext, cap, st, packets[0]) == MergeStep(ext, other, st, packets[0]);
      SameAtBothCapacities(ext, cap, other, MergeStep(ext, cap, st, packets[0]).0, packets[1..]);
    }
  }

  /** The packet announces a group that a receiver of this capacity refuses. */
  ghost predicate Oversized<R>(p: Packet<R>, cap: nat) {
    p.header.numPackets.Some? && p.header.numPackets.value > 1 && p.header.numPackets.value > cap
  }

  ghost predicate NoneOversized<R>(packets: seq<Packet<R>>, cap: nat) {
    forall i :: 0 <= i < |packets| ==> !Oversized(packets[i], cap)
  }

  /** Between groups, nothing is being dropped. */
  ghost predicate NotDropping<R>(st: MergeState<R>, s: nat) {
    st.buffer.None? ==> st.end.None? || st.end.value < s
  }

  /** One packet that a large receiver takes: a smaller one does the same, unless the packet is oversized for it. */
  lemma CapacityDecidesStep<R>(ext: (R, seq<R>) -> R, cap: nat, large: nat, st: MergeState<R>, p: Packet<R>, s: nat)
    requires p.header.seqnum == Some(s) && MergeInv(st, s, large) && NotDropping(st, s)
    requires MergeStep(ext, large, st, p).1.Ok?
    ensures MergeInv(MergeStep(ext, large, st, p).0, s + 1, large) && NotDropping(MergeStep(ext, large, st, p).0, s + 1)
    ensures if Oversized(p, cap) then MergeStep(ext, cap, st, p).1.Err?
            else MergeStep(ext, cap, st, p) == MergeStep(ext, large, st, p)
  {
  }

  /** Packets that a large receiver merges are merged by another one if and only if none is oversized for it. */
  lemma {:induction false} CapacityDecides<R>(ext: (R, seq<R>) -> R, cap: nat, large: nat, st: MergeState<R>,
                                              packets: seq<Packet<R>>, s: nat)
    requires Consecutive(packets, s) && MergeInv(st, s, large) && NotDropping(st, s)
    requires MergeRun(ext, large, st, packets).1.Ok?
    ensures MergeRun(ext, cap, st, packets).1.Ok? <==> NoneOversized(packets, cap)
    decreases |packets|
  {
    if packets != [] {
      var p, rest := packets[0], packets[1..];
      CapacityDecidesStep(ext, cap, large, st, p, s);
      CapacityDecides(ext, cap, large, MergeStep(ext, large, st, p).0, rest, s + 1);
      assert packets == [p] + rest;
      assert NoneOversized(packets, cap) <==> !Oversized(p, cap) && NoneOversized(rest, cap) by {
        forall i | 0 <= i < |rest| ensures rest[i] == packets[i + 1] {}
      }
    }
  }

  /** Results of successive calls, one per batch of released packets. */
  function MergeCalls<R>(ext: (R, seq<R>) -> R, cap: nat, st: MergeState<R>, batches: seq<seq<Packet<R>>>)
    : seq<Result<seq<R>, ReceiveError>>
    decreases |batches|
  {
    if batches == [] then []
    else
      var (st', r) := MergeRun(ext, cap, st, batches[0]);
      [r] + MergeCalls(ext, cap, st', batches[1..])
  }

  /** The batches without the packets up to sequence number `e`. */
  function Beyond<D>(packets: seq<Packet<D>>, e: nat): (r: seq<Packet<D>>)
    ensures forall p :: p in r ==> p.header.seqnum.Some? ==> p.header.seqnum.value > e
  {
    if packets == [] then []
    else
      var p := packets[0];
      (if p.header.seqnum.Some? && p.header.seqnum.value <= e then [] else [p]) + Beyond(packets[1..], e)
  }

  function AllBeyond<D>(batches: seq<seq<Packet<D>>>, e: nat): seq<seq<Packet<D>>> {
    seq(|batches|, i requires 0 <= i < |batches| => Beyond(batches[i], e))
  }

  ghost predicate ConsecutiveBatches<D>(batches: seq<seq<Packet<D>>>, first: nat) {
    batches == [] || (Consecutive(batches[0], first) && ConsecutiveBatches(batches[1..], first + |batches[0]|))
  }

  /**
   * Behaviour from sequence number `s` on, once packets up to `e` are ignored, is the same in
   * both states: they are equal and past `e`, or neither holds a group and `w` is past its last one.
   */
  ghost predicate SameFrom<R>(v: MergeState<R>, w: MergeState<R>, s: nat, e: nat) {
    || (v == w && e < s)
    || (&& v.buffer.None? && w.buffer.None?
        && (v.end.None? || v.end.value < s || v.end.value <= e)
        && (s <= e ==> v.end == Some(e))
        && (w.end.None? || w.end.value <= e || w.end.value < s))
  }

  /** A packet up to `e` is dropped. */
  lemma SameSkips<R>(ext: (R, seq<R>) -> R, cap: nat, v: MergeState<R>, w: MergeState<R>, p: Packet<R>, s: nat, e: nat)
    requires p.header.seqnum == Some(s) && s <= e && SameFrom(v, w, s, e)
    ensures MergeStep(ext, cap, v, p) == (v, Ok([])) && SameFrom(v, w, s + 1, e)
  {
  }

  /** A packet beyond `e` has the same effect in both states, and an error leaves them alike from any later `t` on. */
  lemma SameTakes<R>(ext: (R, seq<R>) -> R, cap: nat, v: MergeState<R>, w: MergeState<R>, p: Packet<R>, s: nat, t: nat, e: nat)
    requires p.header.seqnum == Some(s) && e < s < t && SameFrom(v, w, s, e)
    ensures var (v', q) := MergeStep(ext, cap, v, p);
            var (w', r) := MergeStep(ext, cap, w, p);
            q == r && SameFrom(v', w', if q.Ok? then s + 1 else t, e)
  {
  }

  lemma {:induction false} SameRun<R>(ext: (R, seq<R>) -> R, cap: nat, v: MergeState<R>, w: MergeState<R>,
                                      packets: seq<Packet<R>>, s: nat, e: nat)
    requires Consecutive(packets, s) && SameFrom(v, w, s, e)
    ensures var (v', q) := MergeRun(ext, cap, v, packets);
            var (w', r) := MergeRun(ext, cap, w, Beyond(packets, e));
            q == r && SameFrom(v', w', s + |packets|, e)
    decreases |packets|
  {
    if packets != [] {
      var p := packets[0];
      assert p.header.seqnum == Some(s);
      if s <= e {
        SameSkips(ext, cap, v, w, p, s, e);
        assert Beyond(packets, e) == Beyond(packets[1..], e);
        SameRun(ext, cap, v, w, packets[1..], s + 1, e);
        PrependNothing(MergeRun(ext, cap, v, packets[1..]));
      } else {
        SameTakes(ext, cap, v, w, p, s, s + |packets|, e);
        assert Beyond(packets, e) == [p] + Beyond(packets[1..], e);
        var (v', q) := MergeStep(ext, cap, v, p);
        if q.Ok? { SameRun(ext, cap, v', MergeStep(ext, cap, w, p).0, packets[1..], s + 1, e); }
      }
    }
  }

  lemma {:induction false} SameCalls<R>(ext: (R, seq<R>) -> R, cap: nat, v: MergeState<R>, w: MergeState<R>,
                                        batches: seq<seq<Packet<R>>>, s: nat, e: nat)
    requires ConsecutiveBatches(batches, s) && SameFrom(v, w, s, e)
    ensures MergeCalls(ext, cap, v, batches) == MergeCalls(ext, cap, w, AllBeyond(batches, e))
    decreases |batches|
  {
    if batches != [] {
      SameRun(ext, cap, v, w, batches[0], s, e);
      assert AllBeyond(batches, e)[1..] == AllBeyond(batches[1..], e);
      var v' := MergeRun(ext, cap, v, batches[0]).0;
      var w' := MergeRun(ext, cap, w, Beyond(batches[0], e)).0;
      SameCalls(ext, cap, v', w', batches[1..], s + |batches[0]|, e);
    }
  }

  /**
   * Life after a conflict: the abandoned group ends at `e`, and every later call returns what a
   * fresh merger that never sees a packet up to `e` would return.
   */
  lemma AfterConflict<R>(ext: (R, seq<R>) -> R, cap: nat, st: MergeState<R>, batch: seq<Packet<R>>,
                         later: seq<seq<Packet<R>>>, first: nat)
    requires MergeInv(st, first, cap) && Consecutive(batch, first)
    requires MergeRun(ext, cap, st, batch).1 == Err(PacketMergeConflict)
    requires ConsecutiveBatches(later, first + |batch|)
    ensures var st' := MergeRun(ext, cap, st, batch).0;
            && st'.end.Some?
            && first <= st'.end.value
            && MergeCalls(ext, cap, st', later) == MergeCalls(ext, cap, InitialMerge(), AllBeyond(later, st'.end.value))
  {
    MergeRunKeepsInv(ext, cap, st, batch, first);
    ConflictHasEnd(ext, cap, st, batch, first);
    var st' := MergeRun(ext, cap, st, batch).0;
    SameCalls(ext, cap, st', InitialMerge(), later, first + |batch|, st'.end.value);
  }

  lemma {:induction false} ConflictHasEnd<R>(ext: (R, seq<R>) -> R, cap: nat, st: MergeState<R>,
                                             batch: seq<Packet<R>>, first: nat)
    requires MergeInv(st, first, cap) && Consecutive(batch, first)
    requires MergeRun(ext, cap, st, batch).1 == Err(PacketMergeConflict)
    ensures var end := MergeRun(ext, cap, st, batch).0.end;
            end.Some? && first <= end.value
    decreases |batch|
  {
    if batch != [] {
      MergeStepKeepsInv(ext, cap, st, batch[0], first);
      var (st', r) := MergeStep(ext, cap, st, batch[0]);
      if r.Ok? { ConflictHasEnd(ext, cap, st', batch[1..], first + 1); }
    }
  }

  /** InvalidNumPackets opens no drop region: later calls behave as those of a fresh merger. */
  lemma AfterInvalidNumPackets<R>(ext: (R, seq<R>) -> R, cap: nat, st: MergeState<R>, batch: seq<Packet<R>>,
                                  later: seq<seq<Packet<R>>>, first: nat, num: nat)
    requires 1 <= first && Consecutive(batch, first)
    requires MergeRun(ext, cap, st, batch).1 == Err(InvalidNumPackets(num))
    requires ConsecutiveBatches(later, first + |batch|)
    ensures MergeCalls(ext, cap, MergeRun(ext, cap, st, batch).0, later) == MergeCalls(ext, cap, InitialMerge(), later)
  {
    InvalidNumPacketsIsIdle(ext, cap, st, batch, first, num);
    SameCalls(ext, cap, MergeRun(ext, cap, st, batch).0, InitialMerge(), later, first + |batch|, 0);
    NothingBelowOne(later, first + |batch|);
  }

  lemma {:induction false} InvalidNumPacketsIsIdle<R>(ext: (R, seq<R>) -> R, cap: nat, st: MergeState<R>,
                                                      batch: seq<Packet<R>>, first: nat, num: nat)
    requires Consecutive(batch, first)
    requires MergeRun(ext, cap, st, batch).1 == Err(InvalidNumPackets(num))
    ensures var st' := MergeRun(ext, cap, st, batch).0;
            st'.buffer.None? && (st'.end.None? || st'.end.value < first + |batch|)
    decreases |batch|
  {
    if batch != [] {
      var (st', r) := MergeStep(ext, cap, st, batch[0]);
      if r.Ok? { InvalidNumPacketsIsIdle(ext, cap, st', batch[1..], first + 1, num); }
    }
  }

  lemma {:induction false} NothingBelowOne<D>(batches: seq<seq<Packet<D>>>, first: nat)
    requires 1 <= first && ConsecutiveBatches(batches, first)
    ensures AllBeyond(batches, 0) == batches
    decreases |batches|
  {
    if batches != [] {
      BeyondNothing(batches[0], first);
      NothingBelowOne(batches[1..], first + |batches[0]|);
      assert AllBeyond(batches, 0)[1..] == AllBeyond(batches[1..], 0);
      assert batches == [batches[0]] + batches[1..];
      assert AllBeyond(batches, 0) == [batches[0]] + AllBeyond(batches, 0)[1..];
    }
  }

  lemma {:induction false} BeyondNothing<D>(packets: seq<Packet<D>>, first: nat)
    requires 1 <= first && Consecutive(packets, first)
    ensures Beyond(packets, 0) == packets
    decreases |packets|
  {
    if packets != [] {
      assert packets[0].header.seqnum == Some(first);
      BeyondNothing(packets[1..], first + 1);
    }
  }

  // --- When a call fails, from the headers alone -----------------------------------------------------

  /** The last number that a recorded group covers. */
  function CoveredBy<R>(st: MergeState<R>): nat {
    if st.end.Some? then st.end.value else 0
  }

  /** The packet starts a group: it lies beyond all groups so far and announces an acceptable count above one. */
  predicate StartsGroup<R>(cap: nat, covered: nat, p: Packet<R>) {
    && p.header.seqnum.Some? && covered < p.header.seqnum.value
    && p.header.numPackets.Some? && 1 < p.header.numPackets.value <= cap
  }

  /** The last number covered by a group once the first `i` packets have been seen. */
  function Covered<R>(cap: nat, covered: nat, packets: seq<Packet<R>>, i: nat): nat
    requires i <= |packets|
  {
    if i == 0 then covered
    else
      var before, p := Covered(cap, covered, packets, i - 1), packets[i - 1];
      if StartsGroup(cap, before, p) then p.header.seqnum.value + p.header.numPackets.value - 1 else before
  }

  /** The i-th packet announces a nonzero count inside a group, which is not the rest of an abandoned one. */
  ghost predicate ConflictAt<R>(cap: nat, st: MergeState<R>, packets: seq<Packet<R>>, i: nat)
    requires i < |packets|
  {
    var h := packets[i].header;
    && h.seqnum.Some? && h.seqnum.value <= Covered(cap, CoveredBy(st), packets, i)
    && (st.buffer.Some? || CoveredBy(st) < h.seqnum.value)
    && h.numPackets.Some? && h.numPackets.value != 0
  }

  /** The i-th packet announces an oversized group beyond all groups so far. */
  ghost predicate OversizedAt<R>(cap: nat, st: MergeState<R>, packets: seq<Packet<R>>, i: nat)
    requires i < |packets|
  {
    var h := packets[i].header;
    h.seqnum.Some? && Covered(cap, CoveredBy(st), packets, i) < h.seqnum.value && Oversized(packets[i], cap)
  }

  ghost predicate FailsAt<R>(cap: nat, st: MergeState<R>, packets: seq<Packet<R>>, i: nat)
    requires i < |packets|
  {
    ConflictAt(cap, st, packets, i) || OversizedAt(cap, st, packets, i)
  }

  ghost predicate FirstFailure<R>(cap: nat, st: MergeState<R>, packets: seq<Packet<R>>, i: nat) {
    i < |packets| && FailsAt(cap, st, packets, i) && forall j :: 0 <= j < i ==> !FailsAt(cap, st, packets, j)
  }

  /** A packet of an open group is a conflict if and only if it announces a nonzero count. */
  lemma ConflictStepIff<R>(ext: (R, seq<R>) -> R, cap: nat, st: MergeState<R>, p: Packet<R>, s: nat)
    requires MergeInv(st, s, cap) && st.buffer.Some? && p.header.seqnum == Some(s)
    ensures MergeStep(ext, cap, st, p).1 == Err(PacketMergeConflict) <==> p.header.numPackets.Some? && p.header.numPackets.value != 0
    ensures MergeStep(ext, cap, st, p).1.Err? ==> MergeStep(ext, cap, st, p).1 == Err(PacketMergeConflict)
  {
  }

  /** The first packet of a batch: it fails as the headers say, and otherwise covers what they say. */
  lemma FirstPacket<R>(ext: (R, seq<R>) -> R, cap: nat, st: MergeState<R>, packets: seq<Packet<R>>, s: nat)
    requires packets != [] && packets[0].header.seqnum == Some(s) && 1 <= s && MergeInv(st, s, cap)
    ensures var (st', r) := MergeStep(ext, cap, st, packets[0]);
            && (r == Err(PacketMergeConflict) <==> ConflictAt(cap, st, packets, 0))
            && (r.Err? && r != Err(PacketMergeConflict) <==> OversizedAt(cap, st, packets, 0))
            && (r.Err? && r != Err(PacketMergeConflict) ==> r == Err(InvalidNumPackets(packets[0].header.numPackets.value)))
            && (r.Ok? ==> CoveredBy(st') == Covered(cap, CoveredBy(st), packets, 1))
  {
    assert Covered(cap, CoveredBy(st), packets, 0) == CoveredBy(st);
  }

  lemma {:induction false} CoveredShifts<R>(cap: nat, covered: nat, packets: seq<Packet<R>>, i: nat)
    requires 1 <= i <= |packets|
    ensures Covered(cap, covered, packets, i) == Covered(cap, Covered(cap, covered, packets, 1), packets[1..], i - 1)
    decreases i
  {
    if i > 1 { CoveredShifts(cap, covered, packets, i - 1); }
  }

  /** Later packets fail after a first one that did not exactly if they fail in the state it left. */
  lemma FailsLater<R>(ext: (R, seq<R>) -> R, cap: nat, st: MergeState<R>, packets: seq<Packet<R>>, s: nat, i: nat)
    requires Consecutive(packets, s) && 1 <= s && MergeInv(st, s, cap) && 1 <= i < |packets|
    requires MergeStep(ext, cap, st, packets[0]).1.Ok?
    ensures var st' := MergeStep(ext, cap, st, packets[0]).0;
            && (ConflictAt(cap, st, packets, i) <==> ConflictAt(cap, st', packets[1..], i - 1))
            && (OversizedAt(cap, st, packets, i) <==> OversizedAt(cap, st', packets[1..], i - 1))
  {
    var st' := MergeStep(ext, cap, st, packets[0]).0;
    assert packets[0].header.seqnum == Some(s + 0) && packets[i].header.seqnum == Some(s + i);
    FirstPacket(ext, cap, st, packets, s);
    CoveredShifts(cap, CoveredBy(st), packets, i);
    SameRegion(ext, cap, st, packets[0], s, s + i);
  }

  lemma SameRegion<R>(ext: (R, seq<R>) -> R, cap: nat, st: MergeState<R>, p: Packet<R>, s: nat, t: nat)
    requires p.header.seqnum == Some(s) && 1 <= s < t && MergeInv(st, s, cap) && MergeStep(ext, cap, st, p).1.Ok?
    ensures var st' := MergeStep(ext, cap, st, p).0;
            (st.buffer.Some? || CoveredBy(st) < t) <==> (st'.buffer.Some? || CoveredBy(st') < t)
  {
  }

  /**
   * A call fails at the first packet that the headers say fails, and with the error they say; arbitrary
   * headers, from any state between calls.
   */
  lemma {:induction false} MergeErrorsIff<R>(ext: (R, seq<R>) -> R, cap: nat, st: MergeState<R>, packets: seq<Packet<R>>, s: nat)
    returns (at: nat)
    requires Consecutive(packets, s) && 1 <= s && MergeInv(st, s, cap)
    ensures var r := MergeRun(ext, cap, st, packets).1;
            && (r.Ok? <==> forall i :: 0 <= i < |packets| ==> !FailsAt(cap, st, packets, i))
            && (r.Err? ==> && FirstFailure(cap, st, packets, at)
                           && r == Err(if ConflictAt(cap, st, packets, at) then PacketMergeConflict
                                       else InvalidNumPackets(packets[at].header.numPackets.value)))
    decreases |packets|
  {
    at := 0;
    if packets != [] {
      assert packets[0].header.seqnum == Some(s + 0);
      FirstPacket(ext, cap, st, packets, s);
      var (st', r) := MergeStep(ext, cap, st, packets[0]);
      if r.Ok? {
        MergeStepKeepsInv(ext, cap, st, packets[0], s);
        var later := MergeErrorsIff(ext, cap, st', packets[1..], s + 1);
        at := later + 1;
        FailsFromSecond(ext, cap, st, packets, s);
        if MergeRun(ext, cap, st', packets[1..]).1.Err? { assert FailsAt(cap, st, packets, at); }
      } else {
        assert FailsAt(cap, st, packets, 0);
      }
    }
  }

  lemma FailsFromSecond<R>(ext: (R, seq<R>) -> R, cap: nat, st: MergeState<R>, packets: seq<Packet<R>>, s: nat)
    requires Consecutive(packets, s) && 1 <= s && MergeInv(st, s, cap) && packets != []
    requires MergeStep(ext, cap, st, packets[0]).1.Ok?
    ensures var st' := MergeStep(ext, cap, st, packets[0]).0;
            && !FailsAt(cap, st, packets, 0)
            && (forall i :: 1 <= i < |packets| ==> (FailsAt(cap, st, packets, i) <==> FailsAt(cap, st', packets[1..], i - 1)))
            && (forall i :: 1 <= i < |packets| ==> (ConflictAt(cap, st, packets, i) <==> ConflictAt(cap, st', packets[1..], i - 1)))
  {
    assert packets[0].header.seqnum == Some(s + 0);
    FirstPacket(ext, cap, st, packets, s);
    forall i | 1 <= i < |packets|
      ensures FailsAt(cap, st, packets, i) <==> FailsAt(cap, MergeStep(ext, cap, st, packets[0]).0, packets[1..], i - 1)
      ensures ConflictAt(cap, st, packets, i) <==> ConflictAt(cap, MergeStep(ext, cap, st, packets[0]).0, packets[1..], i - 1)
    {
      FailsLater(ext, cap, st, packets, s, i);
    }
  }

  /** A packet without a number is ignored wherever it stands. */
  lemma UnnumberedIgnored<R>(ext: (R, seq<R>) -> R, cap: nat, st: MergeState<R>, a: seq<Packet<R>>, p: Packet<R>, b: seq<Packet<R>>)
    requires p.header.seqnum.None?
    ensures MergeRun(ext, cap, st, a + [p] + b) == MergeRun(ext, cap, st, a + b)
  {
    assert a + [p] + b == a + ([p] + b) && ([p] + b)[1..] == b;
    MergeRunAppend(ext, cap, st, a, [p] + b);
    MergeRunAppend(ext, cap, st, a, b);
    PrependNothing(MergeRun(ext, cap, MergeRun(ext, cap, st, a).0, b));
  }
}
