/** The two polled operations of mrp/src/stream.rs: what one poll sends, and what it leaves for the next. */
module Polling {
  import opened Common
  import opened Packets
  import opened Windows
  import opened Endpoints

  /** The packets whose timers have expired, in sequence order. */
  function Due<S>(slots: seq<Option<Pending<S>>>, now: nat): seq<S> {
    if slots == [] then []
    else if slots[0].None? || now < slots[0].value.nextSendAt then Due(slots[1..], now)
    else [slots[0].value.packet] + Due(slots[1..], now)
  }

  /** A resend sends the due packets in order, up to and excluding the first that its callback fails on. */
  lemma {:induction false} ResendSendsDue<S>(w: Window<Pending<S>>, i: nat, k: nat, now: nat, sendData: (nat, S) -> Option<nat>)
    requires i <= |w.data|
    ensures var r := ResendFrom(w, i, k, now, sendData);
            var due := Due(w.data[i..], now);
            && r.transmitted <= due
            && (forall t :: 0 <= t < |r.transmitted| ==> sendData(k + t, due[t]).Some?)
            && (r.result == Ok(()) <==> r.transmitted == due)
            && (r.result == Err(InnerSendFailed) <==> r.transmitted != due)
            && (r.transmitted != due ==> sendData(k + |r.transmitted|, due[|r.transmitted|]).None?)
    decreases |w.data| - i
  {
    if i < |w.data| {
      assert w.data[i..][1..] == w.data[i + 1..];
      if w.data[i].None? || now < w.data[i].value.nextSendAt {
        ResendSendsDue(w, i + 1, k, now, sendData);
      } else if sendData(k, w.data[i].value.packet).Some? {
        var p := w.data[i].value;
        var w' := w.(data := w.data[i := Some(Pending(p.packet, sendData(k, p.packet).value, p.tryCount + 1))]);
        assert w'.data[i + 1..] == w.data[i + 1..];
        ResendSendsDue(w', i + 1, k + 1, now, sendData);
        SentOneMore(p.packet, ResendFrom(w', i + 1, k + 1, now, sendData).transmitted, Due(w.data[i + 1..], now), k, sendData);
      }
    }
  }

  lemma SentOneMore<S>(p: S, sent: seq<S>, due: seq<S>, k: nat, sendData: (nat, S) -> Option<nat>)
    requires sent <= due && sendData(k, p).Some? && forall t :: 0 <= t < |sent| ==> sendData(k + 1 + t, due[t]).Some?
    ensures [p] + sent <= [p] + due && ([p] + sent == [p] + due <==> sent == due)
    ensures forall t :: 0 <= t < |[p] + sent| ==> sendData(k + t, ([p] + due)[t]).Some?
  {
    assert [p] + sent == [p] + due ==> ([p] + sent)[1..] == ([p] + due)[1..];
    forall t | 0 <= t < |[p] + sent| ensures sendData(k + t, ([p] + due)[t]).Some? {
      if t > 0 { assert sendData(k + 1 + (t - 1), due[t - 1]).Some?; }
    }
  }

  ghost predicate IsDue<S>(slot: Option<Pending<S>>, now: nat) {
    slot.Some? && slot.value.nextSendAt <= now
  }

  /** How many slots are due from `i` up to and excluding `j`. */
  ghost function DueBefore<S>(slots: seq<Option<Pending<S>>>, i: nat, j: nat, now: nat): nat
    requires i <= j <= |slots|
    decreases j - i
  {
    if i == j then 0 else (if IsDue(slots[i], now) then 1 else 0) + DueBefore(slots, i + 1, j, now)
  }

  /** What a resend leaves in a slot: one that was sent again has the answer to it as its timer, any other is untouched. */
  ghost function SlotAfter<S>(slot: Option<Pending<S>>, sentAs: Option<nat>, sendData: (nat, S) -> Option<nat>): Option<Pending<S>> {
    if sentAs.Some? && slot.Some? && sendData(sentAs.value, slot.value.packet).Some? then
      Some(Pending(slot.value.packet, sendData(sentAs.value, slot.value.packet).value, slot.value.tryCount + 1))
    else slot
  }

  /** Slot `j` was sent again exactly if it is due and fewer due slots precede it than packets were sent. */
  ghost function SentAs<S>(w: Window<Pending<S>>, i: nat, k: nat, j: nat, now: nat, sent: nat): Option<nat>
    requires i <= |w.data| && j < |w.data|
  {
    if i <= j && IsDue(w.data[j], now) && DueBefore(w.data, i, j, now) < sent then Some(k + DueBefore(w.data, i, j, now)) else None
  }

  lemma {:induction false} DueBeforeSame<S>(a: seq<Option<Pending<S>>>, b: seq<Option<Pending<S>>>, i: nat, j: nat, now: nat)
    requires i <= j <= |a| == |b| && a[i..] == b[i..]
    ensures DueBefore(a, i, j, now) == DueBefore(b, i, j, now)
    decreases j - i
  {
    if i < j {
      assert a[i] == a[i..][0] && b[i] == b[i..][0];
      assert a[i + 1..] == a[i..][1..] && b[i + 1..] == b[i..][1..];
      DueBeforeSame(a, b, i + 1, j, now);
    }
  }

  /** For any answers, failures included: every slot's packet, timer and count after a resend. */
  lemma {:induction false} ResendSlots<S>(w: Window<Pending<S>>, i: nat, k: nat, now: nat, sendData: (nat, S) -> Option<nat>, j: nat)
    requires i <= |w.data| && j < |w.data|
    ensures var r := ResendFrom(w, i, k, now, sendData);
            && r.window.left == w.left && r.window.cap == w.cap && |r.window.data| == |w.data|
            && r.window.data[j] == SlotAfter(w.data[j], SentAs(w, i, k, j, now, |r.transmitted|), sendData)
            && (SentAs(w, i, k, j, now, |r.transmitted|).Some? ==> r.window.data[j] != w.data[j])
    decreases |w.data| - i
  {
    if i < |w.data| {
      if !IsDue(w.data[i], now) {
        ResendSlots(w, i + 1, k, now, sendData, j);
      } else if sendData(k, w.data[i].value.packet).Some? {
        var p := w.data[i].value;
        var w' := w.(data := w.data[i := Some(Pending(p.packet, sendData(k, p.packet).value, p.tryCount + 1))]);
        ResendSlots(w', i + 1, k + 1, now, sendData, j);
        if i < j {
          assert w'.data[i + 1..] == w.data[i + 1..];
          DueBeforeSame(w'.data, w.data, i + 1, j, now);
        }
      }
    }
  }

  /** A packet whose callback failed is due again at every later poll. */
  lemma FailedStaysDue<S, R>(e: Endpoint<S, R>, now: nat, sendData: (nat, S) -> Option<nat>, j: nat)
    requires j < |e.send.data| && IsDue(e.send.data[j], now)
    requires DueBefore(e.send.data, 0, j, now) == |TryResend(e, now, sendData).1|
    ensures |TryResend(e, now, sendData).0.send.data| == |e.send.data|
    ensures TryResend(e, now, sendData).0.send.data[j] == e.send.data[j]
    ensures forall later :: now <= later ==> IsDue(TryResend(e, now, sendData).0.send.data[j], later)
  {
    ResendSlots(e.send, 0, 0, now, sendData, j);
  }

  ghost predicate NothingDue<S>(slots: seq<Option<Pending<S>>>, now: nat) {
    forall i :: 0 <= i < |slots| ==> slots[i].Some? ==> now < slots[i].value.nextSendAt
  }

  /** With timeouts in the future, a resend leaves nothing due among the slots it visits, and the others alone. */
  lemma {:induction false} ResendSetsTimers<S>(w: Window<Pending<S>>, i: nat, k: nat, now: nat, answers: nat -> Option<nat>)
    requires i <= |w.data|
    requires forall t :: answers(t).Some? && now < answers(t).value
    ensures var r := ResendFrom(w, i, k, now, Answering(answers));
            && |r.window.data| == |w.data|
            && r.window.data[..i] == w.data[..i]
            && NothingDue(r.window.data[i..], now)
    decreases |w.data| - i
  {
    if i < |w.data| {
      var r := ResendFrom(w, i, k, now, Answering(answers));
      if w.data[i].None? || now < w.data[i].value.nextSendAt {
        ResendSetsTimers(w, i + 1, k, now, answers);
        SlotIsKept(w.data, r.window.data, i);
      } else {
        var p := w.data[i].value;
        var w' := w.(data := w.data[i := Some(Pending(p.packet, answers(k).value, p.tryCount + 1))]);
        ResendSetsTimers(w', i + 1, k + 1, now, answers);
        SlotIsKept(w'.data, r.window.data, i);
        assert w'.data[..i] == w.data[..i];
      }
      assert r.window.data[i..] == [r.window.data[i]] + r.window.data[i + 1..];
    }
  }

  lemma SlotIsKept<T>(a: seq<T>, b: seq<T>, i: nat)
    requires i < |a| == |b| && a[..i + 1] == b[..i + 1]
    ensures a[i] == b[i] && a[..i] == b[..i]
  {
    assert a[i] == a[..i + 1][i] && b[i] == b[..i + 1][i];
    assert a[..i] == a[..i + 1][..i] && b[..i] == b[..i + 1][..i];
  }

  lemma {:induction false} NothingDueSendsNothing<S>(w: Window<Pending<S>>, i: nat, k: nat, now: nat, sendData: (nat, S) -> Option<nat>)
    requires i <= |w.data| && NothingDue(w.data, now)
    ensures ResendFrom(w, i, k, now, sendData) == Resent(w, [], Ok(()))
    decreases |w.data| - i
  {
    if i < |w.data| { NothingDueSendsNothing(w, i + 1, k, now, sendData); }
  }

  /** Polling again at the same instant sends nothing and changes nothing, whatever the callback. */
  lemma ResendOncePerTimeout<S, R>(e: Endpoint<S, R>, now: nat, answers: nat -> Option<nat>, again: (nat, S) -> Option<nat>)
    requires forall t :: answers(t).Some? && now < answers(t).value
    ensures var e1 := TryResend(e, now, Answering(answers)).0;
            TryResend(e1, now, again) == (e1, [], Ok(()))
  {
    ResendSetsTimers(e.send, 0, 0, now, answers);
    var w := ResendFrom(e.send, 0, 0, now, Answering(answers)).window;
    assert w.data[0..] == w.data;
    NothingDueSendsNothing(w, 0, 0, now, again);
  }

  /** An acknowledgement goes out once per reason; a failed one stays pending with the current number. */
  lemma AckOncePerReason<S, R>(e: Endpoint<S, R>, sendAck: Header -> bool, again: Header -> bool)
    ensures var (e1, r) := TrySendAck(e, sendAck);
            && e1 == e.(shouldAck := e1.shouldAck)
            && (r == Ok(None) <==> !e.shouldAck)
            && (r == Ok(Some(e.AckSeqnum())) <==> e.shouldAck && sendAck(Header(None, Some(e.AckSeqnum()), None)))
            && (r == Err(InnerSendFailed) <==> e.shouldAck && !sendAck(Header(None, Some(e.AckSeqnum()), None)))
            && (r.Err? <==> e1.shouldAck)
            && (r.Ok? ==> TrySendAck(e1, again) == (e1, Ok(None)))
  {
  }

  /**
   * Why a send fails, and what a successful one does: a full window refuses it without asking the
   * callback; otherwise the callback decides at the next sequence number; success appends one packet, with
   * the callback's timeout and a count of one, and nothing else changes.
   */
  lemma SendOutcome<S, R>(e: Endpoint<S, R>, sendData: Header -> Option<(S, nat)>)
    requires e.Valid() && e.NextSeqnum() < U64_MAX
    ensures var (e1, r) := TrySend(e, sendData);
            var answer := sendData(Header(Some(e.send.left + |e.send.data|), None, None));
            && (r == Err(SendWindowFull) <==> |e.send.data| == e.send.cap)
            && (r == Err(InnerSendFailed) <==> |e.send.data| < e.send.cap && answer.None?)
            && (r == Ok(()) <==> |e.send.data| < e.send.cap && answer.Some?)
            && (r.Err? ==> e1 == e)
            && (r.Ok? ==> e1 == e.(send := e.send.(data := e.send.data + [Some(Pending(answer.value.0, answer.value.1, 1))])))
  {
    var answer := sendData(Header(Some(e.NextSeqnum()), None, None));
    if !e.send.IsFull() && answer.Some? { PutAtNext(e.send, Pending(answer.value.0, answer.value.1, 1)); }
  }

  /** A fragmented send fails only for want of room, and then changes nothing. */
  lemma FragmentedOutcome<S, R>(e: Endpoint<S, R>, fragments: seq<S>, sendData: (nat, Header, S) -> (S, nat))
    requires e.Valid() && e.NextSeqnum() + |fragments| <= U64_MAX
    ensures var (e1, r) := TrySendFragmented(e, fragments, sendData);
            && (r == Err(SendWindowFull) <==> e.send.cap <= |e.send.data| + |fragments|)
            && (r == Ok(()) <==> |e.send.data| + |fragments| < e.send.cap)
            && (r.Err? ==> e1 == e)
            && (r.Ok? ==> e1.NextSeqnum() == e.NextSeqnum() + |fragments|)
  {
  }
}
