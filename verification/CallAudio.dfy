/**
 * The outgoing audio of one Call in src/node/ringrtc/Service.ts.  Setters update the call's own
 * fields at once and defer the native command to a FIFO queue of microtasks.
 */
module CallAudio {

  datatype CallState = Prering | Ringing | Accepted | Reconnecting | Ended

  /** A deferred native command; ApplySetting reads the call's setting only when it runs. */
  datatype Task = ApplySetting | SetEnabled(enabled: bool)

  datatype Audio = Audio(
    state: CallState,
    mediaSessionStarted: bool,
    outgoingAudioEnabled: bool,
    tasks: seq<Task>,
    native: bool)          // the native audio track, disabled at creation

  datatype Op =
    | SetState(to: CallState)
    | SetMuted(muted: bool)
    | SetCallEnded
    | RunTask              // the oldest microtask runs; nothing happens when there is none

  function NewCall(state: CallState): Audio {
    Audio(state, false, false, [], false)
  }

  function Apply(c: Audio, op: Op): Audio {
    match op
    case SetState(to) => ApplyState(c, to)
    case SetMuted(muted) =>
      var enabled := !muted;
      if c.mediaSessionStarted && c.outgoingAudioEnabled != enabled then
        c.(outgoingAudioEnabled := enabled, tasks := c.tasks + [SetEnabled(enabled)])
      else c.(outgoingAudioEnabled := enabled)
    case SetCallEnded => c.(state := Ended)
    case RunTask => if c.tasks == [] then c else RunFirst(c)
  }

  function ApplyState(c: Audio, to: CallState): Audio {
    if to == c.state then c
    else if to == Accepted then
      if c.mediaSessionStarted then c.(state := to)
      else c.(state := to, mediaSessionStarted := true, tasks := c.tasks + [ApplySetting])
    else if to == Ended then
      c.(state := to, mediaSessionStarted := false, outgoingAudioEnabled := false, tasks := c.tasks + [SetEnabled(false)])
    else c.(state := to)
  }

  function RunFirst(c: Audio): Audio
    requires c.tasks != []
  {
    c.(tasks := c.tasks[1..], native := Effect(c, c.tasks[0]))
  }

  function Effect(c: Audio, t: Task): bool {
    match t
    case ApplySetting => c.outgoingAudioEnabled
    case SetEnabled(b) => b
  }

  /** All pending microtasks run, with nothing in between. */
  function Drain(c: Audio): (r: Audio)
    ensures r.tasks == []
    decreases |c.tasks|
  {
    if c.tasks == [] then c else Drain(RunFirst(c))
  }

  function Run(c: Audio, ops: seq<Op>): Audio
    decreases |ops|
  {
    if ops == [] then c else Apply(Run(c, ops[..|ops| - 1]), ops[|ops| - 1])
  }

  /** The last mute request since the session last ended, read off the history alone. */
  ghost predicate LastRequest(ops: seq<Op>, wanted: bool) {
    exists i :: 0 <= i < |ops| && ops[i] == SetMuted(!wanted)
      && forall j :: i < j < |ops| ==> !ops[j].SetMuted? && ops[j] != SetState(Ended)
  }

  /** What the queue will come to: off without a session, the call's setting with one. */
  ghost predicate Settles(c: Audio) {
    var last := if c.tasks == [] then SetEnabled(c.native) else c.tasks[|c.tasks| - 1];
    if c.mediaSessionStarted then last == ApplySetting || last == SetEnabled(c.outgoingAudioEnabled)
    else last == SetEnabled(false)
  }

  lemma ApplyKeepsSettles(c: Audio, op: Op)
    requires Settles(c)
    ensures Settles(Apply(c, op))
  {
  }

  lemma {:induction false} RunKeepsSettles(start: CallState, ops: seq<Op>)
    ensures Settles(Run(NewCall(start), ops))
    decreases |ops|
  {
    if ops != [] {
      RunKeepsSettles(start, ops[..|ops| - 1]);
      ApplyKeepsSettles(Run(NewCall(start), ops[..|ops| - 1]), ops[|ops| - 1]);
    }
  }

  lemma {:induction false} DrainSettles(c: Audio)
    requires Settles(c)
    ensures Drain(c) == c.(tasks := [], native := c.mediaSessionStarted && c.outgoingAudioEnabled)
    decreases |c.tasks|
  {
    if c.tasks != [] {
      var c1 := RunFirst(c);
      assert |c.tasks| > 1 ==> c1.tasks[|c1.tasks| - 1] == c.tasks[|c.tasks| - 1];
      DrainSettles(c1);
    }
  }

  lemma {:induction false} SettingIsLastRequest(start: CallState, ops: seq<Op>, wanted: bool)
    requires LastRequest(ops, wanted)
    ensures Run(NewCall(start), ops).outgoingAudioEnabled == wanted
    decreases |ops|
  {
    var i :| 0 <= i < |ops| && ops[i] == SetMuted(!wanted)
      && forall j :: i < j < |ops| ==> !ops[j].SetMuted? && ops[j] != SetState(Ended);
    var n := |ops| - 1;
    if i < n {
      var init := ops[..n];
      assert init[i] == SetMuted(!wanted);
      SettingIsLastRequest(start, init, wanted);
      assert !ops[n].SetMuted? && ops[n] != SetState(Ended);
    }
  }

  /**
   * Over every interleaving of mutes, state changes and microtasks: once the queue is drained the
   * native audio is off if no session is started, and otherwise equals the user's last request.
   */
  lemma NativeFollowsUser(start: CallState, ops: seq<Op>)
    ensures var c := Run(NewCall(start), ops);
            && (!c.mediaSessionStarted ==> !Drain(c).native)
            && (c.mediaSessionStarted ==> Drain(c).native == c.outgoingAudioEnabled)
            && (forall wanted :: c.mediaSessionStarted && LastRequest(ops, wanted) ==> Drain(c).native == wanted)
  {
    RunKeepsSettles(start, ops);
    DrainSettles(Run(NewCall(start), ops));
    forall wanted | LastRequest(ops, wanted) ensures Run(NewCall(start), ops).outgoingAudioEnabled == wanted {
      SettingIsLastRequest(start, ops, wanted);
    }
  }

  /** A call ended through its state is silent; setCallEnded alone ends no session. */
  lemma {:induction false} EndedMeansNoSession(start: CallState, ops: seq<Op>)
    requires SetCallEnded !in ops
    ensures var c := Run(NewCall(start), ops);
            c.state == Ended ==> !c.mediaSessionStarted && !Drain(c).native
    decreases |ops|
  {
    NativeFollowsUser(start, ops);
    if ops != [] {
      var init := ops[..|ops| - 1];
      EndedMeansNoSession(start, init);
      assert ops[|ops| - 1] in ops;
    }
  }

  /**
   * A call marked with setCallEnded keeps the microphone open exactly when it had a session with
   * audio enabled, and setting its state to Ended afterwards changes nothing.
   */
  lemma MarkedEndedIff(start: CallState, ops: seq<Op>)
    ensures var before := Run(NewCall(start), ops);
            var after := Run(NewCall(start), ops + [SetCallEnded, SetState(Ended)]);
            && after.state == Ended
            && (Drain(after).native <==> before.mediaSessionStarted && before.outgoingAudioEnabled)
  {
    var one, two := ops + [SetCallEnded], ops + [SetCallEnded, SetState(Ended)];
    assert two[..|two| - 1] == one && one[..|one| - 1] == ops;
    RunKeepsSettles(start, two);
    DrainSettles(Run(NewCall(start), two));
  }

  /** An accepted, unmuted call that is marked as ended and then set to Ended keeps its microphone open. */
  lemma MarkedEndedStaysOn(start: CallState)
    requires start != Accepted
    ensures var c := Run(NewCall(start), [SetState(Accepted), SetMuted(false), SetCallEnded, SetState(Ended)]);
            c.state == Ended && Drain(c).native
  {
    var ops := [SetState(Accepted), SetMuted(false)];
    assert ops[..1] == [SetState(Accepted)] && ops[..1][..0] == [];
    assert Run(NewCall(start), []) == NewCall(start);
    assert Run(NewCall(start), ops[..1]).mediaSessionStarted;
    assert Run(NewCall(start), ops).mediaSessionStarted && Run(NewCall(start), ops).outgoingAudioEnabled;
    MarkedEndedIff(start, ops);
    assert ops + [SetCallEnded, SetState(Ended)] == [SetState(Accepted), SetMuted(false), SetCallEnded, SetState(Ended)];
  }

  // --- Everything from the history alone -------------------------------------------------------------

  /** The state a history leaves behind: the last one that was set, by either way of setting it. */
  function StateAfter(start: CallState, ops: seq<Op>): CallState {
    if ops == [] then start
    else
      match ops[|ops| - 1]
      case SetState(to) => to
      case SetCallEnded => Ended
      case _ => StateAfter(start, ops[..|ops| - 1])
  }

  /** The i-th operation sets the state to `to`, which it was not before. */
  ghost predicate Enters(start: CallState, ops: seq<Op>, i: nat, to: CallState)
    requires i < |ops|
  {
    ops[i] == SetState(to) && StateAfter(start, ops[..i]) != to
  }

  /** The call entered Accepted at `i` and has not entered Ended since. */
  ghost predicate AcceptedSince(start: CallState, ops: seq<Op>, i: nat) {
    && i < |ops| && Enters(start, ops, i, Accepted)
    && forall j :: i < j < |ops| ==> !Enters(start, ops, j, Ended)
  }

  ghost predicate InSession(start: CallState, ops: seq<Op>) {
    exists i :: AcceptedSince(start, ops, i)
  }

  /** The mute request at `i` asked for audio, and was followed by neither another one nor entering Ended. */
  ghost predicate WantedSince(start: CallState, ops: seq<Op>, i: nat) {
    && i < |ops| && ops[i] == SetMuted(false)
    && forall j :: i < j < |ops| ==> !ops[j].SetMuted? && !Enters(start, ops, j, Ended)
  }

  ghost predicate WantsAudio(start: CallState, ops: seq<Op>) {
    exists i :: WantedSince(start, ops, i)
  }

  lemma EntersEarlier(start: CallState, ops: seq<Op>, i: nat, to: CallState)
    requires i < |ops| - 1
    ensures Enters(start, ops[..|ops| - 1], i, to) <==> Enters(start, ops, i, to)
  {
    assert ops[..|ops| - 1][..i] == ops[..i];
  }

  lemma AcceptedSinceStep(start: CallState, ops: seq<Op>, i: nat)
    requires i < |ops| - 1
    ensures AcceptedSince(start, ops, i)
       <==> AcceptedSince(start, ops[..|ops| - 1], i) && !Enters(start, ops, |ops| - 1, Ended)
  {
    var n := |ops| - 1;
    EntersEarlier(start, ops, i, Accepted);
    forall j | 0 <= j < n ensures Enters(start, ops[..n], j, Ended) <==> Enters(start, ops, j, Ended) {
      EntersEarlier(start, ops, j, Ended);
    }
  }

  lemma SessionStep(start: CallState, ops: seq<Op>)
    requires ops != []
    ensures var n := |ops| - 1;
            InSession(start, ops)
            <==> Enters(start, ops, n, Accepted) || (InSession(start, ops[..n]) && !Enters(start, ops, n, Ended))
  {
    var n := |ops| - 1;
    forall i | 0 <= i < n
      ensures AcceptedSince(start, ops, i) <==> AcceptedSince(start, ops[..n], i) && !Enters(start, ops, n, Ended)
    {
      AcceptedSinceStep(start, ops, i);
    }
    assert AcceptedSince(start, ops, n) <==> Enters(start, ops, n, Accepted);
  }

  lemma WantedSinceStep(start: CallState, ops: seq<Op>, i: nat)
    requires i < |ops| - 1
    ensures WantedSince(start, ops, i)
       <==> WantedSince(start, ops[..|ops| - 1], i) && !ops[|ops| - 1].SetMuted? && !Enters(start, ops, |ops| - 1, Ended)
  {
    var n := |ops| - 1;
    forall j | 0 <= j < n ensures ops[..n][j] == ops[j] && (Enters(start, ops[..n], j, Ended) <==> Enters(start, ops, j, Ended)) {
      EntersEarlier(start, ops, j, Ended);
    }
  }

  lemma RequestStep(start: CallState, ops: seq<Op>)
    requires ops != []
    ensures var n := |ops| - 1;
            WantsAudio(start, ops)
            <==> ops[n] == SetMuted(false)
                 || (WantsAudio(start, ops[..n]) && !ops[n].SetMuted? && !Enters(start, ops, n, Ended))
  {
    var n := |ops| - 1;
    forall i | 0 <= i < n
      ensures WantedSince(start, ops, i)
         <==> WantedSince(start, ops[..n], i) && !ops[n].SetMuted? && !Enters(start, ops, n, Ended)
    {
      WantedSinceStep(start, ops, i);
    }
    assert WantedSince(start, ops, n) <==> ops[n] == SetMuted(false);
  }

  /** The fields of a call are what its history says. */
  lemma {:induction false} HistoryTells(start: CallState, ops: seq<Op>)
    ensures var c := Run(NewCall(start), ops);
            && c.state == StateAfter(start, ops)
            && (c.mediaSessionStarted <==> InSession(start, ops))
            && (c.outgoingAudioEnabled <==> WantsAudio(start, ops))
    decreases |ops|
  {
    if ops != [] {
      HistoryTells(start, ops[..|ops| - 1]);
      SessionStep(start, ops);
      RequestStep(start, ops);
    }
  }

  /**
   * Whatever happened, in whatever order the microtasks ran: with the queue drained, audio is on if and
   * only if the call has entered Accepted and not Ended since, and the last mute request since it last
   * entered Ended, if any, asked for audio.
   */
  lemma AudioOnIff(start: CallState, ops: seq<Op>)
    ensures Drain(Run(NewCall(start), ops)).native <==> InSession(start, ops) && WantsAudio(start, ops)
  {
    HistoryTells(start, ops);
    NativeFollowsUser(start, ops);
  }

  /** Having entered Ended, a call is silent until audio is asked for again, even if it is accepted again. */
  lemma SilentUntilUnmuted(start: CallState, ops: seq<Op>, i: nat)
    requires i < |ops| && Enters(start, ops, i, Ended)
    requires forall j :: i < j < |ops| ==> ops[j] != SetMuted(false)
    ensures !Drain(Run(NewCall(start), ops)).native
  {
    AudioOnIff(start, ops);
    forall k ensures !WantedSince(start, ops, k) {}
  }

  /** The native commands that one operation defers, given the history before it. */
  ghost function Issued(start: CallState, ops: seq<Op>, op: Op): seq<Task> {
    match op
    case SetState(to) =>
      if StateAfter(start, ops) == to then []
      else if to == Accepted && !InSession(start, ops) then [ApplySetting]
      else if to == Ended then [SetEnabled(false)]
      else []
    case SetMuted(muted) => if InSession(start, ops) && WantsAudio(start, ops) == muted then [SetEnabled(!muted)] else []
    case _ => []
  }

  /**
   * The deferred commands, one operation at a time: what is issued joins the end of the queue, what runs
   * leaves its front, and only running changes the native track.
   */
  lemma CommandsIssued(start: CallState, ops: seq<Op>, op: Op)
    ensures var c, c' := Run(NewCall(start), ops), Run(NewCall(start), ops + [op]);
            if op != RunTask then c'.tasks == c.tasks + Issued(start, ops, op) && c'.native == c.native
            else if c.tasks == [] then c'.tasks == [] && c'.native == c.native
            else c.tasks == [c.tasks[0]] + c'.tasks
                 && (c'.native <==> c.tasks[0] == SetEnabled(true) || (c.tasks[0] == ApplySetting && WantsAudio(start, ops)))
  {
    HistoryTells(start, ops);
    assert (ops + [op])[..|ops|] == ops;
  }
}
