/**
 * The event wake-up protocol of src/rust/src/electron.rs: many threads push events or log messages
 * and then report; an atomic flag decides which of them schedules the one JavaScript callback, and
 * the callback clears the flag before it drains.  Atomic steps interleave arbitrarily.
 */
module Wakeup {

  /** Where the JavaScript thread is in its callback. */
  datatype Js = Idle | Entered | Cleared | Draining

  datatype State<E, L> = State(
    flag: bool,             // event_reported
    channel: seq<E>,        // events sent and not yet received
    logs: seq<L>,           // LOG_MESSAGES
    reporting: set<nat>,    // threads that have pushed and have not yet swapped the flag
    winners: set<nat>,      // threads that found the flag clear and have not yet scheduled
    queued: nat,            // callbacks in the JavaScript queue
    js: Js,
    sent: seq<E>, handled: seq<E>,     // all events pushed, all events drained
    logged: seq<L>, shown: seq<L>,     // all messages pushed, all messages taken
    failures: nat)          // schedulings that failed and were ignored

  datatype Step<E, L> =
    | Push(thread: nat, event: E)
    | Log(thread: nat, message: L)
    | Swap(thread: nat)
    | Schedule(thread: nat, succeeds: bool)
    | Begin
    | Clear
    | TakeLogs
    | Pop
    | Finish

  function Initial<E, L>(): State<E, L> {
    State(false, [], [], {}, {}, 0, Idle, [], [], [], [], 0)
  }

  predicate Enabled<E, L>(s: State<E, L>, step: Step<E, L>) {
    match step
    case Push(t, _) => t !in s.reporting && t !in s.winners
    case Log(t, _) => t !in s.reporting && t !in s.winners
    case Swap(t) => t in s.reporting
    case Schedule(t, _) => t in s.winners
    case Begin => s.js.Idle? && s.queued > 0
    case Clear => s.js.Entered?
    case TakeLogs => s.js.Cleared?
    case Pop => s.js.Draining? && s.channel != []
    case Finish => s.js.Draining? && s.channel == []
  }

  function Next<E, L>(s: State<E, L>, step: Step<E, L>): State<E, L>
    requires Enabled(s, step)
  {
    match step
    case Push(t, e) => s.(channel := s.channel + [e], sent := s.sent + [e], reporting := s.reporting + {t})
    case Log(t, m) => s.(logs := s.logs + [m], logged := s.logged + [m], reporting := s.reporting + {t})
    case Swap(t) =>
      if s.flag then s.(reporting := s.reporting - {t})
      else s.(flag := true, reporting := s.reporting - {t}, winners := s.winners + {t})
    case Schedule(t, ok) =>
      if ok then s.(winners := s.winners - {t}, queued := s.queued + 1)
      else s.(winners := s.winners - {t}, failures := s.failures + 1)
    case Begin => s.(queued := s.queued - 1, js := Entered)
    case Clear => s.(flag := false, js := Cleared)
    case TakeLogs => s.(logs := [], shown := s.shown + s.logs, js := Draining)
    case Pop => s.(channel := s.channel[1..], handled := s.handled + [s.channel[0]])
    case Finish => s.(js := Idle)
  }

  ghost predicate IsRun<E, L>(run: seq<State<E, L>>, steps: seq<Step<E, L>>) {
    && |run| == |steps| + 1
    && forall i :: 0 <= i < |steps| ==> Follows(run[i], steps[i], run[i + 1])
  }

  ghost predicate Follows<E, L>(s: State<E, L>, step: Step<E, L>, s': State<E, L>) {
    Enabled(s, step) && s' == Next(s, step)
  }

  // --- The invariant -------------------------------------------------------------------------------

  /** Winners yet to schedule, callbacks yet to clear the flag, and schedulings that failed. */
  function Tokens<E, L>(s: State<E, L>): nat {
    |s.winners| + s.queued + (if s.js.Entered? then 1 else 0) + s.failures
  }

  ghost predicate Inv<E, L>(s: State<E, L>) {
    && s.reporting !! s.winners
    && Tokens(s) == (if s.flag then 1 else 0)
    && s.handled + s.channel == s.sent
    && s.shown + s.logs == s.logged
    && (s.channel != [] ==> s.reporting != {} || s.flag || s.js.Cleared? || s.js.Draining?)
    && (s.logs != [] ==> s.reporting != {} || s.flag || s.js.Cleared?)
  }

  lemma NextKeepsInv<E, L>(s: State<E, L>, step: Step<E, L>)
    requires Inv(s) && Enabled(s, step)
    ensures Inv(Next(s, step))
  {
    match step
    case Push(t, e) => PushKeepsInv(s, t, e);
    case Log(t, m) => LogKeepsInv(s, t, m);
    case Swap(t) =>
    case Schedule(t, ok) =>
    case Begin =>
    case Clear =>
    case TakeLogs =>
    case Pop => PopKeepsInv(s);
    case Finish =>
  }

  lemma PushKeepsInv<E, L>(s: State<E, L>, t: nat, e: E)
    requires Inv(s) && Enabled(s, Push(t, e))
    ensures Inv(Next(s, Push(t, e)))
  {
    assert t in Next(s, Push(t, e)).reporting;
    assert s.handled + (s.channel + [e]) == s.handled + s.channel + [e];
  }

  lemma LogKeepsInv<E, L>(s: State<E, L>, t: nat, m: L)
    requires Inv(s) && Enabled(s, Log(t, m))
    ensures Inv(Next(s, Log(t, m)))
  {
    assert t in Next(s, Log(t, m)).reporting;
    assert s.shown + (s.logs + [m]) == s.shown + s.logs + [m];
  }

  lemma PopKeepsInv<E, L>(s: State<E, L>)
    requires Inv(s) && Enabled(s, Pop)
    ensures Inv(Next(s, Pop))
  {
    assert s.channel == [s.channel[0]] + s.channel[1..];
  }

  lemma {:induction false} RunKeepsInv<E, L>(run: seq<State<E, L>>, steps: seq<Step<E, L>>, j: nat)
    requires IsRun(run, steps) && Inv(run[0]) && j < |run|
    ensures Inv(run[j])
    decreases j
  {
    if j > 0 {
      RunKeepsInv(run, steps, j - 1);
      assert Follows(run[j - 1], steps[j - 1], run[j]);
      NextKeepsInv(run[j - 1], steps[j - 1]);
    }
  }

  // --- Main results --------------------------------------------------------------------------------

  /** A wake-up is on its way: someone will still report or schedule, or the callback will still drain. */
  ghost predicate Awaited<E, L>(s: State<E, L>) {
    s.reporting != {} || s.winners != {} || s.queued > 0 || !s.js.Idle?
  }

  /**
   * Over every interleaving: however many events are sent at most one wake-up is pending, exactly
   * when the flag is set; events are drained once each and in channel order; and as long as
   * scheduling has not failed, whatever is waiting is awaited.
   */
  lemma NoLostWakeup<E, L>(run: seq<State<E, L>>, steps: seq<Step<E, L>>, j: nat)
    requires IsRun(run, steps) && run[0] == Initial() && j < |run|
    ensures var s := run[j];
            && Tokens(s) == (if s.flag then 1 else 0)
            && s.sent == s.handled + s.channel
            && s.logged == s.shown + s.logs
            && (s.failures == 0 && (s.channel != [] || s.logs != []) ==> Awaited(s))
  {
    RunKeepsInv(run, steps, j);
  }

  /** Steps other than the arrival of new work, with scheduling succeeding. */
  ghost predicate Internal<E, L>(step: Step<E, L>) {
    !step.Push? && !step.Log? && (step.Schedule? ==> step.succeeds)
  }

  function Work<E, L>(s: State<E, L>): nat {
    |s.channel| + 10 * |s.reporting| + 9 * |s.winners| + 8 * s.queued
    + match s.js { case Idle => 0 case Entered => 7 case Cleared => 6 case Draining => 5 }
  }

  /** The protocol cannot stall while a wake-up is awaited. */
  lemma NeverStuck<E, L>(s: State<E, L>) returns (step: Step<E, L>)
    requires Awaited(s)
    ensures Enabled(s, step) && Internal(step)
  {
    if s.reporting != {} {
      var t :| t in s.reporting;
      step := Swap(t);
    } else if s.winners != {} {
      var t :| t in s.winners;
      step := Schedule(t, true);
    } else {
      match s.js
      case Idle => step := Begin;
      case Entered => step := Clear;
      case Cleared => step := TakeLogs;
      case Draining => step := if s.channel != [] then Pop else Finish;
    }
  }

  lemma InternalReducesWork<E, L>(s: State<E, L>, step: Step<E, L>)
    requires Enabled(s, step) && Internal(step)
    ensures Work(Next(s, step)) < Work(s)
    ensures Next(s, step).failures == s.failures
    ensures Next(s, step).sent == s.sent && Next(s, step).logged == s.logged
  {
    match step
    case Swap(t) =>
      assert |s.reporting - {t}| == |s.reporting| - 1;
      assert |s.winners + {t}| <= |s.winners| + 1;
    case Schedule(t, ok) => assert |s.winners - {t}| == |s.winners| - 1;
    case Begin =>
    case Clear =>
    case TakeLogs =>
    case Pop =>
    case Finish =>
  }

  /**
   * From any state of any run in which no scheduling has failed, every way of running on without new
   * work ends within a bounded number of steps, and can only end with everything handled, in order.
   */
  lemma {:induction false} RunsDry<E, L>(run: seq<State<E, L>>, steps: seq<Step<E, L>>)
    requires IsRun(run, steps) && Inv(run[0]) && run[0].failures == 0
    requires forall i :: 0 <= i < |steps| ==> Internal(steps[i])
    ensures |steps| <= Work(run[0])
    ensures var last := run[|steps|];
            || (exists step :: Enabled(last, step) && Internal(step))
            || (last.handled == last.sent == run[0].sent && last.shown == last.logged == run[0].logged && !last.flag)
  {
    WorkBounds(run, steps, |steps|);
    RunKeepsInv(run, steps, |steps|);
    var last := run[|steps|];
    if Awaited(last) {
      var step := NeverStuck(last);
    }
  }

  lemma {:induction false} WorkBounds<E, L>(run: seq<State<E, L>>, steps: seq<Step<E, L>>, j: nat)
    requires IsRun(run, steps) && j < |run|
    requires forall i :: 0 <= i < |steps| ==> Internal(steps[i])
    ensures Work(run[j]) + j <= Work(run[0])
    ensures run[j].failures == run[0].failures && run[j].sent == run[0].sent && run[j].logged == run[0].logged
    decreases j
  {
    if j > 0 {
      WorkBounds(run, steps, j - 1);
      assert Follows(run[j - 1], steps[j - 1], run[j]);
      InternalReducesWork(run[j - 1], steps[j - 1]);
    }
  }

  /** Where the JavaScript thread is, from its own steps alone. */
  function JsAfter<E, L>(steps: seq<Step<E, L>>): Js {
    if steps == [] then Idle
    else
      match steps[|steps| - 1]
      case Begin => Entered
      case Clear => Cleared
      case TakeLogs => Draining
      case Pop => Draining
      case Finish => Idle
      case _ => JsAfter(steps[..|steps| - 1])
  }

  lemma {:induction false} JsFollowsSteps<E, L>(run: seq<State<E, L>>, steps: seq<Step<E, L>>, j: nat)
    requires IsRun(run, steps) && run[0] == Initial() && j < |run|
    ensures run[j].js == JsAfter(steps[..j])
    decreases j
  {
    if j > 0 {
      JsFollowsSteps(run, steps, j - 1);
      assert Follows(run[j - 1], steps[j - 1], run[j]);
      assert steps[..j][..j - 1] == steps[..j - 1];
    }
  }

  /**
   * Callbacks never overlap, and each clears the flag, then takes the log messages, then drains, and ends
   * only when it has found the channel empty.
   */
  lemma CallbackOrder<E, L>(run: seq<State<E, L>>, steps: seq<Step<E, L>>, j: nat)
    requires IsRun(run, steps) && run[0] == Initial() && j < |steps|
    ensures steps[j] == Begin ==> JsAfter(steps[..j]) == Idle
    ensures steps[j] == Clear ==> JsAfter(steps[..j]) == Entered && !run[j + 1].flag
    ensures steps[j] == TakeLogs ==> JsAfter(steps[..j]) == Cleared && run[j + 1].logs == []
    ensures steps[j] == Pop ==> JsAfter(steps[..j]) == Draining
    ensures steps[j] == Finish ==> JsAfter(steps[..j]) == Draining && run[j].channel == []
  {
    JsFollowsSteps(run, steps, j);
    assert Follows(run[j], steps[j], run[j + 1]);
  }

  // --- When scheduling fails -------------------------------------------------------------------------

  /**
   * The code ignores a failed scheduling but leaves the flag set.  From then on, once a callback that
   * was still draining has ended, nothing is ever drained again, whatever is sent.
   */
  lemma {:induction false} FailureIsFinal<E, L>(run: seq<State<E, L>>, steps: seq<Step<E, L>>, j: nat)
    requires IsRun(run, steps) && Inv(run[0]) && j < |run|
    requires run[0].failures > 0 && run[0].js.Idle?
    ensures run[j].handled == run[0].handled && run[j].shown == run[0].shown
    ensures run[j].failures > 0 && run[j].js.Idle? && run[j].flag && run[j].queued == 0
    decreases j
  {
    RunKeepsInv(run, steps, j);
    if j > 0 {
      FailureIsFinal(run, steps, j - 1);
      RunKeepsInv(run, steps, j - 1);
      assert Follows(run[j - 1], steps[j - 1], run[j]);
      FailureStaysFinal(run[j - 1], steps[j - 1]);
    }
  }

  lemma FailureStaysFinal<E, L>(s: State<E, L>, step: Step<E, L>)
    requires Inv(s) && Enabled(s, step) && s.failures > 0 && s.js.Idle?
    ensures var s' := Next(s, step);
            s'.handled == s.handled && s'.shown == s.shown && s'.failures > 0 && s'.js.Idle?
  {
  }

  /**
   * An event pushed while no callback is running has been handled when the protocol comes to rest if
   * and only if no scheduling had failed before.
   */
  lemma HandledIffNoFailure<E, L>(s: State<E, L>, t: nat, e: E, run: seq<State<E, L>>, steps: seq<Step<E, L>>)
    requires Inv(s) && s.js.Idle? && Enabled(s, Push(t, e))
    requires IsRun(run, steps) && run[0] == Next(s, Push(t, e))
    requires forall i :: 0 <= i < |steps| ==> Internal(steps[i])
    requires !Awaited(run[|steps|])
    ensures run[|steps|].handled == run[|steps|].sent <==> s.failures == 0
  {
    NextKeepsInv(s, Push(t, e));
    RunKeepsInv(run, steps, |steps|);
    WorkBounds(run, steps, |steps|);
    if s.failures > 0 {
      FailureIsFinal(run, steps, |steps|);
      assert |run[|steps|].handled| < |run[|steps|].sent|;
    }
  }

  /** One failed scheduling loses an event for good. */
  lemma FailureLosesEvent<E, L>(e: E) returns (run: seq<State<E, L>>, steps: seq<Step<E, L>>)
    ensures IsRun(run, steps) && run[0] == Initial()
    ensures var s := run[|steps|]; !Awaited(s) && s.sent == [e] && s.handled == []
  {
    var s0: State<E, L> := Initial();
    steps := [Push(0, e), Swap(0), Schedule(0, false)];
    var s1 := Next(s0, steps[0]);
    var s2 := Next(s1, steps[1]);
    var s3 := Next(s2, steps[2]);
    run := [s0, s1, s2, s3];
    assert s3.winners == {} && s3.reporting == {};
  }
}
