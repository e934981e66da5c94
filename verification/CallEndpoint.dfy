/** The shared state of the wake-up protocol as an object: each method is one atomic step, or the loop of such steps that drains. */
module CallEndpoints {
  import opened Common
  import opened Wakeup

  class CallEndpoint<E, L> {
    var eventReported: bool
    var channel: seq<E>
    var logMessages: seq<L>
    var callbacks: nat
    /** The protocol state this object is part of. */
    ghost var model: State<E, L>

    ghost predicate Valid()
      reads this
    {
      && eventReported == model.flag
      && channel == model.channel
      && logMessages == model.logs
      && callbacks == model.queued
      && Inv(model)
    }

    constructor ()
      ensures Valid() && model == Initial()
    {
      eventReported, channel, logMessages, callbacks := false, [], [], 0;
      model := Initial();
    }

    method PushEvent(ghost thread: nat, event: E)
      requires Valid() && Enabled(model, Push(thread, event))
      modifies this
      ensures Valid() && model == Next(old(model), Push(thread, event))
    {
      channel := channel + [event];
      NextKeepsInv(model, Push(thread, event));
      model := Next(model, Push(thread, event));
    }

    method PushLog(ghost thread: nat, message: L)
      requires Valid() && Enabled(model, Log(thread, message))
      modifies this
      ensures Valid() && model == Next(old(model), Log(thread, message))
    {
      logMessages := logMessages + [message];
      NextKeepsInv(model, Log(thread, message));
      model := Next(model, Log(thread, message));
    }

    /** The atomic swap; the thread that finds the flag clear has to schedule. */
    method SwapReported(ghost thread: nat) returns (won: bool)
      requires Valid() && Enabled(model, Swap(thread))
      modifies this
      ensures Valid() && model == Next(old(model), Swap(thread))
      ensures won <==> thread in model.winners
    {
      won := !eventReported;
      eventReported := true;
      NextKeepsInv(model, Swap(thread));
      model := Next(model, Swap(thread));
    }

    method ScheduleCallback(ghost thread: nat, succeeds: bool)
      requires Valid() && Enabled(model, Schedule(thread, succeeds))
      modifies this
      ensures Valid() && model == Next(old(model), Schedule(thread, succeeds))
    {
      if succeeds { callbacks := callbacks + 1; }
      NextKeepsInv(model, Schedule(thread, succeeds));
      model := Next(model, Schedule(thread, succeeds));
    }

    method StartCallback()
      requires Valid() && Enabled(model, Begin)
      modifies this
      ensures Valid() && model == Next(old(model), Begin)
    {
      callbacks := callbacks - 1;
      NextKeepsInv(model, Begin);
      model := Next(model, Begin);
    }

    method ClearReported()
      requires Valid() && Enabled(model, Clear)
      modifies this
      ensures Valid() && model == Next(old(model), Clear)
    {
      eventReported := false;
      NextKeepsInv(model, Clear);
      model := Next(model, Clear);
    }

    method TakeLogMessages() returns (entries: seq<L>)
      requires Valid() && Enabled(model, TakeLogs)
      modifies this
      ensures Valid() && model == Next(old(model), TakeLogs)
      ensures entries == old(logMessages)
    {
      entries := logMessages;
      logMessages := [];
      NextKeepsInv(model, TakeLogs);
      model := Next(model, TakeLogs);
    }

    /** One step of a thread that pushes. */
    method OtherThread(step: Step<E, L>)
      requires Valid() && IsOther(step) && Enabled(model, step)
      modifies this
      ensures Valid() && model == Next(old(model), step)
    {
      match step
      case Push(t, e) => PushEvent(t, e);
      case Log(t, m) => PushLog(t, m);
      case Swap(t) => var _ := SwapReported(t);
      case Schedule(t, succeeds) => ScheduleCallback(t, succeeds);
    }

    /** Steps of other threads while this one is draining. */
    method OtherThreads(steps: seq<Step<E, L>>, ghost later: seq<Step<E, L>>, ghost d: Drain<E, L>) returns (ghost d': Drain<E, L>)
      requires Valid() && Midway(d, model, steps + later)
      modifies this
      ensures Valid() && Midway(d', model, later) && SameReceiver(d, d')
    {
      d' := d;
      assert (steps + later)[0..] == steps + later;
      for i := 0 to |steps|
        invariant Valid() && Midway(d', model, (steps + later)[i..]) && SameReceiver(d, d')
      {
        ghost var rest := (steps + later)[i..];
        assert rest[0] == steps[i] && rest[1..] == (steps + later)[i + 1..];
        d' := DrainOther(d', model, rest);
        OtherThread(steps[i]);
      }
      assert (steps + later)[|steps|..] == later;
    }

    /** The other threads' turn before the next attempt to receive, while they have any left. */
    method OthersTurn(others: seq<seq<Step<E, L>>>, n: nat, ghost d: Drain<E, L>) returns (n': nat, ghost d': Drain<E, L>)
      requires Valid() && n <= |others| && Midway(d, model, Joined(others[n..]))
      modifies this
      ensures Valid() && n' <= |others| && Midway(d', model, Joined(others[n'..])) && SameReceiver(d, d')
      ensures if n < |others| then n' == n + 1 else n' == n && channel == old(channel)
    {
      n', d' := n, d;
      if n < |others| {
        JoinedSplit(others, n);
        d' := OtherThreads(others[n], Joined(others[n + 1..]), d);
        n' := n + 1;
      }
    }

    /** Takes the oldest event, if there is one. */
    method TryReceive(ghost later: seq<Step<E, L>>, ghost d: Drain<E, L>) returns (event: Option<E>, ghost d': Drain<E, L>)
      requires Valid() && Midway(d, model, later)
      modifies this
      ensures Valid() && Midway(d', model, later) && d'.start == d.start && d'.all == d.all
      ensures if event == None then old(channel) == channel == [] && d' == d
              else old(channel) == [event.value] + channel && d'.events == d.events + [event.value]
    {
      if channel == [] { return None, d; }
      d' := DrainPop(d, model, later);
      event := Some(channel[0]);
      channel := channel[1..];
      NextKeepsInv(model, Pop);
      model := Next(model, Pop);
    }

    /** Leaves the callback once the channel was found empty. */
    method EndCallback(ghost later: seq<Step<E, L>>, ghost d: Drain<E, L>) returns (ghost d': Drain<E, L>)
      requires Valid() && Midway(d, model, later) && channel == []
      modifies this
      ensures Valid() && Accounted(d', model, later) && model.js.Idle? && channel == []
      ensures SameReceiver(d, d') && d'.events == d.start.channel + Pushed(d'.path)
    {
      d' := DrainEnds(d, model, later);
      NextKeepsInv(model, Finish);
      model := Next(model, Finish);
    }

    /**
     * Receives until the channel is found empty, while other threads go on: `others[i]` are their steps
     * before its i-th attempt.  `run` and `path` show the whole as a run of the protocol, in which the
     * other threads took the steps of the first `n` turns.
     */
    method ReceiveEvents(others: seq<seq<Step<E, L>>>)
      returns (events: seq<E>, n: nat, ghost run: seq<State<E, L>>, ghost path: seq<Step<E, L>>)
      requires Valid() && model.js.Draining? && Plays(model, Joined(others))
      modifies this
      ensures Valid() && IsRun(run, path) && run[0] == old(model) && run[|path|] == model
      ensures n <= |others| && OtherSteps(path) + Joined(others[n..]) == Joined(others)
      ensures events == old(channel) + Pushed(path) && channel == []
      ensures model.js.Idle? && model.handled == old(model.handled) + events
    {
      events, n := [], 0;
      ghost var d := DrainBegins(model, Joined(others));
      assert others[0..] == others;
      while true
        invariant Valid() && n <= |others| && Midway(d, model, Joined(others[n..]))
        invariant d.start == old(model) && d.all == Joined(others) && d.events == events
        decreases |others| - n, |channel|
      {
        n, d := OthersTurn(others, n, d);
        var event;
        event, d := TryReceive(Joined(others[n..]), d);
        if event == None { break; }
        events := events + [event.value];
      }
      d := EndCallback(Joined(others[n..]), d);
      run, path := d.run, d.path;
    }
  }

  /** How far draining has come: the run so far, what was received, and all steps the other threads will take. */
  datatype Drain<E, L> = Drain(start: State<E, L>, run: seq<State<E, L>>, path: seq<Step<E, L>>, events: seq<E>, all: seq<Step<E, L>>)

  ghost predicate Accounted<E, L>(d: Drain<E, L>, s: State<E, L>, rest: seq<Step<E, L>>) {
    && IsRun(d.run, d.path) && d.run[0] == d.start && d.run[|d.path|] == s
    && OtherSteps(d.path) + rest == d.all
    && d.events + s.channel == d.start.channel + Pushed(d.path)
    && s.handled == d.start.handled + d.events
  }

  ghost predicate Midway<E, L>(d: Drain<E, L>, s: State<E, L>, rest: seq<Step<E, L>>) {
    s.js.Draining? && Plays(s, rest) && Accounted(d, s, rest)
  }

  ghost predicate SameReceiver<E, L>(d: Drain<E, L>, d': Drain<E, L>) {
    d'.start == d.start && d'.events == d.events && d'.all == d.all
  }

  lemma DrainBegins<E, L>(s: State<E, L>, all: seq<Step<E, L>>) returns (d: Drain<E, L>)
    requires s.js.Draining? && Plays(s, all)
    ensures Midway(d, s, all) && d.start == s && d.all == all && d.events == []
  {
    d := Drain(s, [s], [], [], all);
  }

  lemma AccountStep<E, L>(d: Drain<E, L>, s: State<E, L>, step: Step<E, L>, s': State<E, L>, events: seq<E>, rest: seq<Step<E, L>>)
    returns (d': Drain<E, L>)
    requires Accounted(d, s, OtherStep(step) + rest) && Follows(s, step, s')
    requires events + s'.channel == d.events + s.channel + PushedBy(step)
    requires s'.handled == d.start.handled + events
    ensures Accounted(d', s', rest) && d'.start == d.start && d'.all == d.all && d'.events == events
  {
    var path := d.path + [step];
    ExtendRun(d.run, d.path, step, s');
    assert path[..|d.path|] == d.path;
    d' := d.(run := d.run + [s'], path := path, events := events);
  }

  lemma OtherEffect<E, L>(s: State<E, L>, step: Step<E, L>)
    requires IsOther(step) && Enabled(s, step)
    ensures var s' := Next(s, step);
            s'.channel == s.channel + PushedBy(step) && s'.handled == s.handled && s'.js == s.js
  {
  }

  lemma DrainOther<E, L>(d: Drain<E, L>, s: State<E, L>, rest: seq<Step<E, L>>) returns (d': Drain<E, L>)
    requires Midway(d, s, rest) && rest != []
    ensures IsOther(rest[0]) && Enabled(s, rest[0])
    ensures Midway(d', Next(s, rest[0]), rest[1..]) && SameReceiver(d, d')
  {
    var step, s' := rest[0], Next(s, rest[0]);
    OtherEffect(s, step);
    assert rest == OtherStep(step) + rest[1..];
    assert d.events + (s.channel + PushedBy(step)) == d.events + s.channel + PushedBy(step);
    d' := AccountStep(d, s, step, s', d.events, rest[1..]);
  }

  lemma DrainPop<E, L>(d: Drain<E, L>, s: State<E, L>, rest: seq<Step<E, L>>) returns (d': Drain<E, L>)
    requires Midway(d, s, rest) && s.channel != []
    ensures Midway(d', Next(s, Pop), rest)
    ensures d'.start == d.start && d'.all == d.all && d'.events == d.events + [s.channel[0]]
  {
    var events := d.events + [s.channel[0]];
    assert s.channel == [s.channel[0]] + s.channel[1..];
    assert events + s.channel[1..] == d.events + s.channel + [];
    assert OtherStep<E, L>(Pop) + rest == rest;
    d' := AccountStep(d, s, Pop, Next(s, Pop), events, rest);
    SameForOthers(s, Next(s, Pop), rest);
  }

  lemma DrainEnds<E, L>(d: Drain<E, L>, s: State<E, L>, rest: seq<Step<E, L>>) returns (d': Drain<E, L>)
    requires Midway(d, s, rest) && s.channel == []
    ensures Accounted(d', Next(s, Finish), rest) && SameReceiver(d, d')
    ensures d'.events == d.start.channel + Pushed(d'.path)
  {
    assert d.events + [] + [] == d.events;
    assert OtherStep<E, L>(Finish) + rest == rest;
    d' := AccountStep(d, s, Finish, Next(s, Finish), d.events, rest);
  }

  /** A step of a thread that pushes an event or a message and reports it. */
  predicate IsOther<E, L>(step: Step<E, L>) {
    step.Push? || step.Log? || step.Swap? || step.Schedule?
  }

  /** Other threads can take these steps one after the other. */
  ghost predicate Plays<E, L>(s: State<E, L>, steps: seq<Step<E, L>>)
    decreases |steps|
  {
    steps != [] ==> IsOther(steps[0]) && Enabled(s, steps[0]) && Plays(Next(s, steps[0]), steps[1..])
  }

  /** What other threads can do depends on the flag and their own progress only, not on the channel. */
  lemma {:induction false} SameForOthers<E, L>(s: State<E, L>, s': State<E, L>, steps: seq<Step<E, L>>)
    requires s.flag == s'.flag && s.reporting == s'.reporting && s.winners == s'.winners && Plays(s, steps)
    ensures Plays(s', steps)
    decreases |steps|
  {
    if steps != [] { SameForOthers(Next(s, steps[0]), Next(s', steps[0]), steps[1..]); }
  }

  function PushedBy<E, L>(step: Step<E, L>): seq<E> {
    if step.Push? then [step.event] else []
  }

  /** The events pushed along a path. */
  function Pushed<E, L>(path: seq<Step<E, L>>): seq<E> {
    if path == [] then []
    else
      var last := path[|path| - 1];
      Pushed(path[..|path| - 1]) + PushedBy(last)
  }

  ghost function OtherStep<E, L>(step: Step<E, L>): seq<Step<E, L>> {
    if IsOther(step) then [step] else []
  }

  /** The steps of the path that were not those of the thread that drains. */
  ghost function OtherSteps<E, L>(path: seq<Step<E, L>>): seq<Step<E, L>> {
    if path == [] then []
    else
      var last := path[|path| - 1];
      OtherSteps(path[..|path| - 1]) + OtherStep(last)
  }

  function Joined<T>(parts: seq<seq<T>>): seq<T> {
    if parts == [] then [] else parts[0] + Joined(parts[1..])
  }

  lemma JoinedSplit<T>(parts: seq<seq<T>>, n: nat)
    requires n < |parts|
    ensures Joined(parts[n..]) == parts[n] + Joined(parts[n + 1..])
  {
    assert parts[n..][1..] == parts[n + 1..];
  }

  lemma ExtendRun<E, L>(run: seq<State<E, L>>, steps: seq<Step<E, L>>, step: Step<E, L>, s': State<E, L>)
    requires IsRun(run, steps) && Follows(run[|steps|], step, s')
    ensures IsRun(run + [s'], steps + [step])
  {
    var run', steps' := run + [s'], steps + [step];
    forall i | 0 <= i < |steps'| ensures Follows(run'[i], steps'[i], run'[i + 1]) {
      if i < |steps| { assert Follows(run[i], steps[i], run[i + 1]); }
    }
  }
}
