/** The Call of src/node/ringrtc/Service.ts as an object with setters, for its outgoing audio. */
module Calls {
  import opened CallAudio

  class Call {
    var callState: CallState
    var mediaSessionStarted: bool
    var outgoingAudioEnabled: bool
    /** Deferred commands, oldest first, and the native track they act on. */
    var tasks: seq<Task>
    var native: bool

    ghost function View(): Audio
      reads this
    {
      Audio(callState, mediaSessionStarted, outgoingAudioEnabled, tasks, native)
    }

    constructor (state: CallState)
      ensures View() == NewCall(state)
    {
      callState := state;
      mediaSessionStarted, outgoingAudioEnabled, tasks, native := false, false, [], false;
    }

    method SetCallState(to: CallState)
      modifies this
      ensures View() == Apply(old(View()), SetState(to))
    {
      if to == callState {
        return;
      }
      callState := to;
      if to == Accepted {
        if !mediaSessionStarted {
          tasks := tasks + [ApplySetting];
          mediaSessionStarted := true;
        }
      } else if to == Ended {
        tasks := tasks + [SetEnabled(false)];
        outgoingAudioEnabled := false;
        mediaSessionStarted := false;
      }
    }

    method SetOutgoingAudioMuted(muted: bool)
      modifies this`outgoingAudioEnabled, this`tasks
      ensures View() == Apply(old(View()), SetMuted(muted))
    {
      var enabled := !muted;
      if mediaSessionStarted && outgoingAudioEnabled != enabled {
        outgoingAudioEnabled := enabled;
        tasks := tasks + [SetEnabled(enabled)];
      } else {
        outgoingAudioEnabled := enabled;
      }
    }

    method MarkEnded()
      modifies this`callState
      ensures View() == Apply(old(View()), SetCallEnded)
    {
      callState := Ended;
    }

    /** The JavaScript engine runs every pending microtask, oldest first. */
    method RunMicrotasks()
      requires Settles(View())
      modifies this`tasks, this`native
      ensures View() == Drain(old(View()))
      ensures native == (mediaSessionStarted && outgoingAudioEnabled)
    {
      DrainSettles(View());
      while tasks != []
        invariant Drain(View()) == Drain(old(View()))
        decreases |tasks|
      {
        match tasks[0] {
          case ApplySetting => native := outgoingAudioEnabled;
          case SetEnabled(enabled) => native := enabled;
        }
        tasks := tasks[1..];
      }
    }
  }
}
