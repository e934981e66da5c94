# A verified model of RingRTC's reliable stream, event wake-up and call audio

The centre of the project is MRP, the "Modest Reliable Protocol" of the `mrp` crate: a sliding
window, a fragment merger and a stream state machine that together turn an unreliable packet service
into exactly-once, in-order delivery of whole messages. Three smaller protocols of the same
repository stand beside it: the wake-up of the JavaScript thread in `electron.rs`, the deferred audio
commands of a `Call` in `Service.ts`, and the messages that are fragmented, merged and handled.

`dafny verify dfyconfig.toml` checks everything.

## How it is laid out

- `Window.dfy`, `Merge.dfy`, `Endpoint.dfy`: window, merger and stream as values, one function per
  operation. `BufferWindow.dfy`, `MergeBuffer.dfy`, `MrpStream.dfy`: the same as objects with loops
  and updates in place, each method proved equal to the function on the value it stands for.
- `Polling.dfy`: what one poll of resend or ack sends and leaves behind.
- `Reassembly.dfy`: what the merger gives back for what a sender's calls put on the wire.
- `Node.dfy`: one endpoint, its application and its outgoing wire, and what every action keeps when
  arbitrary packets arrive. `Faults.dfy`: whole runs of one endpoint against an arbitrary peer, and
  life after a merge conflict. `Acks.dfy`: when it acknowledges.
- `Network.dfy`: two endpoints. Anything one side has ever transmitted may be delivered to the other
  at any time, any number of times, or never; this is loss, duplication and reordering.
  `Delivery.dfy`, `Recovery.dfy`: the results over all runs. `Refusals.dfy`: what a refused group costs.
- `Wakeup.dfy`, `CallEndpoint.dfy`: the wake-up protocol. `CallAudio.dfy`, `Call.dfy`: call audio.
  `Messages.dfy`: fragmenting and extending messages. `Transfer.dfy`: texts and messages
  submitted over whole runs. `Handling.dfy`: what the caller makes of the results of receive_and_merge.

## What is assumed

- A send callback that fails put nothing on the network; one that succeeds put exactly the packet it
  returns there. A resend carries the packet first sent.
- Callbacks are values: the answer of a callback is a function of its arguments and, for a resend, of
  how many packets that poll has already sent. Instants are natural numbers.
- Sequence numbers do not run out: an action that would hand out one beyond 64 bits is not taken. The
  protocol has no wrap-around. Within that bound nothing overflows (`Delivery.NoOverflow`).
- Groups are started only by `try_send_fragmented`. No relation between the two capacities is assumed
  except where stated: a receiver at least as large as the sender is exactly what being free of errors
  needs (`Delivery.ErrorFreeIff`), and one that accepts every announced group is exactly what merging
  without errors needs (`Delivery.MergeFailedIff`).
- The wake-up protocol is sequentially consistent, and JavaScript runs one callback at a time.

## What turned out false, and exactly when it holds

- A fragment group is delivered as sent if and only if its length fits in 32 bits, because the count is
  truncated by a cast: of the merger (`Reassembly.CallMergesIff`, `Reassembly.CallsMergeIff`) and of
  whole runs (`Delivery.MessagesDelivered`). `Recovery.LongGroupIsCutUp` reaches a state in which a group
  of 2^32 fragments was returned fragment by fragment. Such groups need a window beyond 2^32 slots.
- A failed JavaScript scheduling is ignored but leaves the flag set; afterwards no event is drained
  again (`Wakeup.FailureIsFinal`, `Wakeup.HandledIffNoFailure`, `Wakeup.FailureLosesEvent`).
- `setCallEnded` marks a call as ended without ending its media session, and a later `state = Ended`
  then returns early: the audio stays on exactly when it was on (`CallAudio.MarkedEndedIff`), as it does
  for an accepted, unmuted call (`CallAudio.MarkedEndedStaysOn`).
- A refused group costs more than itself: the error also discards what the same call had already merged,
  although it is released and acknowledged. So what is returned depends on the released packets alone if
  no announced group exceeds the receiver (`Delivery.ScheduleIndependent`), and on the order of arrival
  if one does (`Refusals.RefusalDependsOnOrder`).
- The loop over merged messages in `handle_sfu_to_device` returns after the first message with
  content, so the rest of what that call returned is not handled. Over a run everything is handled if and
  only if no arrival completes a message with content and then another message
  (`Handling.AllHandledIff`); where all messages have content, if and only if no arrival completes two
  (`Handling.ContentHandledIff`). Two packets that arrive at a new stream in order are both handled;
  arriving the other way round they are delivered just the same, but only the first is handled
  (`Handling.HandlingDependsOnOrder`).
- The comment on `num_packets` speaks of additional packets; the code counts the first one too, and
  the model follows the code.

## Model

| member | source | states |
|---|---|---|
| `Windows.PutIsUpdate` | mrp/src/window.rs:46-120 | put is accepted exactly from left to below left + capacity and within 64 bits, with the right error on either side, and then is map update that keeps the window well-formed |
| `Windows.DrainIsMaximalRun` | mrp/src/window.rs:124-144 | draining returns the maximal consecutive run from the left bound and leaves the rest of the map |
| `Windows.DropRestricts` | mrp/src/window.rs:148-153 | dropping restricts the map and moves the bound even past the stored elements |
| `Windows.ContentsDetermineWindow` | mrp/src/window.rs:18-22 | the last slot is never empty, so bounds and map determine the representation |
| `Windows.PutAtNext` | mrp/src/window.rs:66-74 | a window that is not full accepts the next sequence number, at the end |
| `BufferWindows.BufferWindow.constructor` | mrp/src/window.rs:29-39 | a new window is empty |
| `BufferWindows.BufferWindow.GetPosition` | mrp/src/window.rs:46-55 | a position exists exactly from left to below left + capacity and within 64 bits, and is the distance from left |
| `BufferWindows.BufferWindow.RightBounds` | mrp/src/window.rs:82-84 | the right bound saturates at the largest u64 |
| `BufferWindows.BufferWindow.MaxSeenSeqnum` | mrp/src/window.rs:72-74 | the result bounds every stored number and is stored, or the window is empty and it is one below the left bound |
| `BufferWindows.BufferWindow.Get` | mrp/src/window.rs:97-103 | an element is found exactly when the map has one within the bounds, and it is that one |
| `BufferWindows.BufferWindow.Put` | mrp/src/window.rs:108-120 | the growing loop and the store amount to the map update, or the error leaves all unchanged |
| `BufferWindows.BufferWindow.DrainFront` | mrp/src/window.rs:124-144 | the object releases exactly the maximal run and then starts with a gap |
| `BufferWindows.BufferWindow.DropFront` | mrp/src/window.rs:148-153 | the object drops and slides as the value does |
| `MergeBuffers.MergeBuffer.Create` | mrp/src/merge_buffer.rs:25-35 | no buffer for an empty group, an empty one otherwise |
| `MergeBuffers.MergeBuffer.Push` | mrp/src/merge_buffer.rs:52-59 | refuses exactly beyond the announced length and says whether the group is complete |
| `Reassembly.PieceWhole` | mrp/src/merge_buffer.rs:39-48 | a complete group comes out of the merger once, as its first fragment extended by the others in order, and leaves the merger idle |
| `Merging.MergeRunAppend` | mrp/src/stream.rs:169-230 | merging a concatenation of batches is merging them in turn, errors included: batching is invisible |
| `Merging.MergeRunKeepsInv` | mrp/src/stream.rs:184-223 | for arbitrary headers an open group has 1 <= len < length <= capacity and ends where the missing fragments will; InvalidMergeState is never returned |
| `Merging.MergeEndsIncrease` | mrp/src/stream.rs:219-223 | over any sequence of calls, errors included, the ends of all groups ever opened are strictly increasing and beyond the end recorded at the start |
| `Merging.ConflictStepIff` | mrp/src/stream.rs:192-194 | a packet of an open group is a conflict if and only if it announces a nonzero count |
| `Merging.MergeErrorsIff` | mrp/src/stream.rs:169-230 | from the headers alone and from any state between calls: a batch fails exactly if some packet announces a nonzero count inside an open group or an oversized one outside, at the first such packet and with its error |
| `Merging.UnnumberedIgnored` | mrp/src/stream.rs:175-180 | a packet without a number is ignored wherever it stands in a batch |
| `Merging.AfterConflict` | mrp/src/stream.rs:183-195 | after a conflict the later calls equal those of a new merger that sees nothing up to the abandoned group's end |
| `Merging.AfterInvalidNumPackets` | mrp/src/stream.rs:214-217 | InvalidNumPackets opens no drop region: later calls equal those of a new merger |
| `Reassembly.PrefixMerges` | mrp/src/stream.rs:169-230 | every prefix of a stream of pieces comes out as its complete pieces, merged, once and in order, with the unfinished part in the buffer |
| `Reassembly.CallMergesIff` | mrp/src/stream.rs:338-359 | the merger gives a call back as the message meant if and only if its fragments can be counted in 32 bits |
| `Reassembly.CallsMergeIff` | mrp/src/stream.rs:338-359 | the merger gives a whole sequence of calls back as its messages if and only if every group can be counted in 32 bits |
| `Reassembly.MergesWithoutErrorIff` | mrp/src/stream.rs:214-217 | the packets of a sequence of calls merge without error if and only if every announced count fits the receiver |
| `Reassembly.PrefixMergesIff` | mrp/src/stream.rs:214-217 | any first part of them merges without error if and only if no packet of it announces more than the capacity |
| `Merging.SameAtBothCapacities` | mrp/src/stream.rs:169-230 | two mergers of different capacities that both accept the packets give the same result and end in the same state |
| `Reassembly.EncodeConsecutive` | mrp/src/stream.rs:260-262 | the packets of any sequence of accepted calls are numbered 1, 2, 3, ... |
| `Endpoints.SendFrom` | mrp/src/stream.rs:348-356 | sending the remaining fragments moves the next sequence number by exactly their count and keeps the windows well-formed |
| `MrpStreams.MrpStream.constructor` | mrp/src/stream.rs:242-253 | a new stream is a new endpoint, which has nothing to acknowledge |
| `Acks.AckDueIff` | mrp/src/stream.rs:508-536 | at every point of every run an acknowledgement is due if and only if a data packet lay before the window or released something since the start or the last successful acknowledgement |
| `Acks.AckSentIff` | mrp/src/stream.rs:403-423 | an attempt to acknowledge transmits, with one more than the number of packets released, if and only if its callback succeeds and that is so; otherwise nothing |
| `MrpStreams.MrpStream.NextSeqnum` | mrp/src/stream.rs:260-262 | the next number is beyond everything held |
| `MrpStreams.MrpStream.TrySend` | mrp/src/stream.rs:300-329 | the method refines the endpoint's send; a full window and a failing callback are told apart, and either changes nothing; the `expect` cannot fire |
| `MrpStreams.MrpStream.TrySendFragmented` | mrp/src/stream.rs:338-359 | the loop refines the endpoint's fragmented send, is accepted exactly when a slot stays free, is otherwise refused as full without effect, and its `expect` cannot fire |
| `MrpStreams.MrpStream.TrySendAck` | mrp/src/stream.rs:403-423 | the method refines the endpoint's acknowledgement: nothing due, sent and failed are told apart, and only sending clears the request |
| `MrpStreams.MrpStream.TryResend` | mrp/src/stream.rs:428-450 | the loop refines the endpoint's resend: which packets go out, their new timers, and the stop at the first failure |
| `MrpStreams.MrpStream.ResendSlot` | mrp/src/stream.rs:434-446 | the loop body: a slot is skipped, sent again with a new timer, or fails, and the rest is resent as from the slot after it |
| `MrpStreams.MrpStream.UpdateSendWindow` | mrp/src/stream.rs:481-506 | impossible and old acks are ignored, others drop a prefix; the next number never moves |
| `MrpStreams.MrpStream.UpdateReceiverWindow` | mrp/src/stream.rs:508-536 | the method refines put, drain, re-acknowledge and refuse |
| `MrpStreams.MrpStream.Receive` | mrp/src/stream.rs:456-471 | the method refines the endpoint's receive, headerless packets included |
| `MrpStreams.MrpStream.ReceiveAndMerge` | mrp/src/stream.rs:152-167 | the method refines receive followed by merge |
| `MrpStreams.MrpStream.MergePackets` | mrp/src/stream.rs:169-230 | the loop with its early returns refines the merge of the whole batch |
| `MrpStreams.MrpStream.MergePacket` | mrp/src/stream.rs:178-226 | the loop body refines one merge step, aliasing of the buffer included; `Merging.ConflictStepIff` and `Merging.FirstPacket` say when that step fails |
| `Polling.ResendSendsDue` | mrp/src/stream.rs:428-450 | a poll sends exactly the expired packets in order, stopping before the first that its callback fails on, and reports InnerSendFailed exactly then |
| `Polling.ResendSlots` | mrp/src/stream.rs:433-446 | for any answers and every slot: a packet that went out has the callback's answer as its timer and one try more, and every other slot, a failed one included, is untouched |
| `Polling.FailedStaysDue` | mrp/src/stream.rs:442-444 | a packet whose callback failed is due again at every later poll |
| `Polling.ResendOncePerTimeout` | mrp/src/stream.rs:433-446 | with timeouts in the future, a second poll at the same instant sends and changes nothing |
| `Polling.AckOncePerReason` | mrp/src/stream.rs:403-423 | nothing due, sent with the next expected number and failed are told apart exactly; an ack goes out once per reason and stays pending exactly if its callback fails |
| `Polling.SendOutcome` | mrp/src/stream.rs:300-329 | why a send fails, full window first, and what a successful one appends: the callback's packet and timeout, one try, nothing else changed |
| `Polling.FragmentedOutcome` | mrp/src/stream.rs:338-359 | a fragmented send fails only for want of room and then changes nothing |
| `Nodes.SendKeepsInv` | mrp/src/stream.rs:300-329 | a send is accepted exactly when the callback succeeds and the window has room, and keeps the node invariant |
| `Nodes.SendFragmentsKeepsInv` | mrp/src/stream.rs:338-359 | a group is accepted exactly when it leaves a slot free, and keeps the node invariant |
| `Nodes.ResendKeepsInv` | mrp/src/stream.rs:428-450 | a resend keeps every held packet and transmits only held packets |
| `Nodes.AckArrivalKeepsSend` | mrp/src/stream.rs:481-506 | any acknowledgement, true or not, drops exactly a prefix of the window, and keeps the other packets with their timers |
| `Nodes.ArrivalEffect` | mrp/src/stream.rs:508-536 | what one data packet does to window, release, reply and ack request, in terms of the window's map |
| `Nodes.ActKeepsInv` | mrp/src/stream.rs:238-537 | every operation keeps the node invariant whatever packets arrive, and only advances |
| `Faults.AnyPeer` | mrp/src/stream.rs:456-536 | over every run against any peer: numbers handed out are 1, 2, ...; released numbers are exactly 1 .. ack-1; the window starts with a gap; merges can be finished |
| `Faults.OutcomesSplit` | mrp/src/stream.rs:152-167 | the results of any sequence of calls are the window's own replies and the merger's results on the released batches |
| `Faults.CallFailsIff` | mrp/src/stream.rs:152-230 | exactly when receive_and_merge reports a full window, a conflict or an invalid count, in terms of the arriving header and the headers of what it releases; InvalidMergeState never |
| `Faults.CallFailsIffInRun` | mrp/src/stream.rs:152-230 | the same for conflicts and counts at every point of every run of an endpoint against any peer |
| `Faults.AfterConflictCalls` | mrp/src/stream.rs:183-195 | after a call that reports a conflict, no later call returns anything of the abandoned group, and everything beyond it is handled as by a new merger |
| `Faults.AfterConflictInRun` | mrp/src/stream.rs:183-195 | the same at every point of every run of an endpoint against any peer |
| `Network.StepKeepsInv` | mrp/src/stream.rs:144-537 | every step of the two-endpoint system keeps the system invariant |
| `Network.ReachableInv` | mrp/src/stream.rs:144-537 | every state of every run satisfies it |
| `Delivery.ExactlyOnceInOrder` | mrp/src/stream.rs:456-536 | in every run, both directions, any capacities: what was returned is exactly the first ack-1 submitted payloads, in order |
| `Delivery.NoPrematureDrop` | mrp/src/stream.rs:481-506 | windows are ordered, acks in flight are truthful, and everything unreleased is still held by the sender |
| `Delivery.Regrouped` | mrp/src/stream.rs:152-230 | in every run, at any capacities, if the receiver accepts the announced groups: returned messages are the complete pieces so far, each once, and the merge buffer is exactly the arrived part of the unfinished one |
| `Delivery.MessagesDelivered` | mrp/src/stream.rs:338-359 | under the same condition receive_and_merge returns a prefix of the sender's messages, and, once all is released, all of them if and only if every group can be counted in 32 bits |
| `Delivery.ScheduleIndependent` | mrp/src/stream.rs:508-536 | two runs, of systems of any capacities and with any calls, that released the same packets returned the same and hold the same merge, provided merging receivers accept the announced groups |
| `Delivery.SameCallsSameOutput` | mrp/src/stream.rs:508-536 | so do two runs of any capacities whose receivers have come equally far, if the calls of one begin those of the other |
| `Delivery.NoErrors` | mrp/src/stream.rs:111-121 | with a receiver at least as large as the sender no error and no impossible ack ever occurs |
| `Delivery.ErrorFreeIff` | mrp/src/stream.rs:519-524 | no run fails if and only if the receiver is at least as large as the sender |
| `Delivery.MergeFailedIff` | mrp/src/stream.rs:169-230 | at every moment of every run a merging receiver has reported an error of its merger if and only if it has released a packet announcing more than its capacity; once all is released, if and only if not every announced group fits |
| `Refusals.RefusalDependsOnOrder` | mrp/src/stream.rs:174-226 | two runs with the same calls and the same packets released: a message before a refused group is returned in one and lost in the other |
| `Delivery.SmallReceiverOverruns` | mrp/src/stream.rs:523-523 | a run in which a smaller receiver reports ReceiveWindowFull |
| `Delivery.NoOverflow` | mrp/src/window.rs:72-84 | at any capacities and both ways of polling, left + len of all four windows and the end of a merge stay within 64 bits in every run |
| `Delivery.MirrorReachable` | mrp/src/stream.rs:97-109 | the two sides may be exchanged, so each result holds in both directions |
| `Recovery.ResendSendsAll` | mrp/src/stream.rs:428-450 | with all timers expired a resend transmits every held packet, once and in order |
| `Recovery.ResendIsUnackedTail` | mrp/src/stream.rs:428-450 | once all timers have expired and its callbacks succeed, a resend transmits exactly the packets not yet acknowledged, once and in order |
| `Recovery.RoundMovesOn` | mrp/src/stream.rs:403-536 | a round in which all that the resend transmits arrives, in any order, brings the receiver to the end or at least its capacity further, and the sender to the receiver |
| `Recovery.RoundsRecover` | mrp/src/stream.rs:403-536 | from every reachable state, at any capacities, as many loss-free rounds as the receiver's window needs for what is missing deliver everything and empty the send window |
| `Recovery.OneRoundRecovers` | mrp/src/stream.rs:403-536 | for a receiver as large as the sender one round is enough |
| `Recovery.LossFreeRoundExists` | mrp/src/stream.rs:428-450 | such a round is possible in every state, with nothing but the packets of its resend arriving |
| `Recovery.LongGroupIsCutUp` | mrp/src/stream.rs:338-359 | a reachable state in which a group of 2^32 fragments was returned fragment by fragment |
| `Wakeup.NextKeepsInv` | src/rust/src/electron.rs:220-228 | every atomic step keeps the token count, the conservation of events and the wake-up condition |
| `Wakeup.NoLostWakeup` | src/rust/src/electron.rs:441-482 | over every interleaving one wake-up is pending exactly when the flag is set, events are drained once in order, and whatever waits is awaited |
| `Wakeup.NeverStuck` | src/rust/src/electron.rs:441-482 | while a wake-up is awaited some step other than new work is possible |
| `Wakeup.CallbackOrder` | src/rust/src/electron.rs:455-470 | over every interleaving callbacks never overlap; each clears the flag, then takes the log messages, then drains, and ends only on an empty channel |
| `Wakeup.RunsDry` | src/rust/src/electron.rs:2384-2402 | without new work every continuation ends within a bounded number of steps with everything handled |
| `Wakeup.FailureIsFinal` | src/rust/src/electron.rs:449-454 | after a failed scheduling, once idle, nothing is ever drained again |
| `Wakeup.HandledIffNoFailure` | src/rust/src/electron.rs:445-454 | an event pushed while idle is handled at rest if and only if no scheduling failed before |
| `Wakeup.FailureLosesEvent` | src/rust/src/electron.rs:449-454 | an interleaving in which one failed scheduling loses an event |
| `CallEndpoints.CallEndpoint.PushEvent` | src/rust/src/electron.rs:220-224 | pushing is the protocol's push step |
| `CallEndpoints.CallEndpoint.PushLog` | src/rust/src/electron.rs:106-110 | pushing a log message is the protocol's log step |
| `CallEndpoints.CallEndpoint.SwapReported` | src/rust/src/electron.rs:445-447 | the swap is the protocol's step and tells the caller whether it has to schedule |
| `CallEndpoints.CallEndpoint.ScheduleCallback` | src/rust/src/electron.rs:452-454 | scheduling, successful or not, is the protocol's step |
| `CallEndpoints.CallEndpoint.ClearReported` | src/rust/src/electron.rs:455-459 | the callback clears the flag before it drains |
| `CallEndpoints.CallEndpoint.TakeLogMessages` | src/rust/src/electron.rs:2384-2396 | all log messages so far are taken |
| `CallEndpoints.CallEndpoint.ReceiveEvents` | src/rust/src/electron.rs:2398-2400 | whatever steps other threads take between its attempts, the draining loop returns the channel and everything pushed meanwhile, in order, leaves the channel empty, and is a run of the protocol |
| `CallEndpoints.SameForOthers` | src/rust/src/electron.rs:220-228 | what other threads can do next does not depend on the channel, so draining never hinders them |
| `CallAudio.ApplyKeepsSettles` | src/node/ringrtc/Service.ts:2156-2244 | every operation keeps what the queue will come to |
| `CallAudio.NativeFollowsUser` | src/node/ringrtc/Service.ts:2156-2244 | over every interleaving, draining leaves native audio off without a session and equal to the user's last request with one |
| `CallAudio.HistoryTells` | src/node/ringrtc/Service.ts:2156-2244 | state, session and setting from the history alone: a session lasts from entering Accepted to entering Ended, and nothing else starts or ends one |
| `CallAudio.AudioOnIff` | src/node/ringrtc/Service.ts:2156-2244 | over every interleaving, drained audio is on if and only if a session lasts and the last mute request since the call last entered Ended asked for audio |
| `CallAudio.SilentUntilUnmuted` | src/node/ringrtc/Service.ts:2178-2188 | having entered Ended, a call is silent until audio is asked for again, even if accepted again |
| `CallAudio.CommandsIssued` | src/node/ringrtc/Service.ts:2164-2244 | which native command each operation defers, by the history before it; commands run oldest first and nothing else changes the track |
| `CallAudio.EndedMeansNoSession` | src/node/ringrtc/Service.ts:2178-2188 | a call that ends through its state has no session and, drained, no audio |
| `CallAudio.MarkedEndedIff` | src/node/ringrtc/Service.ts:2195-2197 | after setCallEnded audio stays on exactly when a session had it on, and ending the state changes nothing |
| `CallAudio.MarkedEndedStaysOn` | src/node/ringrtc/Service.ts:2156-2197 | an accepted, unmuted call marked as ended and then set to Ended has its audio on |
| `Calls.Call.SetCallState` | src/node/ringrtc/Service.ts:2156-2193 | the setter is the model's state change, early return included; `CallAudio.HistoryTells` says what that does to the session |
| `Calls.Call.SetOutgoingAudioMuted` | src/node/ringrtc/Service.ts:2233-2244 | the setter is the model's mute |
| `Calls.Call.MarkEnded` | src/node/ringrtc/Service.ts:2195-2197 | only the state changes |
| `Calls.Call.RunMicrotasks` | src/node/ringrtc/Service.ts:3388-3395 | running all deferred commands, oldest first, leaves native audio as session and setting say |
| `SfuMessages.Extend` | src/rust/src/protobuf.rs:12-33 | a message whose header announces a count, whatever the count, gets its content followed by those of all messages that have one; any other is left alone |
| `SfuMessages.ExtendSplits` | src/rust/src/protobuf.rs:43-57 | extending by a list equals extending by any split of it |
| `SfuMessages.MergesAreExtendable` | mrp/src/stream.rs:210-223 | when messages agree with their headers no merge is skipped by the guard, whatever arrives |
| `SfuMessages.GroupIsConcatenated` | src/rust/src/protobuf.rs:35-57 | a merged group is its first message with all contents in order |
| `SfuMessages.MergedContentIff` | src/rust/src/protobuf.rs:11-33 | without agreement of headers, a merged group holds all contents exactly when its first message can be extended or the others have nothing to add; here the first always can, because the header comes from the message |
| `SfuMessages.FragmentsRoundTrip` | src/rust/src/core/group_call.rs:4264-4295 | a message cut into chunks and sent under its packets' headers is merged back to the same bytes; no bytes give no fragments, which try_send_fragmented accepts and the call site, limited to messages above the fragment size, never passes |
| `Transfer.ItemsDelivered` | src/rust/src/core/group_call.rs:4230-4295 | in every run whose sender submits texts in chunks and messages between them, each under the header it is really given: what is returned is a prefix of what was submitted, in order and each once, without empty texts, and all of it once all is released |
| `Handling.HandleReady` | src/rust/src/core/group_call.rs:4412-4432 | the loop handles a prefix in which only the last message may have content, and has it if any message is left |
| `Handling.HandledReaches` | src/rust/src/core/group_call.rs:4412-4432 | the same of the function that the results over runs use |
| `Handling.HandledAllIff` | src/rust/src/core/group_call.rs:4412-4432 | what one call returned is handled in full if and only if content occurs only at its end |
| `Handling.HandledOfIff` | src/rust/src/core/group_call.rs:4412-4432 | of any sequence of results all messages are handled if and only if that holds of every one that is not an error |
| `Handling.AllHandledIff` | src/rust/src/core/group_call.rs:4404-4432 | in every run to a receiver that accepts the groups, every message returned is handled if and only if no arrival releases packets that complete a message with content and then another one |
| `Handling.ContentHandledIff` | src/rust/src/core/group_call.rs:4404-4432 | where everything submitted has content, if and only if no arrival completes two messages at once |
| `Handling.HandlingDependsOnOrder` | src/rust/src/core/group_call.rs:4404-4432 | two packets arriving at a new stream in order or reversed deliver the same messages, but if the first has content both are handled only in order |

## Left out

- Instants, threads and callback internals: time is a number, callbacks are their answers.
- `try_count` is kept as an unbounded number and `transmit`, which is always false, is dropped: neither decides anything.
- The memory layout of the deque and its initial capacity, which have no visible effect.
- `PacketWrapper`'s own Extend: the merger is proved for every Extend implementation, and the protobuf ones are modelled.
- One stream polled now with `receive` and now with `receive_and_merge`: each application here keeps to one of them.
- Stream use by a caller that sets `num_packets` itself in `try_send`, as one test does: groups here come from `try_send_fragmented`.
- Weak memory orderings, re-creation of the `CallEndpoint`, and handlers that throw.
- Several calls sharing the one native audio track, outgoing video and screen sharing.
- Decoding of contents after a merge, RTP headers and the SFU itself, whose source is not part of this model.
- The rest of `electron.rs`, `native.rs`, `Service.ts` and `group_call.rs`, the call simulator and build tooling: marshalling, forwarding and I/O.
