# Single-slot delay actor (gosd `delayer.go`) in Dafny

The project models the delay actor of `delayer.go`. It takes one scheduled message at a time, waits until the message's release time or until it is cancelled, and then forwards the payload to an egress channel. When built with `respondIdleState`, it then sends an idle notification.

The Go code uses a goroutine, a timer and channels. Underneath them is a small deterministic state machine, and the model has three layers:

- `DelaySpec` (`delay_spec.dfy`) is the actor as a value, a `Snapshot`. It holds:
  - the state, `Idle` or `Waiting`;
  - the `respondIdleState` flag;
  - the cancel channel as a one-slot buffer, `cancelSlot: Option<bool>`;
  - the message held by the running goroutine, `pending`;
  - `sends`, every send on the egress and idle channels in the order it happened.

  `EgressOf` and `IdleOf` give what each channel has received. `Next` is one step of the actor: a `stop` or `wait` call, or one of the two branches of the goroutine's `select`. The race between the timer and a cancel signal is the choice between the events `TimerExpired` and `CancelReceived`. Go's `select` picks at random when both are ready, so both events are enabled whenever the actor is `Waiting` and the buffer is full.
- `DelayTraces` (`delay_traces.dfy`) applies sequences of events with `Run` and proves what holds over any run. Each `wait` starts exactly one cycle. Each cycle ends in exactly one release step. A cycle sends its own payload at most once, then one idle notification if configured, in that order.
- `Delayer` (`delayer.dfy`) is the class `Delay`, whose fields are the ones `delay` updates in place. Its methods are `Stop`, `Wait` and `Available`, plus `TimerFires` and `CancelArrives` for the two `select` branches. Each method proves that it takes exactly the `Next` step, and it also states its new fields directly. Each method also appends its event to a ghost history `events`. `Valid()` requires that running `events` on a new delay gives the object's current state. `Delayer.ObjectReleasesEachCycleAtMostOnce` uses this to carry the trace lemmas over to any object that satisfies `Valid()`.

`wait` (`delayer.go:46-48`) does not empty the cancel buffer. So when a `stop` loses the race to the timer, the next cycle takes the signal it left as its own cancel. `DelayTraces.StaleCancelEndsNextCycle` shows this on a five-step run. With `stop(false)`, the second message is dropped, although no `stop` was issued during its cycle.

## Model

| member | source | states |
|---|---|---|
| Delayer.Delay.constructor | delayer.go:29-35 | A new delay is `Idle` because `Idle` is the zero value of `delayState`. Its cancel buffer, of capacity one, is empty, and nothing has been sent. |
| Delayer.Delay.Available | delayer.go:78-80 | Returns true exactly when the state is `Idle`. It changes nothing. |
| Delayer.Delay.Stop | delayer.go:39-43 | While not `Waiting`, the object is unchanged: no signal, no egress, no idle notification. While `Waiting`, exactly `drain` goes into the empty one-slot buffer and nothing else changes. This is the `Next` step for `StopCalled`. |
| Delayer.Delay.Wait | delayer.go:46-47 | Only on an `Idle` actor. It makes the actor `Waiting` (unavailable), holds `msg` for the cycle, sends nothing, and leaves a leftover cancel signal in the buffer. |
| Delayer.Delay.TimerFires | delayer.go:65-71 | The payload of the held message is appended to egress once. The state becomes `Idle`. One idle notification is appended iff `respondIdleState`. The cancel buffer is untouched. |
| Delayer.Delay.CancelArrives | delayer.go:53-64 | The signal is taken from the buffer, which becomes empty. The payload is appended to egress iff the signal says drain. The state becomes `Idle`. One idle notification follows iff `respondIdleState`. |
| Delayer.Delay.EndCycle | delayer.go:56-69 | The end of a cycle, shared by both branches. The held payload is appended to egress iff `deliver`, the state becomes `Idle`, then one idle notification follows iff `respondIdleState`. The log gains exactly that cycle's sends. |
| Delayer.Delay.Record | delayer.go:39-72 | The ghost history grows by the step just taken. Running the history on a new delay still gives the object's state. |
| Delayer.ObjectReleasesEachCycleAtMostOnce | delayer.go:29-80 | For any valid object, egress holds the released payloads of its completed cycles in `Wait` order, so there are at most as many as `Wait` calls. Idle holds one notification per completed cycle iff configured. |
| Delayer.Delay.Send | delayer.go:57 | One channel send: appends to `egress` or to `idle` and records the send in the interleaved log. |
| DelaySpec.Next | delayer.go:39-72 | One step of the actor:<br>- `stop` while not `Waiting` changes nothing.<br>- `stop` while `Waiting` only fills the slot with `drain`.<br>- `wait` makes the actor unavailable, holds the message, sends nothing and keeps the slot.<br>- Only a release step (timer or cancel) makes a waiting actor available again.<br>- Timer expiry leaves the buffer alone; a received cancel empties it.<br>- The invariant "`Waiting` iff a message is held" is kept. |
| DelaySpec.ReleaseSends | delayer.go:53-71 | What a release step sends:<br>- Timer expiry delivers the held payload exactly once.<br>- A cancel delivers it iff its signal is `drain = true`.<br>- Either way, exactly one idle notification follows iff `respondIdleState`.<br>- Earlier sends are untouched.<br>- Within the new sends, no payload follows the notification. |
| DelaySpec.CycleSendsShape | delayer.go:56-69 | The sends of one cycle put at most its own payload on egress, and one notification on the idle channel iff configured. |
| DelaySpec.AppendCycle | delayer.go:56-69 | Appending a cycle's sends adds exactly that cycle's payload (if released) to egress and its notification (if configured) to idle. Earlier sends stay in place. |
| DelaySpec.AppendCycleNoticeLast | delayer.go:56-69 | Within a cycle's sends, the idle notification comes after the payload. |
| DelaySpec.EgressOfAppend | delayer.go:57 | What the egress channel receives from two stretches of sends is what it receives from each, in order. |
| DelaySpec.IdleOfAppend | delayer.go:61 | The same for the idle channel. |
| DelayTraces.RunIsSequenceOfCycles | delayer.go:46-75 | Any run from an `Idle` actor leaves its sends as a sequence of whole cycles, one per `wait` call in call order. Each cycle holds its own message's payload at most once, then a notification iff configured. If the actor is still `Waiting`, it holds the last message given to `wait`. |
| DelayTraces.StepKeepsCycles | delayer.go:39-72 | Every step, whichever way the race goes, keeps a run made of whole cycles. |
| DelayTraces.SendlessStepKeepsCycles | delayer.go:39-48 | A `stop` or `wait` step sends nothing, so the completed cycles are unchanged. |
| DelayTraces.CompleteCycle | delayer.go:50-72 | A release step turns the cycle in progress into a completed cycle with its outcome. |
| DelayTraces.CyclesAppend | delayer.go:50-72 | One more completed cycle appends exactly its own sends after those of the earlier cycles. |
| DelayTraces.CyclesEgress | delayer.go:53-71 | Over completed cycles, egress receives exactly the released payloads, in the order of the `wait` calls. |
| DelayTraces.CyclesIdle | delayer.go:59-69 | Over completed cycles, idle receives one notification per cycle iff configured, and none otherwise. |
| DelayTraces.CyclesNoticeFollows | delayer.go:56-69 | When configured, each payload is immediately followed by its cycle's idle notification. |
| DelayTraces.KeptAtMostOnePerCycle | delayer.go:50-72 | There are at most as many released payloads as cycles: `|Kept(msgs, released)| <= |msgs|`. |
| DelayTraces.EachCycleReleasesAtMostOnce | delayer.go:29-80 | From a new actor, over any run: egress receives exactly the payloads of the completed cycles that released theirs, in `wait` order, so at most one payload per `wait`. Idle receives one notification per completed cycle iff configured, and none otherwise. Each notification comes right after its cycle's payload. |
| DelayTraces.StaleCancelEndsNextCycle | delayer.go:39-48 | Take `wait(m1)`, `stop(false)`, timer expiry, `wait(m2)`, then the stale cancel being received. This run ends `Idle` with an empty buffer, and egress has received only `m1`'s payload. |
| DelayTraces.RunAppend | delayer.go:39-72 | A run extended by one enabled event ends in the state that event leads to. |

## Left out

- Real time: `time.NewTimer` and `msg.At.Sub(time.Now())` (`delayer.go:48`). Expiry is the abstract event `TimerExpired`, which may happen at any point while `Waiting`. The release time `at` is carried but never read. A release time in the past therefore needs no special case.
- Goroutines, and the unsynchronised reads and writes of `state` across goroutines. Steps are interleaved one at a time, each atomic. So `stop` always sees the state the last step left, and a `stop` that reads a stale `Waiting` is not modelled.
- Blocking and backpressure of the sends on the egress and idle channels. A send is an append to a sequence.
- Delayer.Delay.Stop: does not model a `stop` while `Waiting` with the buffer full, because the Go send (`delayer.go:41`) then blocks the caller. The model requires the buffer to be empty while `Waiting`. This excludes any `stop` in a cycle that starts with a leftover signal. In Go such a `stop` waits until the leftover signal ends the cycle, and its own signal then ends the next cycle.
- The release branch (`delayer.go:53-71`) is one atomic step in the model. In the source it is three actions: the payload send (`:57`/`:66`), `state = Idle` (`:59`/`:67`), and the idle send (`:61`/`:69`). Either send can block. Two behaviours are lost:
  - While the payload send blocks, the state is still `Waiting`. A `stop` at that moment puts a signal in the buffer, and that signal ends the next cycle. For example, Go can run `wait(m1)`, `stop(true)`, then a second `stop(false)` while the goroutine is blocked at `:57`. Once the goroutine finishes, `wait(m2)` starts a cycle that the second signal cancels, and `m2` is dropped. The model always delivers `m2` for those calls: there, the second `stop` is either not enabled (buffer full) or a no-op after the release.
  - `state = Idle` comes before the idle send, so a new cycle can start and send its payload before this cycle's notification. `NoticeFollowsEachPayload`, which puts each notification right after its payload, holds only because the step is fused.
- The closed-channel branch (`ok == false`, `delayer.go:54`). Nothing in the code closes the cancel channel, so the model has no such event.
- Calling `wait` while `Waiting`, which the code neither guards nor defines. `Wait` requires `Idle`.
- The Go type `ScheduledMessage` is defined outside `delayer.go`, and its definition is not part of this model. `DelaySpec.ScheduledMessage` models it as an opaque payload plus an integer release time.
- The channel handles passed to `newDelay` are the `egress` and `idle` sequences. The model does not capture that callers own them and may share them between actors.
