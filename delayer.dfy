/** The delay actor of delayer.go as an object.  `Stop`, `Wait` and
    `Available` are the three methods callers use.  `TimerFires` and
    `CancelArrives` are the two branches of the goroutine's `select`; each
    ends the cycle that `Wait` began.  Every method takes the step that
    `DelaySpec.Next` describes and records it in the ghost history `events`,
    and `Valid()` says the object is what running that history on a new
    delay gives, so the lemmas of `DelayTraces` apply to the object. */
module Delayer {
  import opened DelaySpec
  import opened DelayTraces

  class Delay<P> {
    var state: DelayState
    const respondIdleState: bool
    /** The cancel channel, a buffer of capacity one. */
    var cancelSlot: Option<bool>
    /** The message held by the goroutine of the cycle in progress. */
    var pending: Option<ScheduledMessage<P>>
    /** What has been sent on the egress channel. */
    var egress: seq<P>
    /** What has been sent on the idle channel. */
    var idle: seq<bool>
    /** Both channels' sends, in the order they were made. */
    ghost var sends: seq<Send<P>>
    /** Every call and goroutine step so far, in order. */
    ghost var events: seq<Event<P>>

    ghost predicate Valid()
      reads this
    {
      egress == EgressOf(sends) && idle == IdleOf(sends) && Inv(Abs()) &&
      Run(NewDelay(respondIdleState), events) == Some(Abs())
    }

    /** The object's state as a `DelaySpec.Snapshot`. */
    ghost function Abs(): Snapshot<P>
      reads this
    {
      Snapshot(state, respondIdleState, cancelSlot, pending, sends)
    }

    /** A new delay is `Idle` (the zero value of the state), with an empty
        cancel buffer and nothing sent. */
    constructor (respondIdleState: bool)
      ensures Valid() && Abs() == NewDelay(respondIdleState)
      ensures state == Idle && cancelSlot == None && egress == [] && idle == []
    {
      state := Idle;
      this.respondIdleState := respondIdleState;
      cancelSlot := None;
      pending := None;
      egress := [];
      idle := [];
      sends := [];
      events := [];
    }

    /** Free for a new message exactly when `Idle`. */
    method Available() returns (b: bool)
      ensures b <==> IsAvailable(Abs())
    {
      b := state == Idle;
    }

    /** Signals the cycle in progress to end, releasing its payload if `drain`;
        does nothing when no cycle is in progress.  A full buffer would block
        the caller, so it must be empty while `Waiting`. */
    method Stop(drain: bool)
      requires Valid()
      requires state == Waiting ==> cancelSlot == None
      modifies this
      ensures Valid() && Abs() == Next(old(Abs()), StopCalled(drain))
      ensures events == old(events) + [StopCalled(drain)]
      ensures old(state) != Waiting ==> Abs() == old(Abs())
      ensures state == old(state) && pending == old(pending)
      ensures egress == old(egress) && idle == old(idle) && sends == old(sends)
      ensures cancelSlot == if old(state) == Waiting then Some(drain) else old(cancelSlot)
    {
      if state == Waiting {
        cancelSlot := Some(drain);
      }
      Record(old(Abs()), StopCalled(drain));
    }

    /** Begins a wait cycle for `msg`.  The cancel buffer is not emptied. */
    method Wait(msg: ScheduledMessage<P>)
      requires Valid() && state == Idle
      modifies this
      ensures Valid() && Abs() == Next(old(Abs()), WaitCalled(msg))
      ensures events == old(events) + [WaitCalled(msg)]
      ensures state == Waiting && pending == Some(msg) && cancelSlot == old(cancelSlot)
      ensures egress == old(egress) && idle == old(idle) && sends == old(sends)
    {
      state := Waiting;
      pending := Some(msg);
      Record(old(Abs()), WaitCalled(msg));
    }

    /** The timer branch: send the payload, go `Idle`, then notify if configured. */
    method TimerFires()
      requires Valid() && state == Waiting
      modifies this
      ensures Valid() && Abs() == Next(old(Abs()), TimerExpired)
      ensures events == old(events) + [TimerExpired]
      ensures state == Idle && pending == None && cancelSlot == old(cancelSlot)
      ensures egress == old(egress) + [old(pending).value.message]
      ensures idle == old(idle) + if respondIdleState then [true] else []
    {
      ghost var before := Abs();
      EndCycle(true);
      Record(before, TimerExpired);
    }

    /** The cancel branch: take the signal from the buffer, stop the timer,
        send the payload only if the signal says drain, go `Idle`, then
        notify if configured. */
    method CancelArrives()
      requires Valid() && state == Waiting && cancelSlot.Some?
      modifies this
      ensures Valid() && Abs() == Next(old(Abs()), CancelReceived)
      ensures events == old(events) + [CancelReceived]
      ensures state == Idle && pending == None && cancelSlot == None
      ensures egress == old(egress) + if old(cancelSlot).value then [old(pending).value.message] else []
      ensures idle == old(idle) + if respondIdleState then [true] else []
    {
      ghost var before := Abs();
      var drain := cancelSlot.value;
      cancelSlot := None;
      EndCycle(drain);
      Record(before, CancelReceived);
    }

    /** The end of a cycle, shared by both branches: the held payload is
        sent if `deliver`, the state becomes `Idle`, and then the idle
        notification is sent if configured. */
    method EndCycle(deliver: bool)
      requires pending.Some? && egress == EgressOf(sends) && idle == IdleOf(sends)
      modifies this
      ensures egress == EgressOf(sends) && idle == IdleOf(sends)
      ensures sends == old(sends) + CycleSends(old(pending).value.message, deliver, respondIdleState)
      ensures egress == old(egress) + if deliver then [old(pending).value.message] else []
      ensures idle == old(idle) + if respondIdleState then [true] else []
      ensures state == Idle && pending == None && cancelSlot == old(cancelSlot) && events == old(events)
    {
      var m := pending.value.message;
      ghost var payload: seq<Send<P>> := if deliver then [Egress(m)] else [];
      if deliver {
        Send(Egress(m));
      }
      assert sends == old(sends) + payload;
      assert egress == old(egress) + if deliver then [m] else [];
      assert idle == old(idle);
      state := Idle;
      pending := None;
      if respondIdleState {
        Send(IdleNotice);
      }
      assert sends == old(sends) + payload + if respondIdleState then [IdleNotice] else [];
    }

    /** One send on the channel `x` names. */
    method Send(x: Send<P>)
      requires egress == EgressOf(sends) && idle == IdleOf(sends)
      modifies this
      ensures egress == EgressOf(sends) && idle == IdleOf(sends)
      ensures sends == old(sends) + [x]
      ensures egress == old(egress) + (if x.Egress? then [x.payload] else [])
      ensures idle == old(idle) + (if x.IdleNotice? then [true] else [])
      ensures state == old(state) && pending == old(pending) && cancelSlot == old(cancelSlot)
      ensures events == old(events)
    {
      match x {
        case Egress(p) => egress := egress + [p];
        case IdleNotice => idle := idle + [true];
      }
      sends := sends + [x];
      assert sends[..|sends| - 1] == old(sends);
    }

    /** Appends the step just taken to the history: the history was a run
        of a new delay up to the state before `e`, and the object is now in
        the state `e` leads to. */
    ghost method Record(before: Snapshot<P>, e: Event<P>)
      requires Run(NewDelay(respondIdleState), events) == Some(before)
      requires Enabled(before, e) && Abs() == Next(before, e)
      modifies this`events
      ensures events == old(events) + [e]
      ensures Run(NewDelay(respondIdleState), events) == Some(Abs())
    {
      events := events + [e];
      assert events[..|events| - 1] == old(events);
    }
  }

  /** What the trace lemmas say of one object: its egress channel has
      received the payloads of some of its completed cycles, in the order of
      its `Wait` calls; its idle channel one notification per completed cycle
      when configured and none otherwise. */
  lemma ObjectReleasesEachCycleAtMostOnce<P>(d: Delay<P>)
    requires d.Valid()
    ensures exists released: seq<bool> ::
      |released| == |Completed(Waited(d.events), d.state)| &&
      d.egress == Kept(Completed(Waited(d.events), d.state), released)
    ensures |d.egress| <= |Waited(d.events)|
    ensures |d.idle| == if d.respondIdleState then |Completed(Waited(d.events), d.state)| else 0
  {
    EachCycleReleasesAtMostOnce(d.respondIdleState, d.events, d.Abs());
  }
}
