/** The delay actor of delayer.go as a value: its state, its one-slot cancel
    buffer, the message of the active wait cycle and, in the order they happen,
    the sends it has made on its egress and idle channels.  One step of the
    actor is one `Event`; the race inside the goroutine's `select` is the
    choice between the two release events `TimerExpired` and `CancelReceived`. */
module DelaySpec {

  datatype Option<T> = None | Some(value: T)

  /** `Idle` is the zero value, so a fresh delay starts there. */
  datatype DelayState = Idle | Waiting

  /** An opaque payload with its release time (abstract clock ticks). */
  datatype ScheduledMessage<P> = ScheduledMessage(message: P, at: int)

  /** One send on one of the two output channels. */
  datatype Send<P> = Egress(payload: P) | IdleNotice

  /** The whole observable state of one delay actor. `cancelSlot` is the
      buffered cancel channel of capacity one; `pending` is the message the
      running goroutine holds; `sends` is everything written so far to the
      egress and idle channels, interleaved in the order it was written. */
  datatype Snapshot<P> = Snapshot(
    state: DelayState,
    respondIdleState: bool,
    cancelSlot: Option<bool>,
    pending: Option<ScheduledMessage<P>>,
    sends: seq<Send<P>>)

  /** The calls and goroutine steps that can happen to one actor. */
  datatype Event<P> =
    | StopCalled(drain: bool)
    | WaitCalled(msg: ScheduledMessage<P>)
    | TimerExpired
    | CancelReceived

  /** What the egress channel has received. */
  function EgressOf<P>(sends: seq<Send<P>>): seq<P>
    decreases |sends|
  {
    if sends == [] then []
    else
      EgressOf(sends[..|sends| - 1]) +
      (match sends[|sends| - 1]
       case Egress(p) => [p]
       case IdleNotice => [])
  }

  /** What the idle channel has received. */
  function IdleOf<P>(sends: seq<Send<P>>): seq<bool>
    decreases |sends|
  {
    if sends == [] then []
    else
      IdleOf(sends[..|sends| - 1]) +
      (match sends[|sends| - 1]
       case Egress(_) => []
       case IdleNotice => [true])
  }

  lemma {:induction false} EgressOfAppend<P>(xs: seq<Send<P>>, ys: seq<Send<P>>)
    ensures EgressOf(xs + ys) == EgressOf(xs) + EgressOf(ys)
    decreases |ys|
  {
    if ys == [] {
      assert xs + ys == xs;
    } else {
      var n := |ys| - 1;
      EgressOfAppend(xs, ys[..n]);
      assert (xs + ys)[..|xs + ys| - 1] == xs + ys[..n];
    }
  }

  lemma {:induction false} IdleOfAppend<P>(xs: seq<Send<P>>, ys: seq<Send<P>>)
    ensures IdleOf(xs + ys) == IdleOf(xs) + IdleOf(ys)
    decreases |ys|
  {
    if ys == [] {
      assert xs + ys == xs;
    } else {
      var n := |ys| - 1;
      IdleOfAppend(xs, ys[..n]);
      assert (xs + ys)[..|xs + ys| - 1] == xs + ys[..n];
    }
  }

  /** No send at or after position `from` is a payload that follows an idle
      notification: within that stretch, notifications come last. */
  predicate IdleComesLast<P>(sends: seq<Send<P>>, from: int) {
    forall i, j :: 0 <= from <= i < j < |sends| && sends[i].IdleNotice? ==> !sends[j].Egress?
  }

  /** The sends of one completed wait cycle: the payload if it is released,
      then the idle notification if the actor was built to send them. */
  function CycleSends<P>(m: P, delivered: bool, respond: bool): seq<Send<P>> {
    (if delivered then [Egress(m)] else []) + (if respond then [IdleNotice] else [])
  }

  lemma CycleSendsShape<P>(m: P, delivered: bool, respond: bool)
    ensures EgressOf(CycleSends(m, delivered, respond)) == if delivered then [m] else []
    ensures IdleOf(CycleSends(m, delivered, respond)) == if respond then [true] else []
  {
    var c := CycleSends(m, delivered, respond);
    if delivered && respond {
      assert c == [Egress(m), IdleNotice] && c[..1] == [Egress(m)] && c[..1][..0] == [];
      assert IdleOf(c[..1]) == [] && EgressOf(c[..1]) == [m];
    } else if delivered {
      assert c == [Egress(m)] && c[..0] == [];
    } else if respond {
      assert c == [IdleNotice] && c[..0] == [];
    } else {
      assert c == [];
    }
  }

  /** Appending one cycle's sends to a log: each channel gains that cycle's
      part, and earlier sends stay where they were. */
  lemma AppendCycle<P>(xs: seq<Send<P>>, m: P, delivered: bool, respond: bool)
    ensures EgressOf(xs + CycleSends(m, delivered, respond)) == EgressOf(xs) + (if delivered then [m] else [])
    ensures IdleOf(xs + CycleSends(m, delivered, respond)) == IdleOf(xs) + (if respond then [true] else [])
    ensures (xs + CycleSends(m, delivered, respond))[..|xs|] == xs
  {
    CycleSendsShape(m, delivered, respond);
    EgressOfAppend(xs, CycleSends(m, delivered, respond));
    IdleOfAppend(xs, CycleSends(m, delivered, respond));
  }

  /** Within the sends of a cycle appended to a log, the notification comes last. */
  lemma AppendCycleNoticeLast<P>(xs: seq<Send<P>>, m: P, delivered: bool, respond: bool)
    ensures IdleComesLast(xs + CycleSends(m, delivered, respond), |xs|)
  {
    var out := CycleSends(m, delivered, respond);
    var all := xs + out;
    assert |out| <= 2 && (|out| == 2 ==> out[0].Egress?);
    forall i, j | |xs| <= i < j < |all| && all[i].IdleNotice?
      ensures !all[j].Egress?
    {
      assert all[i] == out[i - |xs|] && all[j] == out[j - |xs|];
    }
  }

  /** The actor is free for a new message exactly when it is `Idle`. */
  predicate IsAvailable<P>(s: Snapshot<P>) {
    s.state == Idle
  }

  /** A goroutine holds a message exactly while the actor is `Waiting`. */
  predicate Inv<P>(s: Snapshot<P>) {
    (s.state == Waiting) == s.pending.Some?
  }

  /** The state right after construction: `Idle`, empty cancel buffer, nothing sent. */
  function NewDelay<P>(respondIdleState: bool): Snapshot<P> {
    Snapshot(Idle, respondIdleState, None, None, [])
  }

  /** When an event may happen.  `stop` while `Waiting` would block its caller
      on a full cancel buffer, so it needs the slot empty; `wait` is only
      defined on an `Idle` actor; the goroutine's two branches need a running
      wait cycle, and the cancel branch a signal in the buffer. */
  predicate Enabled<P>(s: Snapshot<P>, e: Event<P>) {
    match e
    case StopCalled(_) => s.state == Waiting ==> s.cancelSlot.None?
    case WaitCalled(_) => s.state == Idle
    case TimerExpired => s.state == Waiting && s.pending.Some?
    case CancelReceived => s.state == Waiting && s.pending.Some? && s.cancelSlot.Some?
  }

  /** The release step of a cycle: the payload goes to egress if `deliver`,
      the state becomes `Idle`, and then an idle notification follows if
      configured.  The cancel buffer is left as it is. */
  function Release<P>(s: Snapshot<P>, deliver: bool): Snapshot<P>
    requires s.pending.Some?
  {
    s.(state := Idle, pending := None,
       sends := s.sends + CycleSends(s.pending.value.message, deliver, s.respondIdleState))
  }

  /** One step of the actor. */
  function Next<P>(s: Snapshot<P>, e: Event<P>): (t: Snapshot<P>)
    requires Enabled(s, e)
    ensures t.respondIdleState == s.respondIdleState
    ensures Inv(s) ==> Inv(t)
    // stop while not Waiting changes nothing at all
    ensures e.StopCalled? && s.state != Waiting ==> t == s
    // stop while Waiting puts exactly `drain` in the slot and sends nothing
    ensures e.StopCalled? && s.state == Waiting ==>
      t.cancelSlot == Some(e.drain) && t.state == Waiting && t.pending == s.pending && t.sends == s.sends
    // wait makes the actor unavailable, sends nothing and leaves the slot as it was
    ensures e.WaitCalled? ==>
      !IsAvailable(t) && t.pending == Some(e.msg) && t.sends == s.sends && t.cancelSlot == s.cancelSlot
    // only a release step makes a waiting actor available again
    ensures !IsAvailable(s) && IsAvailable(t) <==> e.TimerExpired? || e.CancelReceived?
    // a release leaves no message held; only a cancel empties the buffer
    ensures e.TimerExpired? ==> t.pending == None && t.cancelSlot == s.cancelSlot
    ensures e.CancelReceived? ==> t.pending == None && t.cancelSlot == None
  {
    match e
    case StopCalled(drain) => if s.state == Waiting then s.(cancelSlot := Some(drain)) else s
    case WaitCalled(msg) => s.(state := Waiting, pending := Some(msg))
    case TimerExpired => Release(s, true)
    case CancelReceived => Release(s.(cancelSlot := None), s.cancelSlot.value)
  }

  /** What a release step sends.  Timer expiry delivers the payload exactly
      once; a cancel delivers it iff the signal says drain; either way one
      idle notification follows iff configured, after the payload, and
      nothing sent before is touched. */
  lemma ReleaseSends<P>(s: Snapshot<P>, e: Event<P>)
    requires Enabled(s, e) && (e.TimerExpired? || e.CancelReceived?)
    ensures var delivered := e.TimerExpired? || s.cancelSlot.value;
      EgressOf(Next(s, e).sends) == EgressOf(s.sends) + (if delivered then [s.pending.value.message] else [])
    ensures IdleOf(Next(s, e).sends) == IdleOf(s.sends) + (if s.respondIdleState then [true] else [])
    ensures |s.sends| <= |Next(s, e).sends| && Next(s, e).sends[..|s.sends|] == s.sends
    ensures IdleComesLast(Next(s, e).sends, |s.sends|)
  {
    var delivered := e.TimerExpired? || s.cancelSlot.value;
    assert Next(s, e).sends == s.sends + CycleSends(s.pending.value.message, delivered, s.respondIdleState);
    AppendCycle(s.sends, s.pending.value.message, delivered, s.respondIdleState);
    AppendCycleNoticeLast(s.sends, s.pending.value.message, delivered, s.respondIdleState);
  }
}
