/** Runs of one delay actor: sequences of events applied one after another.
    The main result, `RunIsSequenceOfCycles`, says that whatever the calls and
    whichever way each race goes, the actor's output is the concatenation, in
    order, of one cycle per completed `wait`: that cycle's own payload at most
    once, then one idle notification if configured. */
module DelayTraces {
  import opened DelaySpec

  /** Applies the events in order; `None` if some event is not enabled when
      its turn comes. */
  function Run<P>(s: Snapshot<P>, es: seq<Event<P>>): Option<Snapshot<P>>
    decreases |es|
  {
    if es == [] then Some(s)
    else
      match Run(s, es[..|es| - 1])
      case None => None
      case Some(u) =>
        if Enabled(u, es[|es| - 1]) then Some(Next(u, es[|es| - 1])) else None
  }

  /** The messages handed to `wait`, in order. */
  function Waited<P>(es: seq<Event<P>>): seq<ScheduledMessage<P>>
    decreases |es|
  {
    if es == [] then []
    else
      Waited(es[..|es| - 1]) +
      (match es[|es| - 1]
       case WaitCalled(m) => [m]
       case _ => [])
  }

  /** The output of a sequence of completed cycles: cycle `k` handles
      `msgs[k]` and releases its payload iff `released[k]`. */
  function Cycles<P>(msgs: seq<ScheduledMessage<P>>, released: seq<bool>, respond: bool): seq<Send<P>>
    requires |msgs| == |released|
    decreases |msgs|
  {
    if msgs == [] then []
    else
      var n := |msgs| - 1;
      Cycles(msgs[..n], released[..n], respond) + CycleSends(msgs[n].message, released[n], respond)
  }

  /** The messages whose cycle has completed after a run that started `Idle`. */
  function Completed<P>(ws: seq<ScheduledMessage<P>>, state: DelayState): seq<ScheduledMessage<P>> {
    if state == Waiting && ws != [] then ws[..|ws| - 1] else ws
  }

  /** `u`, reached from the `Idle` actor `s` by runs that called `wait` with
      `ws`, is made of whole cycles: every message of `ws` has had its cycle,
      in order, except the last one if `u` is still `Waiting`, which is the
      message its goroutine holds. */
  ghost predicate MadeOfCycles<P>(s: Snapshot<P>, ws: seq<ScheduledMessage<P>>, u: Snapshot<P>) {
    Inv(u) && u.respondIdleState == s.respondIdleState &&
    (u.state == Waiting ==> ws != [] && u.pending == Some(ws[|ws| - 1])) &&
    exists released: seq<bool> :: CycleOutcomes(s, ws, u, released)
  }

  /** `released` gives the outcome of each completed cycle, and the sends of
      `u` are those of `s` followed by the sends of those cycles. */
  ghost predicate CycleOutcomes<P>(s: Snapshot<P>, ws: seq<ScheduledMessage<P>>, u: Snapshot<P>, released: seq<bool>) {
    |released| == |Completed(ws, u.state)| &&
    u.sends == s.sends + Cycles(Completed(ws, u.state), released, s.respondIdleState)
  }

  /** Every run from an `Idle` actor is a sequence of whole wait cycles, one
      per `wait` call, possibly followed by the cycle still in progress, which
      holds the last message given to `wait`. */
  lemma {:induction false} RunIsSequenceOfCycles<P>(s: Snapshot<P>, es: seq<Event<P>>, t: Snapshot<P>)
    requires Inv(s) && s.state == Idle
    requires Run(s, es) == Some(t)
    ensures MadeOfCycles(s, Waited(es), t)
    decreases |es|
  {
    if es == [] {
      assert t == s;
      assert CycleOutcomes(s, [], t, []);
    } else {
      var n := |es| - 1;
      assert es[..|es| - 1] == es[..n];
      assert Run(s, es[..n]).Some?;
      var u := Run(s, es[..n]).value;
      RunIsSequenceOfCycles(s, es[..n], u);
      StepKeepsCycles(s, Waited(es[..n]), u, es[n]);
    }
  }

  /** One step keeps a run made of whole cycles. */
  lemma StepKeepsCycles<P>(s: Snapshot<P>, ws: seq<ScheduledMessage<P>>, u: Snapshot<P>, e: Event<P>)
    requires MadeOfCycles(s, ws, u) && Enabled(u, e)
    ensures MadeOfCycles(s, ws + (if e.WaitCalled? then [e.msg] else []), Next(u, e))
  {
    var r :| CycleOutcomes(s, ws, u, r);
    var t := Next(u, e);
    match e
    case StopCalled(_) =>
      assert ws + [] == ws;
      SendlessStepKeepsCycles(s, ws, u, t, r);
      assert CycleOutcomes(s, ws, t, r);
    case WaitCalled(m) =>
      var ws' := ws + [m];
      assert Completed(ws', Waiting) == ws by { assert ws'[..|ws'| - 1] == ws; }
      SendlessStepKeepsCycles(s, ws, u, t, r);
      assert CycleOutcomes(s, ws', t, r);
    case TimerExpired =>
      assert ws + [] == ws;
      CompleteCycle(s, u, t, ws, r, true);
      assert CycleOutcomes(s, ws, t, r + [true]);
    case CancelReceived =>
      assert ws + [] == ws;
      CompleteCycle(s, u, t, ws, r, u.cancelSlot.value);
      assert CycleOutcomes(s, ws, t, r + [u.cancelSlot.value]);
  }

  /** A step that sends nothing (a `stop`, or a `wait` whose message becomes
      the cycle in progress) keeps the completed cycles as they are. */
  lemma SendlessStepKeepsCycles<P>(s: Snapshot<P>, ws: seq<ScheduledMessage<P>>, u: Snapshot<P>, t: Snapshot<P>, r: seq<bool>)
    requires |r| == |Completed(ws, u.state)|
    requires u.sends == s.sends + Cycles(Completed(ws, u.state), r, s.respondIdleState)
    requires t.sends == u.sends
    ensures exists released: seq<bool> ::
      |released| == |Completed(ws, u.state)| &&
      t.sends == s.sends + Cycles(Completed(ws, u.state), released, s.respondIdleState)
  {
  }

  /** The step of `RunIsSequenceOfCycles` for a release: the cycle in
      progress joins the completed ones, with `delivered` as its outcome. */
  lemma CompleteCycle<P>(s: Snapshot<P>, u: Snapshot<P>, t: Snapshot<P>,
                         ws: seq<ScheduledMessage<P>>, r: seq<bool>, delivered: bool)
    requires u.state == Waiting && ws != [] && u.pending == Some(ws[|ws| - 1])
    requires |r| == |ws| - 1
    requires u.sends == s.sends + Cycles(ws[..|ws| - 1], r, s.respondIdleState)
    requires u.respondIdleState == s.respondIdleState
    requires t.state == Idle
    requires t.sends == u.sends + CycleSends(u.pending.value.message, delivered, u.respondIdleState)
    ensures Completed(ws, t.state) == ws
    ensures t.sends == s.sends + Cycles(ws, r + [delivered], s.respondIdleState)
  {
    var prev := Cycles(ws[..|ws| - 1], r, s.respondIdleState);
    CyclesAppend(ws, r, delivered, s.respondIdleState);
    assert t.sends == (s.sends + prev) + CycleSends(ws[|ws| - 1].message, delivered, s.respondIdleState);
  }

  /** Adding one more cycle to the completed ones appends its sends. */
  lemma CyclesAppend<P>(ws: seq<ScheduledMessage<P>>, r: seq<bool>, delivered: bool, respond: bool)
    requires ws != [] && |r| == |ws| - 1
    ensures Cycles(ws, r + [delivered], respond)
      == Cycles(ws[..|ws| - 1], r, respond) + CycleSends(ws[|ws| - 1].message, delivered, respond)
  {
    var rr := r + [delivered];
    assert rr[..|ws| - 1] == r && rr[|ws| - 1] == delivered;
  }

  /** The payloads of the cycles that released theirs, in cycle order. */
  function Kept<P>(msgs: seq<ScheduledMessage<P>>, released: seq<bool>): seq<P>
    requires |msgs| == |released|
    decreases |msgs|
  {
    if msgs == [] then []
    else
      var n := |msgs| - 1;
      Kept(msgs[..n], released[..n]) + (if released[n] then [msgs[n].message] else [])
  }

  /** Every payload is immediately followed by an idle notification. */
  predicate NoticeFollowsEachPayload<P>(sends: seq<Send<P>>) {
    forall i :: 0 <= i < |sends| && sends[i].Egress? ==> i + 1 < |sends| && sends[i + 1].IdleNotice?
  }

  /** The egress channel receives exactly the released payloads, in cycle
      order. */
  lemma {:induction false} CyclesEgress<P>(msgs: seq<ScheduledMessage<P>>, released: seq<bool>, respond: bool)
    requires |msgs| == |released|
    ensures EgressOf(Cycles(msgs, released, respond)) == Kept(msgs, released)
    decreases |msgs|
  {
    if msgs != [] {
      var n := |msgs| - 1;
      CyclesEgress(msgs[..n], released[..n], respond);
      AppendCycle(Cycles(msgs[..n], released[..n], respond), msgs[n].message, released[n], respond);
    }
  }

  /** The idle channel receives one notification per cycle when configured,
      and none otherwise. */
  lemma {:induction false} CyclesIdle<P>(msgs: seq<ScheduledMessage<P>>, released: seq<bool>, respond: bool)
    requires |msgs| == |released|
    ensures IdleOf(Cycles(msgs, released, respond)) == if respond then seq(|msgs|, _ => true) else []
    decreases |msgs|
  {
    if msgs != [] {
      var n := |msgs| - 1;
      CyclesIdle(msgs[..n], released[..n], respond);
      AppendCycle(Cycles(msgs[..n], released[..n], respond), msgs[n].message, released[n], respond);
    }
  }

  /** When configured, each payload is followed at once by its cycle's
      notification. */
  lemma {:induction false} CyclesNoticeFollows<P>(msgs: seq<ScheduledMessage<P>>, released: seq<bool>, respond: bool)
    requires |msgs| == |released| && respond
    ensures NoticeFollowsEachPayload(Cycles(msgs, released, respond))
    decreases |msgs|
  {
    if msgs != [] {
      var n := |msgs| - 1;
      var prev := Cycles(msgs[..n], released[..n], respond);
      var last := CycleSends(msgs[n].message, released[n], respond);
      CyclesNoticeFollows(msgs[..n], released[..n], respond);
      var c := prev + last;
      assert Cycles(msgs, released, respond) == c;
      assert last == if released[n] then [Egress(msgs[n].message), IdleNotice] else [IdleNotice];
      forall i | 0 <= i < |c| && c[i].Egress?
        ensures i + 1 < |c| && c[i + 1].IdleNotice?
      {
        if i < |prev| {
          assert prev[i].Egress?;
        }
      }
    }
  }

  /** No cycle releases more than one payload. */
  lemma {:induction false} KeptAtMostOnePerCycle<P>(msgs: seq<ScheduledMessage<P>>, released: seq<bool>)
    requires |msgs| == |released|
    ensures |Kept(msgs, released)| <= |msgs|
    decreases |msgs|
  {
    if msgs != [] {
      var n := |msgs| - 1;
      KeptAtMostOnePerCycle(msgs[..n], released[..n]);
    }
  }

  /** From a fresh actor, over any run: the egress channel receives the
      payloads of some of the completed cycles, in `wait` order, so at most
      one payload per `wait`; and the idle channel exactly one notification
      per completed cycle when configured (none otherwise), each right after
      its cycle's payload if there was one. */
  lemma EachCycleReleasesAtMostOnce<P>(respond: bool, es: seq<Event<P>>, t: Snapshot<P>)
    requires Run(NewDelay(respond), es) == Some(t)
    ensures exists released: seq<bool> ::
      |released| == |Completed(Waited(es), t.state)| &&
      EgressOf(t.sends) == Kept(Completed(Waited(es), t.state), released)
    ensures |EgressOf(t.sends)| <= |Waited(es)|
    ensures |IdleOf(t.sends)| == if respond then |Completed(Waited(es), t.state)| else 0
    ensures respond ==> NoticeFollowsEachPayload(t.sends)
  {
    var s: Snapshot<P> := NewDelay(respond);
    RunIsSequenceOfCycles(s, es, t);
    var done := Completed(Waited(es), t.state);
    var r :| CycleOutcomes(s, Waited(es), t, r);
    assert |done| <= |Waited(es)|;
    assert t.sends == Cycles(done, r, respond) by { assert s.sends == []; }
    CyclesEgress(done, r, respond);
    CyclesIdle(done, r, respond);
    if respond {
      CyclesNoticeFollows(done, r, respond);
    }
    KeptAtMostOnePerCycle(done, r);
    assert |r| == |done| && EgressOf(t.sends) == Kept(done, r);
  }

  /** `wait` does not empty the cancel buffer.  A `stop(false)` that loses
      the race to the timer leaves its signal there, and the next cycle takes
      it as its own cancel: the second message is dropped although no `stop`
      was issued during its cycle. */
  lemma StaleCancelEndsNextCycle<P>(respond: bool, m1: ScheduledMessage<P>, m2: ScheduledMessage<P>)
    ensures var es := [WaitCalled(m1), StopCalled(false), TimerExpired, WaitCalled(m2), CancelReceived];
      Run(NewDelay(respond), es).Some? &&
      Run(NewDelay(respond), es).value.state == Idle &&
      Run(NewDelay(respond), es).value.cancelSlot == None &&
      EgressOf(Run(NewDelay(respond), es).value.sends) == [m1.message]
  {
    var s0: Snapshot<P> := NewDelay(respond);
    var e1: seq<Event<P>> := [WaitCalled(m1)];
    var e2 := e1 + [StopCalled(false)];
    var e3 := e2 + [TimerExpired];
    var e4 := e3 + [WaitCalled(m2)];
    var e5 := e4 + [CancelReceived];
    assert e5 == [WaitCalled(m1), StopCalled(false), TimerExpired, WaitCalled(m2), CancelReceived];
    var s1 := Next(s0, WaitCalled(m1));
    assert [] + e1 == e1;
    RunAppend(s0, [], WaitCalled(m1), s0);
    var s2 := Next(s1, StopCalled(false));
    RunAppend(s0, e1, StopCalled(false), s1);
    assert s2.cancelSlot == Some(false);
    var s3 := Next(s2, TimerExpired);
    RunAppend(s0, e2, TimerExpired, s2);
    ReleaseSends(s2, TimerExpired);
    assert s3.state == Idle && s3.cancelSlot == Some(false) && EgressOf(s3.sends) == [m1.message];
    var s4 := Next(s3, WaitCalled(m2));
    RunAppend(s0, e3, WaitCalled(m2), s3);
    var s5 := Next(s4, CancelReceived);
    RunAppend(s0, e4, CancelReceived, s4);
    ReleaseSends(s4, CancelReceived);
    assert s5.state == Idle && s5.cancelSlot == None && EgressOf(s5.sends) == [m1.message];
  }

  /** A run extended by one enabled event ends where that event leads. */
  lemma RunAppend<P>(s: Snapshot<P>, es: seq<Event<P>>, e: Event<P>, u: Snapshot<P>)
    requires Run(s, es) == Some(u) && Enabled(u, e)
    ensures Run(s, es + [e]) == Some(Next(u, e))
  {
    assert (es + [e])[..|es|] == es;
  }
}
