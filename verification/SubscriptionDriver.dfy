/** The kpimon subscription driver in full interleaving: the retry loop's sends and armings, one at a time, among the
    responses, timers and polls of what it has armed so far. */
module SubscriptionDriver {
  import Timers = SubscriptionTimers
  import opened Subscription

  type TimerEvent = Timers.Event

  // Where the retry loop is: between attempts, about to send to the head of its list, having sent and about to arm
  // it, or done.
  datatype Phase = Waiting | Sending | Arming | Done(err: bool)

  datatype Driver = Driver(ranList: seq<string>, count: nat, phase: Phase, timers: Timers.State)

  // Background: a response or failure handler, a timer or a poll.
  datatype Event = Attempt(encodes: bool) | Send(outcome: Sending) | ArmHead | Background(ev: TimerEvent)

  function Start(rans: seq<string>): Driver { Driver(rans, 0, Waiting, Timers.INIT) }

  // The loop after an attempt that failed.
  function Failed(d: Driver): Driver {
    d.(phase := if d.count < MAX_SUBSCRIPTION_ATTEMPTS then Waiting else Done(true))
  }

  // The loop before its next send: an empty list ends the attempt, and the driver, without error.
  function Onward(d: Driver): Driver {
    d.(phase := if d.ranList == [] then Done(false) else Sending)
  }

  function Step(d: Driver, ev: Event): Driver {
    match ev
    case Attempt(encodes) =>
      if !d.phase.Waiting? then d else
      var d1 := d.(count := d.count + 1);
      if encodes then Onward(d1) else Failed(d1)
    case Send(outcome) =>
      if !d.phase.Sending? then d else if outcome == Sent then d.(phase := Arming) else Failed(d)
    case ArmHead =>
      if !d.phase.Arming? || d.ranList == [] then d else
      Onward(d.(ranList := d.ranList[1..], timers := Timers.Step(d.timers, Timers.Arm(d.ranList[0]))))
    case Background(e) => if e.Arm? then d else d.(timers := Timers.Step(d.timers, e))
  }

  function After(rans: seq<string>, evs: seq<Event>): Driver {
    if evs == [] then Start(rans) else Step(After(rans, evs[..|evs| - 1]), evs[|evs| - 1])
  }

  // What a step does to the timers.
  function TimerEvents(d: Driver, ev: Event): seq<TimerEvent> {
    match ev
    case ArmHead => if !d.phase.Arming? || d.ranList == [] then [] else [Timers.Arm(d.ranList[0])]
    case Background(e) => if e.Arm? then [] else [e]
    case _ => []
  }

  // The run of the timers inside a run of the driver.
  function TimerRun(rans: seq<string>, evs: seq<Event>): seq<TimerEvent> {
    if evs == [] then []
    else TimerRun(rans, evs[..|evs| - 1]) + TimerEvents(After(rans, evs[..|evs| - 1]), evs[|evs| - 1])
  }

  lemma TimersMove(d: Driver, ev: Event)
    ensures |TimerEvents(d, ev)| <= 1
    ensures Step(d, ev).timers ==
            if TimerEvents(d, ev) == [] then d.timers else Timers.Step(d.timers, TimerEvents(d, ev)[0])
  {
  }

  lemma TimersStep(d: Driver, ev: Event, run: seq<TimerEvent>)
    requires d.timers == Timers.After(run)
    ensures Step(d, ev).timers == Timers.After(run + TimerEvents(d, ev))
  {
    var moved := TimerEvents(d, ev);
    TimersMove(d, ev);
    if moved == [] {
      assert run + moved == run;
    } else {
      assert moved == [moved[0]];
      Timers.AfterAppend(run, moved[0]);
    }
  }

  lemma ArmedAppend(run: seq<TimerEvent>, e: TimerEvent)
    ensures Timers.Armed(run + [e]) == Timers.Armed(run) + if e.Arm? then [e.ran] else []
  {
    assert (run + [e])[..|run|] == run;
  }

  lemma ArmedOne(e: TimerEvent)
    ensures Timers.Armed([e]) == if e.Arm? then [e.ran] else []
  {
    assert [] + [e] == [e];
    ArmedAppend([], e);
  }

  lemma ListMove(d: Driver, ev: Event)
    ensures |TimerEvents(d, ev)| <= 1
    ensures d.ranList == Timers.Armed(TimerEvents(d, ev)) + Step(d, ev).ranList
  {
    if ev.ArmHead? && d.phase.Arming? && d.ranList != [] {
      ArmedOne(Timers.Arm(d.ranList[0]));
      assert Step(d, ev).ranList == d.ranList[1..];
    } else {
      if ev.Background? && !ev.ev.Arm? {
        ArmedOne(ev.ev);
      }
      assert Step(d, ev).ranList == d.ranList;
    }
  }

  lemma ArmedSplits(run: seq<TimerEvent>, moved: seq<TimerEvent>)
    requires |moved| <= 1
    ensures Timers.Armed(run + moved) == Timers.Armed(run) + Timers.Armed(moved)
  {
    if moved == [] {
      assert run + moved == run;
    } else {
      assert moved == [moved[0]] == [] + [moved[0]];
      ArmedAppend(run, moved[0]);
      ArmedAppend([], moved[0]);
    }
  }

  lemma ListStep(d: Driver, ev: Event, run: seq<TimerEvent>)
    ensures Timers.Armed(run + TimerEvents(d, ev)) + Step(d, ev).ranList == Timers.Armed(run) + d.ranList
  {
    ListMove(d, ev);
    ArmedSplits(run, TimerEvents(d, ev));
    SumAssociates(Timers.Armed(run), Timers.Armed(TimerEvents(d, ev)), Step(d, ev).ranList);
  }

  lemma SumAssociates(a: seq<string>, b: seq<string>, c: seq<string>)
    ensures a + b + c == a + (b + c)
  {
  }

  // The loop ends with an empty list or with a failed last attempt, and a list it works on is not empty.
  predicate LoopFits(d: Driver) {
    && d.count <= 100
    && (d.phase.Waiting? ==> d.count < 100)
    && (d.phase.Sending? || d.phase.Arming? ==> d.ranList != [])
    && (d.phase.Done? ==> if d.phase.err then d.count == 100 else d.ranList == [])
  }

  lemma LoopFitsStep(d: Driver, ev: Event)
    requires LoopFits(d)
    ensures LoopFits(Step(d, ev))
  {
  }

  /** In every interleaving: the names armed so far followed by the list still to do are the original list in order,
      the timers are those of the run inside, and the loop ends within the attempt limit with an empty list or a
      failed last attempt. */
  lemma {:induction false} DriverKeepsList(rans: seq<string>, evs: seq<Event>)
    ensures Timers.Armed(TimerRun(rans, evs)) + After(rans, evs).ranList == rans
    ensures After(rans, evs).timers == Timers.After(TimerRun(rans, evs))
    ensures LoopFits(After(rans, evs))
  {
    if evs != [] {
      var before, ev := evs[..|evs| - 1], evs[|evs| - 1];
      DriverKeepsList(rans, before);
      TimersStep(After(rans, before), ev, TimerRun(rans, before));
      ListStep(After(rans, before), ev, TimerRun(rans, before));
      LoopFitsStep(After(rans, before), ev);
    }
  }

  // Runs of the driver that arm a prefix of the list and then let something else happen

  function SendAndArm(n: nat): seq<Event> {
    if n == 0 then [Attempt(true)] else SendAndArm(n - 1) + [Send(Sent), ArmHead]
  }

  lemma AfterAppend(rans: seq<string>, evs: seq<Event>, ev: Event)
    ensures After(rans, evs + [ev]) == Step(After(rans, evs), ev)
    ensures TimerRun(rans, evs + [ev]) == TimerRun(rans, evs) + TimerEvents(After(rans, evs), ev)
  {
    assert (evs + [ev])[..|evs|] == evs;
  }

  lemma ArmAllOneMore(rans: seq<string>, n: nat)
    requires n < |rans|
    ensures Timers.ArmAll(rans[..n + 1]) ==
            Timers.ArmAll(rans[..n]) + [Timers.Arm(rans[n])]
  {
  }

  // One successful send and its arming.
  lemma SendThenArm(rans: seq<string>, evs: seq<Event>)
    requires After(rans, evs).phase.Sending? && After(rans, evs).ranList != []
    ensures var d, next := After(rans, evs), evs + [Send(Sent), ArmHead];
            && After(rans, next).ranList == d.ranList[1..] && After(rans, next).count == d.count
            && After(rans, next).phase == (if |d.ranList| == 1 then Done(false) else Sending)
            && TimerRun(rans, next) == TimerRun(rans, evs) + [Timers.Arm(d.ranList[0])]
  {
    AfterAppend(rans, evs, Send(Sent));
    AfterAppend(rans, evs + [Send(Sent)], ArmHead);
    assert evs + [Send(Sent)] + [ArmHead] == evs + [Send(Sent), ArmHead];
    assert TimerRun(rans, evs) + [] == TimerRun(rans, evs);
  }

  // The driver after n sends that all succeed.
  predicate SentAndArmed(rans: seq<string>, evs: seq<Event>, n: nat)
    requires n <= |rans|
  {
    var d := After(rans, evs);
    && d.ranList == rans[n..] && d.count == 1 && d.phase == (if n == |rans| then Done(false) else Sending)
    && TimerRun(rans, evs) == Timers.ArmAll(rans[..n])
  }

  lemma AttemptFirst(rans: seq<string>)
    ensures SentAndArmed(rans, [Attempt(true)], 0)
  {
    assert [] + [Attempt(true)] == [Attempt(true)];
    AfterAppend(rans, [], Attempt(true));
    assert rans[0..] == rans;
  }

  lemma OneMoreSent(rans: seq<string>, evs: seq<Event>, n: nat)
    requires n < |rans| && SentAndArmed(rans, evs, n)
    ensures SentAndArmed(rans, evs + [Send(Sent), ArmHead], n + 1)
  {
    SendThenArm(rans, evs);
    ArmAllOneMore(rans, n);
    assert rans[n..][1..] == rans[n + 1..] && rans[n..][0] == rans[n];
  }

  lemma {:induction false} AfterSendAndArm(rans: seq<string>, n: nat)
    requires n <= |rans|
    ensures SentAndArmed(rans, SendAndArm(n), n)
  {
    if n == 0 {
      AttemptFirst(rans);
    } else {
      AfterSendAndArm(rans, n - 1);
      OneMoreSent(rans, SendAndArm(n - 1), n - 1);
    }
  }

  lemma AppendBackground(rans: seq<string>, evs: seq<Event>, e: TimerEvent)
    requires !e.Arm?
    ensures TimerRun(rans, evs + [Background(e)]) == TimerRun(rans, evs) + [e]
  {
    AfterAppend(rans, evs, Background(e));
  }

  // The driver run around the interleaving in which a repeated name loses its response.
  lemma LosingRun(rans: seq<string>, i: nat, j: nat) returns (evs: seq<Event>)
    requires i < j < |rans|
    ensures TimerRun(rans, evs) == Timers.LostResponse(rans, i, j)
  {
    var e := SendAndArm(j + 1);
    AfterSendAndArm(rans, j + 1);
    AppendBackground(rans, e, Timers.Response(rans[i]));
    evs := e + [Background(Timers.Response(rans[i]))];
    AppendBackground(rans, evs, Timers.Poll(i));
    evs := evs + [Background(Timers.Poll(i))];
    AppendBackground(rans, evs, Timers.Timer(j));
    evs := evs + [Background(Timers.Timer(j))];
  }

  /** The driver gives only right verdicts in every interleaving of its sends, failures and retries with responses,
      timers and polls, exactly when its list has no name twice. */
  lemma DriverVerdictsRightIff(rans: seq<string>)
    ensures Timers.Distinct(rans) <==>
            forall evs :: Timers.VerdictsRight(TimerRun(rans, evs))
  {
    if Timers.Distinct(rans) {
      forall evs
        ensures Timers.VerdictsRight(TimerRun(rans, evs))
      {
        DriverKeepsList(rans, evs);
        assert Timers.Armed(TimerRun(rans, evs)) <= rans;
        Timers.VerdictsRightIffDistinct(rans);
      }
    } else {
      var i, j :| 0 <= i < j < |rans| && rans[i] == rans[j];
      Timers.LostResponseIsWrong(rans, i, j);
      var evs := LosingRun(rans, i, j);
      assert !Timers.VerdictsRight(TimerRun(rans, evs));
    }
  }

  // The undisturbed loop

  /** An attempt with nothing between its steps leaves what one call of the send loop leaves: n sends succeed, the list
      is shorter by n and those n are armed in order. */
  lemma UndisturbedAttempt(rans: seq<string>, n: nat)
    requires n <= |rans|
    ensures var d := After(rans, SendAndArm(n));
            d.ranList == rans[n..] && d.timers == ArmList(Timers.INIT, rans[..n])
  {
    AfterSendAndArm(rans, n);
    DriverKeepsList(rans, SendAndArm(n));
    ArmListIsRun(rans[..n]);
  }

  /** If its next send fails in either way, or the trigger does not encode, the loop waits for another attempt with the
      list and the timers it has. */
  lemma FailedAttemptWaits(rans: seq<string>, n: nat, outcome: Sending)
    requires n < |rans| && outcome != Sent
    ensures After(rans, SendAndArm(n) + [Send(outcome)]) == After(rans, SendAndArm(n)).(phase := Waiting)
    ensures After(rans, [Attempt(false)]) == Start(rans).(count := 1)
  {
    AfterSendAndArm(rans, n);
    AfterAppend(rans, SendAndArm(n), Send(outcome));
    AfterAppend(rans, [], Attempt(false));
    assert [] + [Attempt(false)] == [Attempt(false)];
  }

  lemma {:induction false} ArmListIsRun(rans: seq<string>)
    ensures ArmList(Timers.INIT, rans) == Timers.After(Timers.ArmAll(rans))
  {
    if rans == [] {
    } else {
      var n := |rans| - 1;
      ArmListIsRun(rans[..n]);
      ArmListAppend(Timers.INIT, rans[..n], rans[n]);
      assert rans == rans[..n] + [rans[n]];
      ArmAllOneMore(rans, n);
      assert rans[..n + 1] == rans;
      Timers.AfterAppend(Timers.ArmAll(rans[..n]), Timers.Arm(rans[n]));
    }
  }
}
