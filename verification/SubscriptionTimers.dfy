/** The kpimon create-timers: one map entry and one polling goroutine for each armed RAN, racing with the
    response handlers. Every mutex-protected section is one step. */
module SubscriptionTimers {

  // Watching: polling, timer pending. Fired: the timer went off after a response, still polling.
  datatype Phase = Watching | Fired | Expired | Canceled {
    predicate Verdict() { Expired? || Canceled? }
  }
  datatype Watcher = Watcher(ran: string, phase: Phase)
  datatype State = State(responded: map<string, bool>, watchers: seq<Watcher>)
  datatype Event = Arm(ran: string) | Response(ran: string) | Timer(w: nat) | Poll(w: nat)

  const INIT := State(map[], [])

  // Reading a Go map at a missing key gives false.
  function Read(m: map<string, bool>, ran: string): bool { ran in m && m[ran] }

  function Step(s: State, ev: Event): State {
    match ev
    case Arm(ran) => State(s.responded[ran := false], s.watchers + [Watcher(ran, Watching)])
    case Response(ran) => if ran in s.responded then s.(responded := s.responded[ran := true]) else s
    case Timer(w) =>
      if w < |s.watchers| && s.watchers[w].phase.Watching? then
        var ran := s.watchers[w].ran;
        State(s.responded - {ran}, s.watchers[w := Watcher(ran, if Read(s.responded, ran) then Fired else Expired)])
      else s
    case Poll(w) =>
      if w < |s.watchers| && !s.watchers[w].phase.Verdict() && Read(s.responded, s.watchers[w].ran) then
        var ran := s.watchers[w].ran;
        State(s.responded - {ran}, s.watchers[w := Watcher(ran, Canceled)])
      else s
  }

  function After(evs: seq<Event>): State {
    if evs == [] then INIT else Step(After(evs[..|evs| - 1]), evs[|evs| - 1])
  }

  lemma AfterAppend(evs: seq<Event>, ev: Event)
    ensures After(evs + [ev]) == Step(After(evs), ev)
  {
    assert (evs + [ev])[..|evs|] == evs;
  }

  // The names armed by a run, in order.
  function Armed(evs: seq<Event>): seq<string> {
    if evs == [] then []
    else Armed(evs[..|evs| - 1]) + (if evs[|evs| - 1].Arm? then [evs[|evs| - 1].ran] else [])
  }

  // A response for the name was accepted since it was last armed.
  predicate Accepted(evs: seq<Event>, ran: string) {
    evs != [] &&
    (if evs[|evs| - 1] == Arm(ran) then false
     else (evs[|evs| - 1] == Response(ran) && ran in After(evs[..|evs| - 1]).responded)
          || Accepted(evs[..|evs| - 1], ran))
  }

  predicate Distinct(rans: seq<string>) {
    forall i, j :: 0 <= i < j < |rans| ==> rans[i] != rans[j]
  }

  // "expired" only if no response was accepted since arming, "canceled" only if one was.
  predicate VerdictsRight(evs: seq<Event>) {
    forall w :: w in After(evs).watchers ==>
      && (w.phase.Expired? ==> !Accepted(evs, w.ran))
      && (w.phase.Canceled? ==> Accepted(evs, w.ran))
  }

  // The watchers belong to the armed names, one each, and each watcher's phase fits its map entry and history.
  predicate WatcherFits(evs: seq<Event>, w: Watcher) {
    match w.phase
    case Watching => w.ran in After(evs).responded && After(evs).responded[w.ran] == Accepted(evs, w.ran)
    case Fired => w.ran !in After(evs).responded && Accepted(evs, w.ran)
    case Expired => w.ran !in After(evs).responded && !Accepted(evs, w.ran)
    case Canceled => w.ran !in After(evs).responded && Accepted(evs, w.ran)
  }

  lemma {:induction false} WatcherPerArm(evs: seq<Event>)
    ensures |After(evs).watchers| == |Armed(evs)|
  {
    if evs != [] {
      WatcherPerArm(evs[..|evs| - 1]);
    }
  }

  lemma {:induction false} WatcherNames(evs: seq<Event>, k: nat)
    requires k < |After(evs).watchers|
    ensures k < |Armed(evs)| && After(evs).watchers[k].ran == Armed(evs)[k]
  {
    WatcherPerArm(evs);
    if evs != [] {
      WatcherPerArm(evs[..|evs| - 1]);
      if k < |Armed(evs[..|evs| - 1])| {
        WatcherNames(evs[..|evs| - 1], k);
      }
    }
  }

  lemma ArmedOfPrefix(evs: seq<Event>)
    requires evs != [] && Distinct(Armed(evs))
    ensures Distinct(Armed(evs[..|evs| - 1]))
    ensures evs[|evs| - 1].Arm? ==> evs[|evs| - 1].ran !in Armed(evs[..|evs| - 1])
  {
    var a, b := Armed(evs[..|evs| - 1]), Armed(evs);
    assert forall k :: 0 <= k < |a| ==> b[k] == a[k];
    if evs[|evs| - 1].Arm? {
      assert b[|a|] == evs[|evs| - 1].ran;
    }
  }

  /** For distinct RAN names, in every interleaving: each watcher's phase fits its history, so a verdict is right
      and stays right, and once a watcher's timer has fired or it has given its verdict no map entry is left or
      comes back, however late a response is. */
  lemma {:induction false} WatchersFit(evs: seq<Event>)
    requires Distinct(Armed(evs))
    ensures forall k :: 0 <= k < |After(evs).watchers| ==> WatcherFits(evs, After(evs).watchers[k])
  {
    if evs != [] {
      var before := evs[..|evs| - 1];
      ArmedOfPrefix(evs);
      WatchersFit(before);
      forall k | 0 <= k < |After(evs).watchers|
        ensures WatcherFits(evs, After(evs).watchers[k])
      {
        if k < |After(before).watchers| {
          OthersAlone(evs, k);
          FitStep(evs, k);
        }
      }
    }
  }

  // A timer or poll of another watcher concerns another name, and so does a new arming.
  lemma OthersAlone(evs: seq<Event>, k: nat)
    requires evs != [] && Distinct(Armed(evs)) && k < |After(evs[..|evs| - 1]).watchers|
    ensures var ws, ev := After(evs[..|evs| - 1]).watchers, evs[|evs| - 1];
            && (ev.Arm? ==> ev.ran != ws[k].ran)
            && ((ev.Timer? || ev.Poll?) && ev.w < |ws| && ev.w != k ==> ws[ev.w].ran != ws[k].ran)
  {
    var before, ev := evs[..|evs| - 1], evs[|evs| - 1];
    ArmedOfPrefix(evs);
    WatcherNames(before, k);
    if (ev.Timer? || ev.Poll?) && ev.w < |After(before).watchers| {
      WatcherNames(before, ev.w);
    }
  }

  lemma FitStep(evs: seq<Event>, k: nat)
    requires evs != [] && k < |After(evs[..|evs| - 1]).watchers|
    requires var ws, ev := After(evs[..|evs| - 1]).watchers, evs[|evs| - 1];
             && (ev.Arm? ==> ev.ran != ws[k].ran)
             && ((ev.Timer? || ev.Poll?) && ev.w < |ws| && ev.w != k ==> ws[ev.w].ran != ws[k].ran)
    requires WatcherFits(evs[..|evs| - 1], After(evs[..|evs| - 1]).watchers[k])
    ensures k < |After(evs).watchers| && WatcherFits(evs, After(evs).watchers[k])
  {
  }

  // Verdicts counted over any run

  // Steps of the run that gave a verdict for the name.
  function VerdictSteps(evs: seq<Event>, ran: string): nat {
    if evs == [] then 0
    else
      var before := evs[..|evs| - 1];
      VerdictSteps(before, ran) + if GivesVerdict(After(before), After(evs), ran) then 1 else 0
  }

  predicate IsVerdict(w: Watcher, ran: string) { w.ran == ran && w.phase.Verdict() }

  predicate NewVerdict(s: State, s': State, ran: string, k: nat) {
    && k < |s'.watchers| && IsVerdict(s'.watchers[k], ran)
    && (k < |s.watchers| ==> !s.watchers[k].phase.Verdict())
  }

  predicate GivesVerdict(s: State, s': State, ran: string) {
    exists k :: 0 <= k < |s'.watchers| && NewVerdict(s, s', ran, k)
  }

  // Times the run armed the name.
  function Arms(evs: seq<Event>, ran: string): nat {
    if evs == [] then 0
    else Arms(evs[..|evs| - 1], ran) + if evs[|evs| - 1] == Arm(ran) then 1 else 0
  }

  function Verdicts(ws: seq<Watcher>, ran: string): nat {
    if ws == [] then 0
    else Verdicts(ws[..|ws| - 1], ran) + if IsVerdict(ws[|ws| - 1], ran) then 1 else 0
  }

  function Named(ws: seq<Watcher>, ran: string): nat {
    if ws == [] then 0
    else Named(ws[..|ws| - 1], ran) + if ws[|ws| - 1].ran == ran then 1 else 0
  }

  lemma {:induction false} CountsUpdate(ws: seq<Watcher>, k: nat, w: Watcher, ran: string)
    requires k < |ws| && w.ran == ws[k].ran
    ensures Named(ws[k := w], ran) == Named(ws, ran)
    ensures Verdicts(ws[k := w], ran) + (if IsVerdict(ws[k], ran) then 1 else 0) ==
            Verdicts(ws, ran) + if IsVerdict(w, ran) then 1 else 0
  {
    var n := |ws| - 1;
    if k < n {
      CountsUpdate(ws[..n], k, w, ran);
      assert ws[k := w][..n] == ws[..n][k := w];
    } else {
      assert ws[k := w][..n] == ws[..n];
    }
  }

  lemma {:induction false} VerdictsWithin(ws: seq<Watcher>, ran: string)
    ensures Verdicts(ws, ran) <= Named(ws, ran)
  {
    if ws != [] {
      VerdictsWithin(ws[..|ws| - 1], ran);
    }
  }

  // The watcher a step moves, if any.
  function Moved(s: State, ev: Event): (k: int)
    ensures k == -1 || 0 <= k < |s.watchers|
  {
    match ev
    case Timer(w) => if w < |s.watchers| && s.watchers[w].phase.Watching? then w else -1
    case Poll(w) =>
      if w < |s.watchers| && !s.watchers[w].phase.Verdict() && Read(s.responded, s.watchers[w].ran) then w else -1
    case _ => -1
  }

  lemma MovedOnly(s: State, ev: Event)
    ensures var ws, ws', k := s.watchers, Step(s, ev).watchers, Moved(s, ev);
            if ev.Arm? then ws' == ws + [Watcher(ev.ran, Watching)]
            else if k == -1 then ws' == ws
            else |ws'| == |ws| && ws' == ws[k := ws'[k]] && ws'[k].ran == ws[k].ran && !ws[k].phase.Verdict()
  {
  }

  lemma CountsStep(s: State, ev: Event, ran: string)
    ensures Named(Step(s, ev).watchers, ran) == Named(s.watchers, ran) + if ev == Arm(ran) then 1 else 0
    ensures Verdicts(Step(s, ev).watchers, ran) ==
            Verdicts(s.watchers, ran) + if GivesVerdict(s, Step(s, ev), ran) then 1 else 0
  {
    var s', k := Step(s, ev), Moved(s, ev);
    MovedOnly(s, ev);
    if ev.Arm? {
      assert s'.watchers[..|s.watchers|] == s.watchers;
    } else if k != -1 {
      CountsUpdate(s.watchers, k, s'.watchers[k], ran);
      assert IsVerdict(s'.watchers[k], ran) ==> NewVerdict(s, s', ran, k);
    }
  }

  /** In every interleaving a name gets as many verdicts as it has decided watchers, and so no more than it was
      armed times: at most one for each arming. */
  lemma {:induction false} AtMostOneVerdict(evs: seq<Event>, ran: string)
    ensures VerdictSteps(evs, ran) == Verdicts(After(evs).watchers, ran)
    ensures Named(After(evs).watchers, ran) == Arms(evs, ran)
    ensures VerdictSteps(evs, ran) <= Arms(evs, ran)
  {
    if evs != [] {
      AtMostOneVerdict(evs[..|evs| - 1], ran);
      CountsStep(After(evs[..|evs| - 1]), evs[|evs| - 1], ran);
    }
    VerdictsWithin(After(evs).watchers, ran);
  }

  // Names armed twice

  function ArmAll(rans: seq<string>): seq<Event> {
    seq(|rans|, k requires 0 <= k < |rans| => Arm(rans[k]))
  }

  lemma {:induction false} AfterArmAll(rans: seq<string>)
    ensures After(ArmAll(rans)).watchers == seq(|rans|, k requires 0 <= k < |rans| => Watcher(rans[k], Watching))
    ensures forall ran :: ran in After(ArmAll(rans)).responded <==> ran in rans
    ensures Armed(ArmAll(rans)) == rans
  {
    if rans != [] {
      var front := rans[..|rans| - 1];
      AfterArmAll(front);
      assert ArmAll(rans)[..|rans| - 1] == ArmAll(front);
      assert rans == front + [rans[|rans| - 1]];
    }
  }

  // Both watchers of a name armed twice: the first takes the response, the second then times out.
  function LostResponse(rans: seq<string>, i: nat, j: nat): seq<Event>
    requires i < j < |rans|
  {
    ArmAll(rans[..j + 1]) + [Response(rans[i])] + [Poll(i)] + [Timer(j)]
  }

  lemma LostResponseIsWrong(rans: seq<string>, i: nat, j: nat)
    requires i < j < |rans| && rans[i] == rans[j]
    ensures Armed(LostResponse(rans, i, j)) == rans[..j + 1]
    ensures !VerdictsRight(LostResponse(rans, i, j))
  {
    var ran := rans[i];
    var e0 := ArmAll(rans[..j + 1]);
    var e1, e2, e3 := e0 + [Response(ran)], e0 + [Response(ran)] + [Poll(i)], LostResponse(rans, i, j);
    AfterArmAll(rans[..j + 1]);
    assert rans[..j + 1][i] == ran;
    AfterAppend(e0, Response(ran));
    AfterAppend(e1, Poll(i));
    AfterAppend(e2, Timer(j));
    assert e1[..|e0|] == e0 && e2[..|e1|] == e1 && e3[..|e2|] == e2;
    assert Armed(e1) == Armed(e0) && Armed(e2) == Armed(e1) && Armed(e3) == Armed(e2);
    assert After(e2).watchers[j] == Watcher(ran, Watching);
    assert After(e3).watchers[j] == Watcher(ran, Expired);
    assert Accepted(e1, ran) && Accepted(e2, ran) && Accepted(e3, ran);
    assert After(e3).watchers[j] in After(e3).watchers;
  }

  /** Every interleaving that arms a prefix of the RAN list gives only right verdicts, exactly when the list has
      no name twice. */
  lemma VerdictsRightIffDistinct(rans: seq<string>)
    ensures Distinct(rans) <==> forall evs :: Armed(evs) <= rans ==> VerdictsRight(evs)
  {
    if Distinct(rans) {
      forall evs | Armed(evs) <= rans
        ensures VerdictsRight(evs)
      {
        assert forall k :: 0 <= k < |Armed(evs)| ==> Armed(evs)[k] == rans[k];
        WatchersFit(evs);
      }
    } else {
      var i, j :| 0 <= i < j < |rans| && rans[i] == rans[j];
      LostResponseIsWrong(rans, i, j);
    }
  }
}
