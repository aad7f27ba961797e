/** The verdict of every create-timer, by the order in which its arming, responses, timer and polls came. */
module SubscriptionVerdicts {
  import opened SubscriptionTimers

  // The event came after position lo and before position hi.
  ghost predicate Seen(evs: seq<Event>, lo: int, hi: int, e: Event) {
    exists j :: lo < j < hi && 0 <= j < |evs| && evs[j] == e
  }

  // A poll of watcher k came after a response for its name, with no timer of k since the arming at a.
  ghost predicate CanceledAt(evs: seq<Event>, a: nat, k: nat, ran: string, p: int) {
    && a < p < |evs| && evs[p] == Poll(k)
    && Seen(evs, a, p, Response(ran)) && !Seen(evs, a, p, Timer(k))
  }

  // The timer came with no response since the arming.
  ghost predicate ExpiredAt(evs: seq<Event>, a: nat, k: nat, ran: string, t: int) {
    a < t < |evs| && evs[t] == Timer(k) && !Seen(evs, a, t, Response(ran))
  }

  // The first timer came after a response, with no poll between that response and it.
  ghost predicate FiredAt(evs: seq<Event>, a: nat, k: nat, ran: string, t: int) {
    && a < t < |evs| && evs[t] == Timer(k)
    && !Seen(evs, a, t, Timer(k)) && Seen(evs, a, t, Response(ran))
    && forall p :: a < p < t ==> !CanceledAt(evs, a, k, ran, p)
  }

  ghost predicate IsCanceled(evs: seq<Event>, a: nat, k: nat, ran: string) { exists p :: CanceledAt(evs, a, k, ran, p) }
  ghost predicate IsExpired(evs: seq<Event>, a: nat, k: nat, ran: string) { exists t :: ExpiredAt(evs, a, k, ran, t) }
  ghost predicate IsFired(evs: seq<Event>, a: nat, k: nat, ran: string) { exists t :: FiredAt(evs, a, k, ran, t) }

  // How each grows with one more event

  lemma SeenInPrefix(evs: seq<Event>, n: nat, lo: int, hi: int, e: Event)
    requires hi <= n <= |evs|
    ensures Seen(evs[..n], lo, hi, e) == Seen(evs, lo, hi, e)
  {
    if Seen(evs, lo, hi, e) {
      var j :| lo < j < hi && 0 <= j < |evs| && evs[j] == e;
      assert evs[..n][j] == e;
    }
    if Seen(evs[..n], lo, hi, e) {
      var j :| lo < j < hi && 0 <= j < n && evs[..n][j] == e;
      assert evs[j] == e;
    }
  }

  lemma SeenStep(evs: seq<Event>, lo: nat, e: Event)
    requires evs != [] && lo < |evs| - 1
    ensures Seen(evs, lo, |evs|, e) <==> Seen(evs[..|evs| - 1], lo, |evs| - 1, e) || evs[|evs| - 1] == e
  {
    var n := |evs| - 1;
    SeenInPrefix(evs, n, lo, n, e);
    if Seen(evs, lo, |evs|, e) && evs[n] != e {
      var j :| lo < j < |evs| && evs[j] == e;
      assert lo < j < n;
    }
  }

  lemma CanceledInPrefix(evs: seq<Event>, n: nat, a: nat, k: nat, ran: string, p: int)
    requires p < n <= |evs|
    ensures CanceledAt(evs[..n], a, k, ran, p) == CanceledAt(evs, a, k, ran, p)
  {
    SeenInPrefix(evs, n, a, p, Response(ran));
    SeenInPrefix(evs, n, a, p, Timer(k));
  }

  lemma CanceledStep(evs: seq<Event>, a: nat, k: nat, ran: string)
    requires evs != [] && a < |evs| - 1
    ensures var n := |evs| - 1;
            IsCanceled(evs, a, k, ran) <==>
            || IsCanceled(evs[..n], a, k, ran)
            || (evs[n] == Poll(k) && Seen(evs[..n], a, n, Response(ran)) && !Seen(evs[..n], a, n, Timer(k)))
  {
    var n := |evs| - 1;
    SeenInPrefix(evs, n, a, n, Response(ran));
    SeenInPrefix(evs, n, a, n, Timer(k));
    if p :| CanceledAt(evs, a, k, ran, p) {
      if p < n { CanceledInPrefix(evs, n, a, k, ran, p); }
    }
    if p :| CanceledAt(evs[..n], a, k, ran, p) {
      CanceledInPrefix(evs, n, a, k, ran, p);
    }
    if evs[n] == Poll(k) && Seen(evs, a, n, Response(ran)) && !Seen(evs, a, n, Timer(k)) {
      assert CanceledAt(evs, a, k, ran, n);
    }
  }

  lemma ExpiredStep(evs: seq<Event>, a: nat, k: nat, ran: string)
    requires evs != [] && a < |evs| - 1
    ensures var n := |evs| - 1;
            IsExpired(evs, a, k, ran) <==>
            IsExpired(evs[..n], a, k, ran) || (evs[n] == Timer(k) && !Seen(evs[..n], a, n, Response(ran)))
  {
    var n := |evs| - 1;
    SeenInPrefix(evs, n, a, n, Response(ran));
    if t :| ExpiredAt(evs, a, k, ran, t) {
      if t < n {
        SeenInPrefix(evs, n, a, t, Response(ran));
        assert ExpiredAt(evs[..n], a, k, ran, t);
      }
    }
    if t :| ExpiredAt(evs[..n], a, k, ran, t) {
      SeenInPrefix(evs, n, a, t, Response(ran));
      assert ExpiredAt(evs, a, k, ran, t);
    }
    if evs[n] == Timer(k) && !Seen(evs, a, n, Response(ran)) {
      assert ExpiredAt(evs, a, k, ran, n);
    }
  }

  lemma FiredInPrefix(evs: seq<Event>, n: nat, a: nat, k: nat, ran: string, t: int)
    requires t < n <= |evs|
    ensures FiredAt(evs[..n], a, k, ran, t) == FiredAt(evs, a, k, ran, t)
  {
    SeenInPrefix(evs, n, a, t, Timer(k));
    SeenInPrefix(evs, n, a, t, Response(ran));
    forall p | p < n
      ensures CanceledAt(evs[..n], a, k, ran, p) == CanceledAt(evs, a, k, ran, p)
    {
      CanceledInPrefix(evs, n, a, k, ran, p);
    }
  }

  lemma NoCancelBelow(evs: seq<Event>, a: nat, k: nat, ran: string, n: nat)
    requires n <= |evs|
    ensures (forall p :: a < p < n ==> !CanceledAt(evs, a, k, ran, p)) <==> !IsCanceled(evs[..n], a, k, ran)
  {
    forall p | p < n
      ensures CanceledAt(evs[..n], a, k, ran, p) == CanceledAt(evs, a, k, ran, p)
    {
      CanceledInPrefix(evs, n, a, k, ran, p);
    }
  }

  lemma FiredStep(evs: seq<Event>, a: nat, k: nat, ran: string)
    requires evs != [] && a < |evs| - 1
    ensures var n := |evs| - 1;
            IsFired(evs, a, k, ran) <==>
            || IsFired(evs[..n], a, k, ran)
            || (evs[n] == Timer(k) && !Seen(evs[..n], a, n, Timer(k)) && Seen(evs[..n], a, n, Response(ran))
                && !IsCanceled(evs[..n], a, k, ran))
  {
    var n := |evs| - 1;
    SeenInPrefix(evs, n, a, n, Response(ran));
    SeenInPrefix(evs, n, a, n, Timer(k));
    NoCancelBelow(evs, a, k, ran, n);
    if t :| FiredAt(evs, a, k, ran, t) {
      if t < n { FiredInPrefix(evs, n, a, k, ran, t); }
    }
    if t :| FiredAt(evs[..n], a, k, ran, t) {
      FiredInPrefix(evs, n, a, k, ran, t);
    }
    if evs[n] == Timer(k) && !Seen(evs, a, n, Timer(k)) && Seen(evs, a, n, Response(ran))
       && !IsCanceled(evs[..n], a, k, ran) {
      assert FiredAt(evs, a, k, ran, n);
    }
  }

  // The history of one watcher

  // The position of the arming that made watcher k.
  function ArmIndex(evs: seq<Event>, k: nat): (a: nat)
    requires k < |Armed(evs)|
    ensures a < |evs| && evs[a] == Arm(Armed(evs)[k])
  {
    var before := evs[..|evs| - 1];
    if k < |Armed(before)| then ArmIndex(before, k) else |evs| - 1
  }

  /** It is the arming with k armings before it. */
  lemma {:induction false} ArmIndexCounts(evs: seq<Event>, k: nat)
    requires k < |Armed(evs)|
    ensures |Armed(evs[..ArmIndex(evs, k)])| == k
  {
    var n := |evs| - 1;
    if k < |Armed(evs[..n])| {
      ArmIndexCounts(evs[..n], k);
      assert evs[..n][..ArmIndex(evs, k)] == evs[..ArmIndex(evs, k)];
    }
  }

  // The phase of a watcher and its map entry fit what came since its arming.
  ghost predicate Fits(s: State, evs: seq<Event>, a: nat, k: nat) {
    && k < |s.watchers|
    && var w := s.watchers[k];
       var (c, e, f) := (IsCanceled(evs, a, k, w.ran), IsExpired(evs, a, k, w.ran), IsFired(evs, a, k, w.ran));
       match w.phase
       case Watching =>
         && !c && !e && !f && !Seen(evs, a, |evs|, Timer(k))
         && w.ran in s.responded && (s.responded[w.ran] <==> Seen(evs, a, |evs|, Response(w.ran)))
       case Canceled => c && !e && !f && Seen(evs, a, |evs|, Response(w.ran)) && w.ran !in s.responded
       case Expired => !c && e && !f && Seen(evs, a, |evs|, Timer(k)) && w.ran !in s.responded
       case Fired => !c && !e && f && Seen(evs, a, |evs|, Timer(k)) && w.ran !in s.responded
  }

  // The event does not concern the watcher's name through another watcher.
  predicate Apart(s: State, ev: Event, k: nat)
    requires k < |s.watchers|
  {
    && (ev.Arm? ==> ev.ran != s.watchers[k].ran)
    && ((ev.Timer? || ev.Poll?) && ev.w < |s.watchers| && ev.w != k ==> s.watchers[ev.w].ran != s.watchers[k].ran)
  }

  lemma HistoriesStep(evs: seq<Event>, a: nat, k: nat, ran: string)
    requires evs != [] && a < |evs| - 1
    ensures var before, n, ev := evs[..|evs| - 1], |evs| - 1, evs[|evs| - 1];
            var answered, timed := Seen(before, a, n, Response(ran)), Seen(before, a, n, Timer(k));
            && (Seen(evs, a, |evs|, Response(ran)) <==> answered || ev == Response(ran))
            && (Seen(evs, a, |evs|, Timer(k)) <==> timed || ev == Timer(k))
            && (IsCanceled(evs, a, k, ran) <==>
                  IsCanceled(before, a, k, ran) || (ev == Poll(k) && answered && !timed))
            && (IsExpired(evs, a, k, ran) <==> IsExpired(before, a, k, ran) || (ev == Timer(k) && !answered))
            && (IsFired(evs, a, k, ran) <==>
                  || IsFired(before, a, k, ran)
                  || (ev == Timer(k) && !timed && answered && !IsCanceled(before, a, k, ran)))
  {
    SeenStep(evs, a, Response(ran));
    SeenStep(evs, a, Timer(k));
    CanceledStep(evs, a, k, ran);
    ExpiredStep(evs, a, k, ran);
    FiredStep(evs, a, k, ran);
  }

  // What a step does to a watcher and its entry, when the event concerns no other watcher of its name.
  lemma WatcherStep(s: State, ev: Event, k: nat)
    requires k < |s.watchers| && Apart(s, ev, k)
    ensures var w, s' := s.watchers[k], Step(s, ev);
            && k < |s'.watchers| && s'.watchers[k].ran == w.ran
            && var entry, entry' := w.ran in s.responded, w.ran in s'.responded;
               var flag := entry && s.responded[w.ran];
               if ev == Timer(k) && w.phase.Watching?
               then s'.watchers[k].phase == (if flag then Fired else Expired) && !entry'
               else if ev == Poll(k) && (w.phase.Watching? || w.phase.Fired?) && flag
               then s'.watchers[k].phase == Canceled && !entry'
               else && s'.watchers[k] == w && entry' == entry
                    && (entry ==> (s'.responded[w.ran] <==> flag || ev == Response(w.ran)))
  {
  }

  lemma FitsStep(evs: seq<Event>, a: nat, k: nat)
    requires evs != [] && a < |evs| - 1
    requires var before := evs[..|evs| - 1];
             Fits(After(before), before, a, k) && Apart(After(before), evs[|evs| - 1], k)
    ensures Fits(After(evs), evs, a, k)
  {
    var before := evs[..|evs| - 1];
    WatcherStep(After(before), evs[|evs| - 1], k);
    HistoriesStep(evs, a, k, After(before).watchers[k].ran);
  }

  lemma NewWatcherFits(evs: seq<Event>)
    requires evs != [] && evs[|evs| - 1].Arm?
    ensures Fits(After(evs), evs, |evs| - 1, |After(evs[..|evs| - 1]).watchers|)
  {
  }

  // The name of watcher k is armed for it only.
  predicate ArmedOnce(rans: seq<string>, k: nat) {
    k < |rans| && forall j :: 0 <= j < |rans| && j != k ==> rans[j] != rans[k]
  }

  lemma ApartOnce(evs: seq<Event>, k: nat)
    requires evs != [] && k < |Armed(evs[..|evs| - 1])| && ArmedOnce(Armed(evs), k)
    ensures ArmedOnce(Armed(evs[..|evs| - 1]), k)
    ensures k < |After(evs[..|evs| - 1]).watchers| && Apart(After(evs[..|evs| - 1]), evs[|evs| - 1], k)
  {
    var before, ev := evs[..|evs| - 1], evs[|evs| - 1];
    WatcherPerArm(before);
    WatcherNames(before, k);
    assert forall j :: 0 <= j < |Armed(before)| ==> Armed(evs)[j] == Armed(before)[j];
    if ev.Arm? {
      assert Armed(evs)[|Armed(before)|] == ev.ran;
    }
    if (ev.Timer? || ev.Poll?) && ev.w < |After(before).watchers| {
      WatcherNames(before, ev.w);
    }
  }

  lemma {:induction false} WatcherFitsHistory(evs: seq<Event>, k: nat)
    requires ArmedOnce(Armed(evs), k)
    ensures Fits(After(evs), evs, ArmIndex(evs, k), k)
  {
    var before := evs[..|evs| - 1];
    WatcherPerArm(before);
    if k < |Armed(before)| {
      ApartOnce(evs, k);
      WatcherFitsHistory(before, k);
      FitsStep(evs, ArmIndex(before, k), k);
    } else {
      NewWatcherFits(evs);
    }
  }

  /** In every interleaving, for a name armed once: its watcher has given "canceled" exactly if, since its arming, a
      response for the name came and then a poll of it, with no timer of it before that poll; "expired" exactly if its
      timer came with no response since the arming; and it polls on without a verdict after its timer exactly if that
      timer came after a response that no poll had found. */
  lemma VerdictsAreHistory(evs: seq<Event>, k: nat)
    requires ArmedOnce(Armed(evs), k)
    ensures k < |After(evs).watchers| && After(evs).watchers[k].ran == Armed(evs)[k]
    ensures var a, ran, phase := ArmIndex(evs, k), Armed(evs)[k], After(evs).watchers[k].phase;
            && (phase.Canceled? <==> IsCanceled(evs, a, k, ran))
            && (phase.Expired? <==> IsExpired(evs, a, k, ran))
            && (phase.Fired? <==> IsFired(evs, a, k, ran))
  {
    WatcherPerArm(evs);
    WatcherNames(evs, k);
    WatcherFitsHistory(evs, k);
  }
}
