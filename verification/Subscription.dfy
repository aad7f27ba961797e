/** The kpimon subscription driver: a retry loop over a list that shrinks while it is walked. */
module Subscription {
  import opened SubscriptionTimers

  const MAX_SUBSCRIPTION_ATTEMPTS: nat := 100

  datatype Sending = Sent | PayloadError | SendError

  /** How many sends succeed in a row from the k-th on, out of at most n. */
  function Delivered(link: nat -> Sending, k: nat, n: nat): nat
    decreases n
  {
    if n == 0 || link(k) != Sent then 0 else 1 + Delivered(link, k + 1, n - 1)
  }

  /** Delivered counts exactly the unbroken run of successes. */
  lemma {:induction false} DeliveredMeaning(link: nat -> Sending, k: nat, n: nat, m: nat)
    ensures m == Delivered(link, k, n) <==>
              m <= n && (forall j :: k <= j < k + m ==> link(j) == Sent) && (m < n ==> link(k + m) != Sent)
    decreases n
  {
    if n != 0 && link(k) == Sent {
      if m > 0 {
        DeliveredMeaning(link, k + 1, n - 1, m - 1);
        assert (forall j :: k <= j < k + m ==> link(j) == Sent) <==>
               link(k) == Sent && forall j :: k + 1 <= j < k + m ==> link(j) == Sent;
      }
    }
  }

  // No failure among n sends from the k-th on.
  ghost predicate AllSent(link: nat -> Sending, k: nat, n: nat) { forall j :: k <= j < k + n ==> link(j) == Sent }

  lemma DeliveredIs(link: nat -> Sending, k: nat, n: nat, m: nat)
    requires m <= n && AllSent(link, k, m) && (m < n ==> link(k + m) != Sent)
    ensures Delivered(link, k, n) == m
  {
    DeliveredMeaning(link, k, n, m);
  }

  // The timers after arming a list of RANs in order.
  function ArmList(s: State, rans: seq<string>): State
    decreases |rans|
  {
    if rans == [] then s else ArmList(Step(s, Arm(rans[0])), rans[1..])
  }

  lemma {:induction false} ArmListAppend(s: State, rans: seq<string>, ran: string)
    ensures ArmList(s, rans + [ran]) == Step(ArmList(s, rans), Arm(ran))
    decreases |rans|
  {
    if rans == [] {
      assert [ran][1..] == [] && [] + [ran] == [ran];
    } else {
      ArmListAppend(Step(s, Arm(rans[0])), rans[1..], ran);
      assert (rans + [ran])[1..] == rans[1..] + [ran];
    }
  }

  lemma ArmedOneMore(s: State, rans: seq<string>, n: nat)
    requires n < |rans|
    ensures rans[..n + 1] == rans[..n] + [rans[n]] && rans[n..][1..] == rans[n + 1..]
    ensures ArmList(s, rans[..n + 1]) == Step(ArmList(s, rans[..n]), Arm(rans[n]))
  {
    assert rans[..n + 1] == rans[..n] + [rans[n]];
    ArmListAppend(s, rans[..n], rans[n]);
  }

  class Control {
    var ranList: seq<string>
    var eventCreateExpired: map<string, bool>
    var watchers: seq<Watcher>
    var sends: nat      // sends tried so far
    var calls: nat      // subscription rounds tried so far
    const link: nat -> Sending       // what becomes of each send
    const trigger: nat -> bool       // whether each round's event trigger encodes
    ghost var subscribed: seq<string>

    function Timers(): State
      reads this
    {
      State(eventCreateExpired, watchers)
    }

    constructor (ranList: seq<string>, link: nat -> Sending, trigger: nat -> bool)
      ensures this.ranList == ranList && Timers() == INIT && subscribed == [] && sends == 0 && calls == 0
      ensures this.link == link && this.trigger == trigger
    {
      this.ranList := ranList;
      this.link, this.trigger := link, trigger;
      eventCreateExpired, watchers, subscribed, sends, calls := map[], [], [], 0, 0;
    }

    method SetEventCreateExpiredTimer(ran: string)
      modifies this`eventCreateExpired, this`watchers
      ensures Timers() == Step(old(Timers()), Arm(ran))
    {
      eventCreateExpired := eventCreateExpired[ran := false];
      watchers := watchers + [Watcher(ran, Watching)];
    }

    // Both the response and the failure handler.
    method HandleSubscriptionResponse(ran: string)
      modifies this`eventCreateExpired
      ensures Timers() == Step(old(Timers()), Response(ran))
    {
      if ran in eventCreateExpired {
        eventCreateExpired := eventCreateExpired[ran := true];
      }
    }

    method TimerFires(w: nat)
      requires w < |watchers| && watchers[w].phase.Watching?
      modifies this`eventCreateExpired, this`watchers
      ensures Timers() == Step(old(Timers()), Timer(w))
    {
      var ran := watchers[w].ran;
      var isResponsed := Read(eventCreateExpired, ran);
      eventCreateExpired := eventCreateExpired - {ran};
      if !isResponsed {
        watchers := watchers[w := Watcher(ran, Expired)];
      } else {
        watchers := watchers[w := Watcher(ran, Fired)];
      }
    }

    method Polls(w: nat)
      requires w < |watchers| && !watchers[w].phase.Verdict()
      modifies this`eventCreateExpired, this`watchers
      ensures Timers() == Step(old(Timers()), Poll(w))
    {
      var ran := watchers[w].ran;
      var flag := Read(eventCreateExpired, ran);
      if flag {
        eventCreateExpired := eventCreateExpired - {ran};
        watchers := watchers[w := Watcher(ran, Canceled)];
      }
    }

    method Dispatch(ev: Event)
      modifies this`eventCreateExpired, this`watchers
      ensures Timers() == Step(old(Timers()), ev)
    {
      match ev
      case Arm(ran) => SetEventCreateExpiredTimer(ran);
      case Response(ran) => HandleSubscriptionResponse(ran);
      case Timer(w) => if w < |watchers| && watchers[w].phase.Watching? { TimerFires(w); }
      case Poll(w) => if w < |watchers| && !watchers[w].phase.Verdict() { Polls(w); }
    }

    // Arms a subscribed RAN and deletes it from the list.
    method ArmAndDelete(index: nat)
      requires index < |ranList|
      modifies this`eventCreateExpired, this`watchers, this`ranList, this`subscribed
      ensures ranList == old(ranList)[..index] + old(ranList)[index + 1..]
      ensures subscribed == old(subscribed) + [old(ranList)[index]]
      ensures Timers() == Step(old(Timers()), Arm(old(ranList)[index]))
    {
      SetEventCreateExpiredTimer(ranList[index]);
      subscribed := subscribed + [ranList[index]];
      ranList := ranList[..index] + ranList[index + 1..];
    }

    /** Subscribes the RANs at the head of the list up to the first failure, arming each and taking it off the list. */
    method SendRicSubRequest() returns (err: bool)
      modifies this
      ensures calls == old(calls) + 1
      ensures var n := if trigger(old(calls)) then Delivered(link, old(sends), |old(ranList)|) else 0;
              && n <= |old(ranList)| && ranList == old(ranList)[n..]
              && subscribed == old(subscribed) + old(ranList)[..n]
              && Timers() == ArmList(old(Timers()), old(ranList)[..n])
              && (err <==> !trigger(old(calls)) || n < |old(ranList)|)
    {
      calls := calls + 1;
      ghost var n := 0;
      if !trigger(calls - 1) { return true; }
      var index := 0;
      while index < |ranList|
        invariant index == 0 && calls == old(calls) + 1
        invariant n <= |old(ranList)| && ranList == old(ranList)[n..] && sends == old(sends) + n
        invariant AllSent(link, old(sends), n)
        invariant subscribed == old(subscribed) + old(ranList)[..n]
        invariant Timers() == ArmList(old(Timers()), old(ranList)[..n])
        decreases |ranList|
      {
        var outcome := link(sends);
        sends := sends + 1;
        if outcome == PayloadError || outcome == SendError {
          DeliveredIs(link, old(sends), |old(ranList)|, n);
          return true;
        }
        ArmedOneMore(old(Timers()), old(ranList), n);
        ArmAndDelete(index);
        index := index - 1;
        index := index + 1;
        n := n + 1;
      }
      DeliveredIs(link, old(sends), |old(ranList)|, n);
      return false;
    }

    /** Under any pattern of failures: the RANs subscribed so far followed by those left are the original list in
        order, and the run ends within the attempt limit with an empty list or a failed last attempt. */
    method StartTimerSubReq() returns (count: nat, err: bool)
      modifies this
      ensures subscribed + ranList == old(subscribed + ranList)
      ensures 1 <= count <= 100 && calls == old(calls) + count
      ensures if err then count == 100 else ranList == []
      ensures old(subscribed) <= subscribed
      ensures Timers() == ArmList(old(Timers()), subscribed[|old(subscribed)|..])
    {
      count := 0;
      err := true;
      while true
        invariant count < MAX_SUBSCRIPTION_ATTEMPTS && calls == old(calls) + count
        invariant subscribed + ranList == old(subscribed + ranList) && old(subscribed) <= subscribed
        invariant Timers() == ArmList(old(Timers()), subscribed[|old(subscribed)|..])
        decreases MAX_SUBSCRIPTION_ATTEMPTS - count
      {
        count := count + 1;
        ghost var list, done := ranList, subscribed;
        err := SendRicSubRequest();
        RoundKeeps(old(Timers()), old(subscribed), done, list, |list| - |ranList|);
        if err && count < MAX_SUBSCRIPTION_ATTEMPTS {
          continue;
        }
        break;
      }
    }
  }

  // What one round does to the split of the list and to the timers armed since the start.
  lemma RoundKeeps(s: State, start: seq<string>, done: seq<string>, list: seq<string>, n: nat)
    requires start <= done && n <= |list|
    ensures done + list[..n] + list[n..] == done + list && start <= done + list[..n]
    ensures ArmList(s, (done + list[..n])[|start|..]) == ArmList(ArmList(s, done[|start|..]), list[..n])
  {
    assert (done + list[..n])[|start|..] == done[|start|..] + list[..n];
    assert list == list[..n] + list[n..];
    ArmListConcat(s, done[|start|..], list[..n]);
  }

  lemma {:induction false} ArmListConcat(s: State, a: seq<string>, b: seq<string>)
    ensures ArmList(s, a + b) == ArmList(ArmList(s, a), b)
    decreases |a|
  {
    if a == [] {
      assert a + b == b;
    } else {
      ArmListConcat(Step(s, Arm(a[0])), a[1..], b);
      assert (a + b)[1..] == a[1..] + b;
    }
  }

  /** After any interleaving of armings, responses, timers and polls, the map and the watchers are those of the run. */
  method Serve(ranList: seq<string>, link: nat -> Sending, trigger: nat -> bool, evs: seq<Event>)
    returns (c: Control)
    ensures fresh(c) && c.Timers() == After(evs)
  {
    c := new Control(ranList, link, trigger);
    assert evs[..0] == [];
    for n := 0 to |evs|
      invariant fresh(c) && c.Timers() == After(evs[..n])
    {
      AfterAppend(evs[..n], evs[n]);
      assert evs[..n + 1] == evs[..n] + [evs[n]];
      c.Dispatch(evs[n]);
    }
    assert evs[..|evs|] == evs;
  }
}
