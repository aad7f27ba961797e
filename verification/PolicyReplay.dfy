/** The send queue against the store: what a policy handler that applied every queued item in order would hold. */
module PolicyReplay {
  import opened Basics
  import opened PolicyKeys
  import opened PolicyModel
  import opened PolicyLifecycle

  function Replay(q: seq<WorkItem>): map<Id, Json> {
    if q == [] then map[]
    else
      var item := q[|q| - 1];
      if item.op == DELETE then Replay(q[..|q| - 1]) - {item.id}
      else Replay(q[..|q| - 1])[item.id := item.payload]
  }

  lemma ReplayAppend(q: seq<WorkItem>, item: WorkItem)
    ensures Replay(q + [item]) ==
              if item.op == DELETE then Replay(q) - {item.id} else Replay(q)[item.id := item.payload]
  {
    assert (q + [item])[..|q|] == q;
  }

  predicate LiveIn(s: State, id: Id) {
    id in s.db.instances && id in s.db.metadata && s.db.metadata[id].Live?
  }

  // For a stored instance the replay holds its current body when it is live and nothing when it is marked.
  predicate AgreesOnStored(s: State, id: Id) {
    && (LiveIn(s, id) ==> id in Replay(s.queued) && Replay(s.queued)[id] == s.db.instances[id])
    && (Stored(s, id) && !LiveIn(s, id) ==> id !in Replay(s.queued))
  }

  lemma ReplayOfStep(s: State, ev: Event)
    ensures Replay(Next(s, ev).queued) ==
              if Verdict(s, ev) == Ok && ev.PutInstance? then Replay(s.queued)[ev.id := ev.body]
              else if Verdict(s, ev) == Ok && ev.DeleteInstance? then Replay(s.queued) - {ev.id}
              else Replay(s.queued)
  {
    if Verdict(s, ev) == Ok && ev.PutInstance? {
      ReplayAppend(s.queued, WorkItem(if ev.id in s.db.instances then UPDATE else CREATE, ev.id, ev.body));
    } else if Verdict(s, ev) == Ok && ev.DeleteInstance? {
      ReplayAppend(s.queued, WorkItem(DELETE, ev.id, ""));
    }
  }

  lemma AgreesOnStoredStep(s: State, ev: Event, id: Id)
    requires RecordsMatch(s) && AgreesOnStored(s, id)
    ensures AgreesOnStored(Next(s, ev), id)
  {
    ReplayOfStep(s, ev);
    if Verdict(s, ev) == Ok && (ev.PutInstance? || ev.DeleteInstance?) && ev.id != id {
      assert Stored(Next(s, ev), id) == Stored(s, id);
    }
  }

  /** In every run, even when PUTs land during a pending deletion, the replay agrees with every stored instance. */
  lemma {:induction false} ReplayAgreement(cfg: Config, evs: seq<Event>, id: Id)
    ensures AgreesOnStored(After(cfg, evs), id)
  {
    if evs != [] {
      ReplayAgreement(cfg, evs[..|evs| - 1], id);
      ConsistentAlways(cfg, evs[..|evs| - 1]);
      AgreesOnStoredStep(Before(cfg, evs), Last(evs), id);
    }
  }

  // The replay holds the id exactly when the store holds it live.
  predicate Exact(s: State, id: Id) { id in Replay(s.queued) <==> LiveIn(s, id) }

  // No accepted PUT of the run landed while a deletion thread of its id was outstanding.
  predicate NoPendingPut(cfg: Config, evs: seq<Event>) {
    evs != [] ==>
      && NoPendingPut(cfg, evs[..|evs| - 1])
      && (Last(evs).PutInstance? && Accepted(cfg, evs) ==> ThreadsOf(Before(cfg, evs), Last(evs).id) == {})
  }

  lemma ExactStep(s: State, ev: Event, id: Id)
    requires Consistent(s) && AgreesOnStored(s, id) && Exact(s, id)
    requires LiveIn(s, id) ==> ThreadsOf(s, id) == {}
    requires ev.PutInstance? && ev.id == id && Verdict(s, ev) == Ok ==> ThreadsOf(s, id) == {}
    ensures Exact(Next(s, ev), id)
    ensures LiveIn(Next(s, ev), id) ==> ThreadsOf(Next(s, ev), id) == {}
  {
    ReplayOfStep(s, ev);
    ThreadsOfStep(s, ev, id);
    AgreesOnStoredStep(s, ev, id);
    RemovalStep(s, ev, id);
    if EndsThread(s, ev, id) {
      assert ev.n in ThreadsOf(s, id);
    }
  }

  lemma {:induction false} ReplayExactInvariant(cfg: Config, evs: seq<Event>, id: Id)
    requires NoPendingPut(cfg, evs)
    ensures Exact(After(cfg, evs), id)
    ensures LiveIn(After(cfg, evs), id) ==> ThreadsOf(After(cfg, evs), id) == {}
  {
    if evs != [] {
      ReplayExactInvariant(cfg, evs[..|evs| - 1], id);
      ConsistentAlways(cfg, evs[..|evs| - 1]);
      ReplayAgreement(cfg, evs[..|evs| - 1], id);
      ExactStep(Before(cfg, evs), Last(evs), id);
    }
  }

  /** If no PUT ever lands during a pending deletion of its id, the replay is exactly the stored, unmarked instances. */
  lemma ReplayIsLiveStore(cfg: Config, evs: seq<Event>)
    requires NoPendingPut(cfg, evs)
    ensures forall id :: id in Replay(After(cfg, evs).queued) <==> LiveIn(After(cfg, evs), id)
    ensures forall id :: LiveIn(After(cfg, evs), id) ==>
              Replay(After(cfg, evs).queued)[id] == After(cfg, evs).db.instances[id]
  {
    var s := After(cfg, evs);
    forall id
      ensures id in Replay(s.queued) <==> LiveIn(s, id)
      ensures LiveIn(s, id) ==> Replay(s.queued)[id] == s.db.instances[id]
    {
      ReplayExactInvariant(cfg, evs, id);
      ReplayAgreement(cfg, evs, id);
      assert Exact(s, id);
    }
  }

  // Continuations in which only time passes and deletion threads run

  predicate Unattended(evs: seq<Event>) {
    forall ev :: ev in evs ==> ev.ThreadStart? || ev.ThreadFire? || ev.Tick?
  }

  function Continue(s: State, evs: seq<Event>): State
    decreases |evs|
  {
    if evs == [] then s else Continue(Next(s, evs[0]), evs[1..])
  }

  /** The guard a caller could check before a PUT: the id has no outstanding deletion thread. It holds exactly
      when no amount of time passing and threads running afterwards can leave the replay with an id the store lost. */
  lemma PutIsSafeIff(s: State, id: Id, body: Json)
    requires Consistent(s) && id.0 in s.db.types
    ensures ThreadsOf(s, id) == {} <==>
            forall evs :: Unattended(evs) ==> Exact(Continue(Next(s, PutInstance(id, body, true)), evs), id)
  {
    var put := Next(s, PutInstance(id, body, true));
    ReplayOfStep(s, PutInstance(id, body, true));
    ConsistentNext(s, PutInstance(id, body, true));
    assert put.threads == s.threads;
    if ThreadsOf(s, id) == {} {
      assert ThreadsOf(put, id) == {};
      forall evs | Unattended(evs)
        ensures Exact(Continue(put, evs), id)
      {
        UnattendedKeepsLive(put, evs, id);
      }
    } else {
      var n :| n in ThreadsOf(s, id);
      var evs := PendingThreadStrikes(put, id, n);
    }
  }

  lemma {:induction false} UnattendedKeepsLive(s: State, evs: seq<Event>, id: Id)
    requires Unattended(evs)
    requires LiveIn(s, id) && id in Replay(s.queued) && ThreadsOf(s, id) == {}
    ensures Exact(Continue(s, evs), id)
    decreases |evs|
  {
    if evs != [] {
      var ev := evs[0];
      var s' := Next(s, ev);
      assert ev in evs;
      ReplayOfStep(s, ev);
      if Verdict(s, ev) == Ok && ev.ThreadFire? {
        assert ev.n !in ThreadsOf(s, id);
      }
      assert forall n :: n in ThreadsOf(s', id) ==> n in ThreadsOf(s, id);
      UnattendedKeepsLive(s', evs[1..], id);
    }
  }

  lemma PendingThreadStrikes(s: State, id: Id, n: nat) returns (evs: seq<Event>)
    requires Consistent(s) && LiveIn(s, id) && id in Replay(s.queued)
    requires n in s.threads && s.threads[n].id == id
    ensures Unattended(evs) && !Exact(Continue(s, evs), id)
    ensures !Stored(Continue(s, evs), id) && Continue(s, evs).db.types == s.db.types
  {
    assert ThreadFits(s, s.threads[n]);
    if s.threads[n].wakeAt == None {
      var s1 := Next(s, ThreadStart(n));
      evs := [ThreadStart(n)] + SleepThenFire(s1, id, n);
      assert evs[1..] == SleepThenFire(s1, id, n);
      SleepThenFireRemoves(s1, id, n);
    } else {
      evs := SleepThenFire(s, id, n);
      SleepThenFireRemoves(s, id, n);
    }
  }

  function SleepThenFire(s: State, id: Id, n: nat): seq<Event>
    requires n in s.threads && s.threads[n].wakeAt.Some?
  {
    var w := s.threads[n].wakeAt.value;
    [Tick(if w < s.now then 0.0 else w - s.now), ThreadFire(n)]
  }

  lemma SleepThenFireRemoves(s: State, id: Id, n: nat)
    requires LiveIn(s, id) && id in Replay(s.queued)
    requires n in s.threads && s.threads[n].wakeAt.Some? && s.threads[n].id == id
    ensures !Exact(Continue(s, SleepThenFire(s, id, n)), id)
    ensures !Stored(Continue(s, SleepThenFire(s, id, n)), id)
    ensures Continue(s, SleepThenFire(s, id, n)).db.types == s.db.types
  {
    var evs := SleepThenFire(s, id, n);
    var s1 := Next(s, evs[0]);
    var s2 := Next(s1, evs[1]);
    assert evs[1..][0] == evs[1] && evs[1..][1..] == [];
    assert Continue(s1, evs[1..]) == Continue(s2, []);
  }
}
