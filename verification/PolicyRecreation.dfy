/** When two CREATEs of an instance can be queued with no DELETE of it between them. */
module PolicyRecreation {
  import opened Basics
  import opened PolicyKeys
  import opened PolicyModel
  import opened PolicyLifecycle
  import opened PolicyReplay

  // The latest item of the instance in the queue that is a CREATE or a DELETE.
  function LatestTurn(q: seq<WorkItem>, id: Id): Option<Operation> {
    if q == [] then None
    else if q[|q| - 1].id == id && q[|q| - 1].op != UPDATE then Some(q[|q| - 1].op)
    else LatestTurn(q[..|q| - 1], id)
  }

  // Between every two CREATEs of the instance the queue has a DELETE of it.
  predicate Separated(q: seq<WorkItem>, id: Id) {
    q == [] ||
    var front, item := q[..|q| - 1], q[|q| - 1];
    Separated(front, id) && (item.op == CREATE && item.id == id ==> LatestTurn(front, id) != Some(CREATE))
  }

  lemma TurnAppend(q: seq<WorkItem>, item: WorkItem, id: Id)
    ensures LatestTurn(q + [item], id) ==
              if item.id == id && item.op != UPDATE then Some(item.op) else LatestTurn(q, id)
    ensures Separated(q + [item], id) <==>
            Separated(q, id) && (item.op == CREATE && item.id == id ==> LatestTurn(q, id) != Some(CREATE))
  {
    assert (q + [item])[..|q|] == q;
  }

  // The item a step queues, if any.
  function Queued(s: State, ev: Event): Option<WorkItem> {
    if Verdict(s, ev) != Ok then None
    else match ev
      case PutInstance(id, body, _) => Some(WorkItem(if Stored(s, id) then UPDATE else CREATE, id, body))
      case DeleteInstance(id) => Some(WorkItem(DELETE, id, ""))
      case _ => None
  }

  lemma QueuedByStep(s: State, ev: Event)
    ensures Next(s, ev).queued == if Queued(s, ev).Some? then s.queued + [Queued(s, ev).value] else s.queued
  {
  }

  // No CREATE of the instance landed while a deletion thread of it was outstanding.
  predicate NoPendingCreate(cfg: Config, evs: seq<Event>, id: Id) {
    evs != [] ==>
      && NoPendingCreate(cfg, evs[..|evs| - 1], id)
      && (Last(evs).PutInstance? && Last(evs).id == id && Accepted(cfg, evs) && !Stored(Before(cfg, evs), id) ==>
            ThreadsOf(Before(cfg, evs), id) == {})
  }

  // The CREATEs are separated so far, and if the latest turn is a CREATE its instance is there to stay.
  ghost predicate Settled(s: State, id: Id) {
    Separated(s.queued, id) && (LatestTurn(s.queued, id) == Some(CREATE) ==> Stored(s, id) && ThreadsOf(s, id) == {})
  }

  lemma EndsSomeThread(s: State, ev: Event, id: Id)
    ensures EndsThread(s, ev, id) ==> ThreadsOf(s, id) != {}
  {
    if EndsThread(s, ev, id) {
      assert ev.n in ThreadsOf(s, id);
    }
  }

  lemma SettledStep(s: State, ev: Event, id: Id)
    requires Consistent(s) && Settled(s, id)
    requires ev.PutInstance? && ev.id == id && Verdict(s, ev) == Ok && !Stored(s, id) ==> ThreadsOf(s, id) == {}
    ensures Settled(Next(s, ev), id)
  {
    QueuedByStep(s, ev);
    ThreadsOfStep(s, ev, id);
    RemovalStep(s, ev, id);
    if Queued(s, ev).Some? {
      TurnAppend(s.queued, Queued(s, ev).value, id);
    }
    EndsSomeThread(s, ev, id);
  }

  lemma {:induction false} SettledAlways(cfg: Config, evs: seq<Event>, id: Id)
    requires NoPendingCreate(cfg, evs, id)
    ensures Settled(After(cfg, evs), id)
  {
    if evs != [] {
      SettledAlways(cfg, evs[..|evs| - 1], id);
      ConsistentAlways(cfg, evs[..|evs| - 1]);
      SettledStep(Before(cfg, evs), Last(evs), id);
    }
  }

  /** If no CREATE of an instance lands during a pending deletion of it, a DELETE separates every two of its CREATEs. */
  lemma CreatesAreSeparated(cfg: Config, evs: seq<Event>, id: Id)
    requires NoPendingCreate(cfg, evs, id)
    ensures Separated(After(cfg, evs).queued, id)
  {
    SettledAlways(cfg, evs, id);
  }

  // Continuations without a DELETE of the instance

  predicate NoDelete(evs: seq<Event>, id: Id) { forall ev :: ev in evs ==> ev != DeleteInstance(id) }

  // A further PUT of the instance would be queued as a CREATE.
  predicate WouldCreate(s: State, id: Id) { id.0 in s.db.types && !Stored(s, id) }

  lemma {:induction false} StaysStored(s: State, evs: seq<Event>, id: Id)
    requires Consistent(s) && NoDelete(evs, id) && Stored(s, id) && ThreadsOf(s, id) == {}
    ensures Stored(Continue(s, evs), id)
    decreases |evs|
  {
    if evs != [] {
      assert evs[0] in evs && forall ev :: ev in evs[1..] ==> ev in evs;
      ConsistentNext(s, evs[0]);
      ThreadsOfStep(s, evs[0], id);
      RemovalStep(s, evs[0], id);
      EndsSomeThread(s, evs[0], id);
      StaysStored(Next(s, evs[0]), evs[1..], id);
    }
  }

  /** After a PUT, no run without a DELETE of the instance leads to another CREATE of it, exactly when the instance
      has no outstanding deletion thread at the PUT. */
  lemma NoRecreationIff(s: State, id: Id, body: Json)
    requires Consistent(s) && id.0 in s.db.types
    ensures ThreadsOf(s, id) == {} <==>
            forall evs :: NoDelete(evs, id) ==> !WouldCreate(Continue(Next(s, PutInstance(id, body, true)), evs), id)
  {
    var put := Next(s, PutInstance(id, body, true));
    ReplayOfStep(s, PutInstance(id, body, true));
    ConsistentNext(s, PutInstance(id, body, true));
    ThreadsOfStep(s, PutInstance(id, body, true), id);
    if ThreadsOf(s, id) == {} {
      forall evs | NoDelete(evs, id)
        ensures !WouldCreate(Continue(put, evs), id)
      {
        StaysStored(put, evs, id);
      }
    } else {
      var n :| n in ThreadsOf(s, id);
      var evs := PendingThreadStrikes(put, id, n);
      assert NoDelete(evs, id) && WouldCreate(Continue(put, evs), id);
    }
  }

  // Two DELETEs before the first of their timers fires: the second timer removes what was created in between.
  function OverlappingDeletes(cfg: Config): seq<Event> {
    var id := (1, "i");
    [PutType(1, 1, "{}"), PutInstance(id, "{}", true), DeleteInstance(id), DeleteInstance(id),
     ThreadStart(0), ThreadStart(1), Tick(cfg.t1 as real), ThreadFire(0), PutInstance(id, "{}", true),
     ThreadFire(1), PutInstance(id, "{}", true)]
  }

  lemma RunStep(cfg: Config, evs: seq<Event>, n: nat)
    requires n < |evs|
    ensures After(cfg, evs[..n + 1]) == Next(After(cfg, evs[..n]), evs[n])
  {
    assert evs[..n + 1] == evs[..n] + [evs[n]];
    AfterAppend(cfg, evs[..n], evs[n]);
  }

  lemma TwoSteps(cfg: Config, evs: seq<Event>, n: nat)
    requires n + 2 <= |evs|
    ensures After(cfg, evs[..n + 2]) == Next(Next(After(cfg, evs[..n]), evs[n]), evs[n + 1])
  {
    RunStep(cfg, evs, n);
    RunStep(cfg, evs, n + 1);
  }

  lemma ThreeSteps(cfg: Config, evs: seq<Event>, n: nat)
    requires n + 3 <= |evs|
    ensures After(cfg, evs[..n + 3]) == Next(Next(Next(After(cfg, evs[..n]), evs[n]), evs[n + 1]), evs[n + 2])
  {
    TwoSteps(cfg, evs, n);
    RunStep(cfg, evs, n + 2);
  }

  // The instance is stored without any status, at time zero.
  predicate Fresh(s: State, cfg: Config, threads: map<nat, Thread>, q: seq<WorkItem>) {
    && s.cfg == cfg && 1 in s.db.types && s.db.instances.Keys == {(1, "i")} && (1, "i") in s.db.metadata
    && s.db.handlers == map[] && s.now == 0.0 && s.threads == threads && s.nextThread == |threads| && s.queued == q
  }

  lemma DeletesFresh(s: State, cfg: Config, threads: map<nat, Thread>, q: seq<WorkItem>)
    requires Fresh(s, cfg, threads, q) && |threads| !in threads
    ensures Fresh(Next(s, DeleteInstance((1, "i"))), cfg,
                  threads[|threads| := Thread((1, "i"), cfg.t1 as real, 0.0, None)],
                  q + [WorkItem(DELETE, (1, "i"), "")])
  {
    assert Handlers(s.db, (1, "i")) == map[];
  }

  lemma DeletesTwice(s: State, cfg: Config, q: seq<WorkItem>)
    requires Fresh(s, cfg, map[], q)
    ensures var th := Thread((1, "i"), cfg.t1 as real, 0.0, None);
            Fresh(Next(Next(s, DeleteInstance((1, "i"))), DeleteInstance((1, "i"))), cfg, map[0 := th, 1 := th],
                  q + [WorkItem(DELETE, (1, "i"), "")] + [WorkItem(DELETE, (1, "i"), "")])
  {
    var th := Thread((1, "i"), cfg.t1 as real, 0.0, None);
    DeletesFresh(s, cfg, map[], q);
    DeletesFresh(Next(s, DeleteInstance((1, "i"))), cfg, map[0 := th], q + [WorkItem(DELETE, (1, "i"), "")]);
    assert map[0 := th][1 := th] == map[0 := th, 1 := th];
  }

  lemma OverlapCreates(cfg: Config)
    ensures Fresh(After(cfg, OverlappingDeletes(cfg)[..2]), cfg, map[], [WorkItem(CREATE, (1, "i"), "{}")])
  {
    var evs := OverlappingDeletes(cfg);
    assert evs[..0] == [];
    RunStep(cfg, evs, 0);
    RunStep(cfg, evs, 1);
  }

  // Two DELETEs in a row.
  lemma DeletesInRun(cfg: Config, evs: seq<Event>, q: seq<WorkItem>)
    requires |evs| >= 4 && evs[2] == evs[3] == DeleteInstance((1, "i")) && Fresh(After(cfg, evs[..2]), cfg, map[], q)
    ensures var th := Thread((1, "i"), cfg.t1 as real, 0.0, None);
            Fresh(After(cfg, evs[..4]), cfg, map[0 := th, 1 := th],
                  q + [WorkItem(DELETE, (1, "i"), "")] + [WorkItem(DELETE, (1, "i"), "")])
  {
    DeletesTwice(After(cfg, evs[..2]), cfg, q);
    TwoSteps(cfg, evs, 2);
  }

  // The state after the first four events of that run: what is stored, which threads there are, and the queue.
  lemma OverlapBegins(cfg: Config)
    ensures var th := Thread((1, "i"), cfg.t1 as real, 0.0, None);
            Fresh(After(cfg, OverlappingDeletes(cfg)[..4]), cfg, map[0 := th, 1 := th],
                  [WorkItem(CREATE, (1, "i"), "{}"), WorkItem(DELETE, (1, "i"), ""), WorkItem(DELETE, (1, "i"), "")])
  {
    var q, d := [WorkItem(CREATE, (1, "i"), "{}")], WorkItem(DELETE, (1, "i"), "");
    OverlapCreates(cfg);
    DeletesInRun(cfg, OverlappingDeletes(cfg), q);
    assert q + [d] + [d] == [WorkItem(CREATE, (1, "i"), "{}"), d, d];
  }

  // Threads of the instance that may fire now, and what is stored and queued.
  predicate Ready(s: State, threads: set<nat>, stored: bool, q: seq<WorkItem>) {
    && 1 in s.db.types && (stored <==> (1, "i") in s.db.instances) && s.threads.Keys == threads && s.queued == q
    && forall n :: n in s.threads ==> s.threads[n].id == (1, "i") && s.threads[n].wakeAt == Some(s.now)
  }

  lemma StartsSleep(s: State, n: nat)
    requires 1 in s.db.types && (1, "i") in s.db.instances
    requires n in s.threads && s.threads[n].id == (1, "i") && s.threads[n].wakeAt == None
    ensures var th := s.threads[n];
            Next(s, ThreadStart(n)) == s.(threads := s.threads[n := th.(wakeAt := Some(s.now + th.ttl))])
  {
  }

  lemma FiresReady(s: State, threads: set<nat>, stored: bool, q: seq<WorkItem>, n: nat)
    requires Ready(s, threads, stored, q) && n in threads
    ensures Ready(Next(s, ThreadFire(n)), threads - {n}, false, q)
  {
  }

  lemma PutReady(s: State, threads: set<nat>, q: seq<WorkItem>)
    requires Ready(s, threads, false, q)
    ensures Ready(Next(s, PutInstance((1, "i"), "{}", true)), threads, true, q + [WorkItem(CREATE, (1, "i"), "{}")])
  {
  }

  lemma OverlapSleeps(s: State, wait: real)
    requires 1 in s.db.types && (1, "i") in s.db.instances && s.now == 0.0 && wait >= 0.0
    requires s.threads == map[0 := Thread((1, "i"), wait, 0.0, None), 1 := Thread((1, "i"), wait, 0.0, None)]
    ensures Ready(Next(Next(Next(s, ThreadStart(0)), ThreadStart(1)), Tick(wait)), {0, 1}, true, s.queued)
  {
    StartsSleep(s, 0);
    StartsSleep(Next(s, ThreadStart(0)), 1);
  }

  lemma OverlapMiddle(cfg: Config)
    ensures var evs := OverlappingDeletes(cfg);
            Ready(After(cfg, evs[..7]), {0, 1}, true, After(cfg, evs[..4]).queued)
  {
    var evs := OverlappingDeletes(cfg);
    OverlapBegins(cfg);
    OverlapSleeps(After(cfg, evs[..4]), cfg.t1 as real);
    ThreeSteps(cfg, evs, 4);
  }

  /** A run with two CREATEs of an instance and no DELETE between them. */
  lemma OverlappingDeletesRecreate(cfg: Config)
    ensures After(cfg, OverlappingDeletes(cfg)).queued ==
            [WorkItem(CREATE, (1, "i"), "{}"), WorkItem(DELETE, (1, "i"), ""), WorkItem(DELETE, (1, "i"), ""),
             WorkItem(CREATE, (1, "i"), "{}"), WorkItem(CREATE, (1, "i"), "{}")]
    ensures !Separated(After(cfg, OverlappingDeletes(cfg)).queued, (1, "i"))
  {
    OverlapBegins(cfg);
    OverlapMiddle(cfg);
    OverlapEnds(cfg);
    var evs := OverlappingDeletes(cfg);
    var again := WorkItem(CREATE, (1, "i"), "{}");
    var q := After(cfg, evs[..4]).queued;
    TurnAppend(q + [again], again, (1, "i"));
    TurnAppend(q, again, (1, "i"));
  }

  // A timer fires, and the instance is put again.
  lemma FireThenPut(s: State, threads: set<nat>, q: seq<WorkItem>, n: nat)
    requires Ready(s, threads, true, q) && n in threads
    ensures Ready(Next(Next(s, ThreadFire(n)), PutInstance((1, "i"), "{}", true)), threads - {n}, true,
                  q + [WorkItem(CREATE, (1, "i"), "{}")])
  {
    FiresReady(s, threads, true, q, n);
    PutReady(Next(s, ThreadFire(n)), threads - {n}, q);
  }

  lemma FireThenPutInRun(cfg: Config, evs: seq<Event>, k: nat, threads: set<nat>, q: seq<WorkItem>, n: nat)
    requires k + 2 <= |evs| && evs[k] == ThreadFire(n) && evs[k + 1] == PutInstance((1, "i"), "{}", true)
    requires Ready(After(cfg, evs[..k]), threads, true, q) && n in threads
    ensures Ready(After(cfg, evs[..k + 2]), threads - {n}, true, q + [WorkItem(CREATE, (1, "i"), "{}")])
  {
    FireThenPut(After(cfg, evs[..k]), threads, q, n);
    TwoSteps(cfg, evs, k);
  }

  lemma OverlapEnds(cfg: Config)
    requires var evs := OverlappingDeletes(cfg);
             Ready(After(cfg, evs[..7]), {0, 1}, true, After(cfg, evs[..4]).queued)
    ensures var evs, again := OverlappingDeletes(cfg), WorkItem(CREATE, (1, "i"), "{}");
            After(cfg, evs).queued == After(cfg, evs[..4]).queued + [again] + [again]
  {
    var evs := OverlappingDeletes(cfg);
    var q := After(cfg, evs[..4]).queued;
    FireThenPutInRun(cfg, evs, 7, {0, 1}, q, 0);
    FireThenPutInRun(cfg, evs, 9, {0, 1} - {0}, q + [WorkItem(CREATE, (1, "i"), "{}")], 1);
    assert evs[..11] == evs;
  }
}
