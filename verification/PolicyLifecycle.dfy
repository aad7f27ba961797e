/** What every run of the policy lifecycle keeps: consistency, conservation and timing. */
module PolicyLifecycle {
  import opened Basics
  import opened PolicyKeys
  import opened PolicyModel

  // Consistency

  ghost predicate HasOwner(db: Db, k: (int, string)) {
    exists i :: (k.0, i) in db.instances && InScan((k.0, i), k)
  }

  // A deletion thread for id spawned at time d is still outstanding.
  ghost predicate Outstanding(s: State, id: Id, d: real) {
    exists n :: n in s.threads && s.threads[n].id == id && s.threads[n].spawnedAt == d
  }

  ghost predicate ThreadFits(s: State, th: Thread) {
    && s.cfg.t1 as real <= th.ttl <= s.cfg.MaxTtl() as real
    && th.spawnedAt <= s.now
    && (th.wakeAt.Some? ==> th.spawnedAt + th.ttl <= th.wakeAt.value)
  }

  ghost predicate Consistent(s: State) {
    RecordsMatch(s) && Owned(s) && MarkedAwaitThreads(s) && ThreadsFit(s)
  }

  lemma RemoveKeepsOwners(db: Db, id: Id)
    requires forall k :: k in db.handlers ==> HasOwner(db, k)
    ensures forall k :: k in Remove(db, id).handlers ==> HasOwner(Remove(db, id), k)
  {
    forall k | k in Remove(db, id).handlers
      ensures HasOwner(Remove(db, id), k)
    {
      var i :| (k.0, i) in db.instances && InScan((k.0, i), k);
      assert (k.0, i) in Remove(db, id).instances;
    }
  }

  lemma PutKeepsOwners(s: State, id: Id, body: Json)
    requires forall k :: k in s.db.handlers ==> HasOwner(s.db, k)
    ensures forall k :: k in Next(s, PutInstance(id, body, true)).db.handlers ==>
              HasOwner(Next(s, PutInstance(id, body, true)).db, k)
  {
    var db' := Next(s, PutInstance(id, body, true)).db;
    forall k | k in db'.handlers
      ensures HasOwner(db', k)
    {
      var i :| (k.0, i) in s.db.instances && InScan((k.0, i), k);
      assert (k.0, i) in db'.instances;
    }
  }

  lemma ResponseKeepsOwners(s: State, ev: Event)
    requires ev.Response?
    requires forall k :: k in s.db.handlers ==> HasOwner(s.db, k)
    ensures forall k :: k in Next(s, ev).db.handlers ==> HasOwner(Next(s, ev).db, k)
  {
    var db' := Next(s, ev).db;
    forall k | k in db'.handlers
      ensures HasOwner(db', k)
    {
      if k in s.db.handlers {
        var i :| (k.0, i) in s.db.instances && InScan((k.0, i), k);
        assert (k.0, i) in db'.instances;
      } else {
        assert InScan(ev.id, k);
        assert (k.0, ev.id.1) in db'.instances;
      }
    }
  }

  ghost predicate Owned(s: State) { forall k :: k in s.db.handlers ==> HasOwner(s.db, k) }

  ghost predicate RecordsMatch(s: State) {
    && s.db.instances.Keys == s.db.metadata.Keys
    && (forall id :: id in s.db.instances ==> id.0 in s.db.types)
  }

  ghost predicate MarkedAwaitThreads(s: State) {
    forall id :: id in s.db.metadata && s.db.metadata[id].Marked? ==> Outstanding(s, id, s.db.metadata[id].deletedAt)
  }

  ghost predicate ThreadsFit(s: State) {
    forall n :: n in s.threads ==> n < s.nextThread && ThreadFits(s, s.threads[n])
  }

  lemma RecordsMatchNext(s: State, ev: Event)
    requires RecordsMatch(s)
    ensures RecordsMatch(Next(s, ev))
  {
  }

  lemma ThreadsFitNext(s: State, ev: Event)
    requires ThreadsFit(s)
    ensures ThreadsFit(Next(s, ev))
  {
    var s' := Next(s, ev);
    forall n | n in s'.threads
      ensures n < s'.nextThread && ThreadFits(s', s'.threads[n])
    {
      assert n in s.threads ==> ThreadFits(s, s.threads[n]);
    }
  }

  // A step keeps every outstanding thread of an instance whose metadata it leaves alone.
  lemma MarkedAwaitThreadsNext(s: State, ev: Event)
    requires RecordsMatch(s) && MarkedAwaitThreads(s) && ThreadsFit(s)
    ensures MarkedAwaitThreads(Next(s, ev))
  {
    var s' := Next(s, ev);
    forall id | id in s'.db.metadata && s'.db.metadata[id].Marked?
      ensures Outstanding(s', id, s'.db.metadata[id].deletedAt)
    {
      if id in s.db.metadata && s.db.metadata[id] == s'.db.metadata[id] {
        var d := s.db.metadata[id].deletedAt;
        var n :| n in s.threads && s.threads[n].id == id && s.threads[n].spawnedAt == d;
        assert n in s'.threads && s'.threads[n].id == id && s'.threads[n].spawnedAt == d;
      } else {
        assert s'.threads[s.nextThread].id == id;
      }
    }
  }

  lemma OwnedNext(s: State, ev: Event)
    requires RecordsMatch(s) && Owned(s)
    ensures Owned(Next(s, ev))
  {
    if Verdict(s, ev) == Ok {
      match ev
      case PutInstance(id, body, valid) => PutKeepsOwners(s, id, body);
      case Response(_, _, _) => ResponseKeepsOwners(s, ev);
      case ThreadFire(n) => RemoveKeepsOwners(s.db, s.threads[n].id);
      case _ =>
        var db, db' := s.db, Next(s, ev).db;
        assert db'.handlers == db.handlers && db'.instances == db.instances;
        assert forall k :: k in db.handlers ==> (HasOwner(db, k) <==> HasOwner(db', k));
    }
  }

  lemma ConsistentNext(s: State, ev: Event)
    requires Consistent(s)
    ensures Consistent(Next(s, ev))
  {
    RecordsMatchNext(s, ev);
    OwnedNext(s, ev);
    MarkedAwaitThreadsNext(s, ev);
    ThreadsFitNext(s, ev);
  }

  /** In every reachable state: an instance is stored iff its metadata is, every handler entry has its
      instance, every instance has its type, and every instance marked deleted has an outstanding thread. */
  lemma {:induction false} ConsistentAlways(cfg: Config, evs: seq<Event>)
    ensures Consistent(After(cfg, evs))
  {
    if evs != [] {
      ConsistentAlways(cfg, evs[..|evs| - 1]);
      ConsistentNext(Before(cfg, evs), Last(evs));
    }
  }

  /** No request of any run finds an instance without its metadata record. */
  lemma NeverCrashes(cfg: Config, evs: seq<Event>, ev: Event, id: Id)
    ensures Verdict(After(cfg, evs), ev) != Crash
    ensures StatusOf(After(cfg, evs).db, id) != NoReply(Crash)
  {
    ConsistentAlways(cfg, evs);
  }

  // Conservation, counted over a run

  function Items(q: seq<WorkItem>, op: Operation, id: Id): nat {
    if q == [] then 0
    else Items(q[..|q| - 1], op, id) + (if q[|q| - 1].op == op && q[|q| - 1].id == id then 1 else 0)
  }

  predicate Stored(s: State, id: Id) { id in s.db.instances }

  // The last step took the instance out of the store.
  predicate RemovesLast(cfg: Config, evs: seq<Event>, id: Id)
    requires evs != []
  {
    Stored(Before(cfg, evs), id) && !Stored(After(cfg, evs), id)
  }

  function Removals(cfg: Config, evs: seq<Event>, id: Id): nat {
    if evs == [] then 0
    else Removals(cfg, evs[..|evs| - 1], id) + (if RemovesLast(cfg, evs, id) then 1 else 0)
  }

  function ThreadsOf(s: State, id: Id): set<nat> {
    set n | n in s.threads && s.threads[n].id == id
  }

  // The last step ended a thread of the instance without removing the instance: the thread failed its
  // validity check, or found nothing to remove after its sleep.
  predicate IdleEndLast(cfg: Config, evs: seq<Event>, id: Id)
    requires evs != []
  {
    && ThreadsOf(After(cfg, evs), id) < ThreadsOf(Before(cfg, evs), id)
    && !RemovesLast(cfg, evs, id)
  }

  function IdleEnds(cfg: Config, evs: seq<Event>, id: Id): nat {
    if evs == [] then 0
    else IdleEnds(cfg, evs[..|evs| - 1], id) + (if IdleEndLast(cfg, evs, id) then 1 else 0)
  }

  lemma ItemsOfStep(s: State, ev: Event, op: Operation, id: Id)
    ensures Items(Next(s, ev).queued, op, id) == Items(s.queued, op, id) +
              (if Verdict(s, ev) != Ok then 0 else
               match ev
               case PutInstance(i, _, _) => if i == id && op == (if Stored(s, id) then UPDATE else CREATE) then 1 else 0
               case DeleteInstance(i) => if i == id && op == DELETE then 1 else 0
               case _ => 0)
  {
    var q := Next(s, ev).queued;
    if q != s.queued {
      assert q[..|q| - 1] == s.queued;
    }
  }

  // A step that ends a thread of id.
  predicate EndsThread(s: State, ev: Event, id: Id) {
    && Verdict(s, ev) == Ok
    && (ev.ThreadStart? || ev.ThreadFire?)
    && s.threads[ev.n].id == id
    && (ev.ThreadStart? ==> InstanceCheck(s.db, id) != Ok)
  }

  // What a step does to the threads of an instance.
  lemma ThreadSetStep(s: State, ev: Event, id: Id)
    requires ThreadsFit(s)
    ensures ThreadsOf(Next(s, ev), id) ==
              if EndsThread(s, ev, id) then ThreadsOf(s, id) - {ev.n}
              else if Verdict(s, ev) == Ok && ev == DeleteInstance(id) then ThreadsOf(s, id) + {s.nextThread}
              else ThreadsOf(s, id)
  {
    var s' := Next(s, ev);
    if Verdict(s, ev) == Ok && ev.DeleteInstance? {
      var th := s'.threads[s.nextThread];
      assert s'.threads == s.threads[s.nextThread := th] && th.id == ev.id;
    } else if Verdict(s, ev) == Ok && (ev.ThreadStart? || ev.ThreadFire?) {
      assert forall n :: n != ev.n ==>
               (n in s'.threads <==> n in s.threads) && (n in s.threads ==> s'.threads[n] == s.threads[n]);
    } else {
      assert s'.threads == s.threads;
    }
  }

  lemma ThreadsOfStep(s: State, ev: Event, id: Id)
    requires ThreadsFit(s)
    ensures EndsThread(s, ev, id) ==>
              ThreadsOf(Next(s, ev), id) < ThreadsOf(s, id) && |ThreadsOf(Next(s, ev), id)| == |ThreadsOf(s, id)| - 1
    ensures Verdict(s, ev) == Ok && ev == DeleteInstance(id) ==>
              ThreadsOf(s, id) < ThreadsOf(Next(s, ev), id) && |ThreadsOf(Next(s, ev), id)| == |ThreadsOf(s, id)| + 1
    ensures !EndsThread(s, ev, id) && !(Verdict(s, ev) == Ok && ev == DeleteInstance(id)) ==>
              ThreadsOf(Next(s, ev), id) == ThreadsOf(s, id)
  {
    ThreadSetStep(s, ev, id);
    if EndsThread(s, ev, id) {
      assert ev.n in ThreadsOf(s, id);
    } else if Verdict(s, ev) == Ok && ev == DeleteInstance(id) {
      assert s.nextThread !in ThreadsOf(s, id);
    }
  }

  lemma RemovalStep(s: State, ev: Event, id: Id)
    requires RecordsMatch(s)
    ensures Stored(s, id) && !Stored(Next(s, ev), id) ==> ev.ThreadFire? && EndsThread(s, ev, id)
    ensures EndsThread(s, ev, id) && ev.ThreadFire? ==> !Stored(Next(s, ev), id)
    ensures EndsThread(s, ev, id) && ev.ThreadStart? ==> !Stored(s, id)
    ensures !Stored(s, id) && Stored(Next(s, ev), id) ==> Verdict(s, ev) == Ok && ev.PutInstance? && ev.id == id
    ensures Verdict(s, ev) == Ok && ev.PutInstance? && ev.id == id ==> Stored(Next(s, ev), id)
  {
  }

  /** Queued CREATEs less removals is one for a stored instance and zero for any other; queued DELETEs are
      removals plus idle thread ends plus outstanding threads. */
  lemma {:induction false} Conservation(cfg: Config, evs: seq<Event>, id: Id)
    ensures Items(After(cfg, evs).queued, CREATE, id) ==
              Removals(cfg, evs, id) + (if Stored(After(cfg, evs), id) then 1 else 0)
    ensures Items(After(cfg, evs).queued, DELETE, id) ==
              Removals(cfg, evs, id) + IdleEnds(cfg, evs, id) + |ThreadsOf(After(cfg, evs), id)|
  {
    if evs != [] {
      var s, ev := Before(cfg, evs), Last(evs);
      Conservation(cfg, evs[..|evs| - 1], id);
      ConsistentAlways(cfg, evs[..|evs| - 1]);
      ItemsOfStep(s, ev, CREATE, id);
      ItemsOfStep(s, ev, DELETE, id);
      ThreadsOfStep(s, ev, id);
      RemovalStep(s, ev, id);
    } else {
      assert ThreadsOf(Init(cfg), id) == {};
    }
  }

  /** However deletions overlap, an id never has more than one CREATE beyond its DELETEs. */
  lemma CreatesBoundedByDeletes(cfg: Config, evs: seq<Event>, id: Id)
    ensures Items(After(cfg, evs).queued, CREATE, id) <= Items(After(cfg, evs).queued, DELETE, id) + 1
  {
    Conservation(cfg, evs, id);
  }

  // Timing

  // Some DELETE of id was accepted at time d.
  predicate DeletedAt(cfg: Config, evs: seq<Event>, id: Id, d: real) {
    evs != [] &&
    ((Last(evs) == DeleteInstance(id) && Accepted(cfg, evs) && Before(cfg, evs).now == d)
     || DeletedAt(cfg, evs[..|evs| - 1], id, d))
  }

  // A thread after a step was there before it, of the same id and birth, or is the one an accepted DELETE starts.
  lemma ThreadOrigin(s: State, ev: Event, n: nat)
    requires n in Next(s, ev).threads
    ensures var th := Next(s, ev).threads[n];
            || (n in s.threads && s.threads[n].id == th.id && s.threads[n].spawnedAt == th.spawnedAt)
            || (ev == DeleteInstance(th.id) && Verdict(s, ev) == Ok && th.spawnedAt == s.now)
  {
  }

  lemma {:induction false} ThreadsComeFromDeletes(cfg: Config, evs: seq<Event>, n: nat)
    requires n in After(cfg, evs).threads
    ensures DeletedAt(cfg, evs, After(cfg, evs).threads[n].id, After(cfg, evs).threads[n].spawnedAt)
  {
    ThreadOrigin(Before(cfg, evs), Last(evs), n);
    var th := After(cfg, evs).threads[n];
    if !(Last(evs) == DeleteInstance(th.id) && Accepted(cfg, evs) && Before(cfg, evs).now == th.spawnedAt) {
      ThreadsComeFromDeletes(cfg, evs[..|evs| - 1], n);
    }
  }

  // Some DELETE of id was accepted at least T1 before the given time.
  ghost predicate DeletedT1Before(cfg: Config, evs: seq<Event>, id: Id, now: real) {
    exists d :: DeletedAt(cfg, evs, id, d) && d + cfg.t1 as real <= now
  }

  /** An instance leaves the store only at least T1 after some accepted DELETE of the same id. */
  lemma RemovedOnlyAfterT1(cfg: Config, evs: seq<Event>, id: Id)
    requires evs != [] && RemovesLast(cfg, evs, id)
    ensures DeletedT1Before(cfg, evs[..|evs| - 1], id, After(cfg, evs).now)
  {
    var s, ev := Before(cfg, evs), Last(evs);
    ConsistentAlways(cfg, evs[..|evs| - 1]);
    ConfigFixed(cfg, evs[..|evs| - 1]);
    RemovalStep(s, ev, id);
    ThreadsComeFromDeletes(cfg, evs[..|evs| - 1], ev.n);
    assert ThreadFits(s, s.threads[ev.n]);
    assert DeletedAt(cfg, evs[..|evs| - 1], id, s.threads[ev.n].spawnedAt);
  }

  lemma {:induction false} ConfigFixed(cfg: Config, evs: seq<Event>)
    ensures After(cfg, evs).cfg == cfg
  {
    if evs != [] {
      ConfigFixed(cfg, evs[..|evs| - 1]);
    }
  }

  // No deletion thread has outlived its time to live by more than a lag, which covers the time before its check and
  // the time between its waking and its removal step.
  ghost predicate OnTime(s: State, lag: real) {
    forall n :: n in s.threads ==> s.now <= s.threads[n].spawnedAt + s.threads[n].ttl + lag
  }

  /** While threads end within a lag, no instance marked deleted is stored past deleted_at + max(T1, T2) + lag. */
  lemma GoneByMaxTtl(cfg: Config, evs: seq<Event>, id: Id, lag: real)
    requires OnTime(After(cfg, evs), lag)
    requires Stored(After(cfg, evs), id)
    ensures id in After(cfg, evs).db.metadata
    ensures After(cfg, evs).db.metadata[id].Marked? ==>
              After(cfg, evs).now <= After(cfg, evs).db.metadata[id].deletedAt + cfg.MaxTtl() as real + lag
  {
    ConsistentAlways(cfg, evs);
    ConfigFixed(cfg, evs);
    var s := After(cfg, evs);
    if s.db.metadata[id].Marked? {
      var n :| n in s.threads && s.threads[n].id == id && s.threads[n].spawnedAt == s.db.metadata[id].deletedAt;
      assert ThreadFits(s, s.threads[n]);
    }
  }

  // The time of the latest accepted PUT of id.
  function LatestPut(cfg: Config, evs: seq<Event>, id: Id): Option<real> {
    if evs == [] then None
    else if Last(evs).PutInstance? && Last(evs).id == id && Accepted(cfg, evs) then Some(Before(cfg, evs).now)
    else LatestPut(cfg, evs[..|evs| - 1], id)
  }

  lemma CreatedAtStep(s: State, ev: Event, id: Id)
    requires RecordsMatch(s) && Stored(Next(s, ev), id)
    ensures id in Next(s, ev).db.metadata
    ensures Verdict(s, ev) == Ok && ev.PutInstance? && ev.id == id ==> Next(s, ev).db.metadata[id].createdAt == s.now
    ensures !(Verdict(s, ev) == Ok && ev.PutInstance? && ev.id == id) ==>
              Stored(s, id) && Next(s, ev).db.metadata[id].createdAt == s.db.metadata[id].createdAt
  {
  }

  /** created_at is the time of the latest PUT, across any number of DELETEs. */
  lemma {:induction false} CreatedAtIsLatestPut(cfg: Config, evs: seq<Event>, id: Id)
    requires Stored(After(cfg, evs), id)
    ensures id in After(cfg, evs).db.metadata
    ensures LatestPut(cfg, evs, id) == Some(After(cfg, evs).db.metadata[id].createdAt)
  {
    ConsistentAlways(cfg, evs[..|evs| - 1]);
    CreatedAtStep(Before(cfg, evs), Last(evs), id);
    if Stored(Before(cfg, evs), id) {
      CreatedAtIsLatestPut(cfg, evs[..|evs| - 1], id);
    }
  }
}
