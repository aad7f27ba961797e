/** What each step of the policy lifecycle does and refuses, on the stored data alone, and where stored bodies, queued
    items and status replies come from in any run. */
module PolicyLaws {
  import opened Basics
  import opened PolicyKeys
  import opened PolicyModel
  import opened PolicyLifecycle

  // Steps

  /** A type is stored only under the id its body names, and only once. */
  lemma PutTypeLaw(s: State, t: int, bodyId: int, body: Json)
    ensures var s', r := Next(s, PutType(t, bodyId, body)), Verdict(s, PutType(t, bodyId, body));
            if t != bodyId then r == TypeIdMismatch && s' == s
            else if t in s.db.types then r == TypeAlreadyExists && s' == s
            else r == Ok && s' == s.(db := s.db.(types := s.db.types[t := body]))
  {
  }

  /** A type is deleted only if it is stored and no instance of it is. */
  lemma DeleteTypeLaw(s: State, t: int)
    ensures var s', r := Next(s, DeleteType(t)), Verdict(s, DeleteType(t));
            if t !in s.db.types then r == TypeNotFound && s' == s
            else if exists i :: (t, i) in s.db.instances then r == NonEmptyType && s' == s
            else r == Ok && s' == s.(db := s.db.(types := s.db.types - {t}))
  {
    if id :| id in s.db.instances && id.0 == t {
      assert (t, id.1) in s.db.instances;
    }
  }

  /** A PUT of an unknown type or with a body that violates the schema changes nothing; any other stores the body with
      fresh metadata, clears the handlers of a stored instance, and queues one CREATE or UPDATE. */
  lemma PutInstanceLaw(s: State, id: Id, body: Json, valid: bool)
    ensures var s', r := Next(s, PutInstance(id, body, valid)), Verdict(s, PutInstance(id, body, valid));
            if id.0 !in s.db.types then r == TypeNotFound && s' == s
            else if !valid then r == SchemaViolation && s' == s
            else r == Ok && s' == s.(db := s'.db, queued := s'.queued)
                 && s'.queued == s.queued + [WorkItem(if id in s.db.instances then UPDATE else CREATE, id, body)]
                 && s'.db.types == s.db.types && s'.db.instances == s.db.instances[id := body]
                 && s'.db.metadata == s.db.metadata[id := Live(s.now)]
                 && (forall k :: k in s'.db.handlers <==>
                       k in s.db.handlers && !(id in s.db.instances && k.0 == id.0 && id.1 + "." <= k.1))
                 && (forall k :: k in s'.db.handlers ==> s'.db.handlers[k] == s.db.handlers[k])
  {
  }

  /** A DELETE of an unknown type or instance changes nothing; any other marks the instance with the time, keeps what
      it stores, starts one thread with T1 or the larger delay, and queues one DELETE. */
  lemma DeleteInstanceLaw(s: State, id: Id)
    requires id in s.db.instances ==> id in s.db.metadata
    ensures var s', r := Next(s, DeleteInstance(id)), Verdict(s, DeleteInstance(id));
            if id.0 !in s.db.types then r == TypeNotFound && s' == s
            else if id !in s.db.instances then r == InstanceNotFound && s' == s
            else
              var answered := exists k :: k in s.db.handlers && k.0 == id.0 && id.1 + "." <= k.1;
              var delay := if answered && s.cfg.t1 < s.cfg.t2 then s.cfg.t2 else s.cfg.t1;
              && r == Ok && s'.cfg == s.cfg && s'.now == s.now
              && s'.db == s.db.(metadata := s.db.metadata[id := Marked(s.db.metadata[id].createdAt, s.now)])
              && s'.threads == s.threads[s.nextThread := Thread(id, delay as real, s.now, None)]
              && s'.nextThread == s.nextThread + 1
              && s'.queued == s.queued + [WorkItem(DELETE, id, "")]
  {
    if k :| k in s.db.handlers && k.0 == id.0 && id.1 + "." <= k.1 {
      assert k in Handlers(s.db, id);
    } else {
      assert Handlers(s.db, id) == map[];
    }
  }

  /** A response for an unknown type or instance changes nothing; any other sets that handler's status only. */
  lemma ResponseLaw(s: State, id: Id, handler: string, status: string)
    ensures var s', r := Next(s, Response(id, handler, status)), Verdict(s, Response(id, handler, status));
            if id.0 !in s.db.types then r == TypeNotFound && s' == s
            else if id !in s.db.instances then r == InstanceNotFound && s' == s
            else r == Ok &&
                 s' == s.(db := s.db.(handlers := s.db.handlers[(id.0, id.1 + "." + handler) := status]))
  {
  }

  /** A thread that finds its type or instance gone ends; any other sleeps for exactly its delay. */
  lemma ThreadStartLaw(s: State, n: nat)
    requires n in s.threads && s.threads[n].wakeAt == None
    ensures var s', th := Next(s, ThreadStart(n)), s.threads[n];
            if th.id.0 in s.db.types && th.id in s.db.instances
            then s' == s.(threads := s.threads[n := Thread(th.id, th.ttl, th.spawnedAt, Some(s.now + th.ttl))])
            else s' == s.(threads := s.threads - {n})
  {
  }

  /** A thread whose sleep is over removes its instance, the metadata and the handlers of its scan, and ends. */
  lemma ThreadFireLaw(s: State, n: nat)
    requires n in s.threads && s.threads[n].wakeAt.Some? && s.threads[n].wakeAt.value <= s.now
    ensures var s', id := Next(s, ThreadFire(n)), s.threads[n].id;
            && s' == s.(db := s'.db, threads := s.threads - {n})
            && s'.db.types == s.db.types && s'.db.instances == s.db.instances - {id}
            && s'.db.metadata == s.db.metadata - {id}
            && (forall k :: k in s'.db.handlers <==> k in s.db.handlers && !(k.0 == id.0 && id.1 + "." <= k.1))
            && (forall k :: k in s'.db.handlers ==> s'.db.handlers[k] == s.db.handlers[k])
  {
  }

  /** A thread step before its time, or of no such thread, changes nothing, and time only passes. */
  lemma WaitingLaw(s: State, n: nat, dt: real)
    ensures !(n in s.threads && s.threads[n].wakeAt == None) ==> Next(s, ThreadStart(n)) == s
    ensures !(n in s.threads && s.threads[n].wakeAt.Some? && s.threads[n].wakeAt.value <= s.now) ==>
              Next(s, ThreadFire(n)) == s
    ensures Next(s, Tick(dt)) == if dt >= 0.0 then s.(now := s.now + dt) else s
  {
  }

  // Runs

  // Event n is a PUT of the instance whose body meets the schema, of a type stored at that time.
  predicate PutAt(cfg: Config, evs: seq<Event>, n: nat, id: Id) {
    && n < |evs| && evs[n].PutInstance? && evs[n].id == id && evs[n].valid
    && id.0 in After(cfg, evs[..n]).db.types
  }

  // Event n is a DELETE of an instance stored at that time, of a stored type.
  predicate DeleteAt(cfg: Config, evs: seq<Event>, n: nat, id: Id) {
    && n < |evs| && evs[n] == DeleteInstance(id)
    && id.0 in After(cfg, evs[..n]).db.types && id in After(cfg, evs[..n]).db.instances
  }

  lemma PrefixAt(cfg: Config, evs: seq<Event>, k: nat, n: nat, id: Id)
    requires n < k <= |evs|
    ensures PutAt(cfg, evs[..k], n, id) == PutAt(cfg, evs, n, id)
    ensures DeleteAt(cfg, evs[..k], n, id) == DeleteAt(cfg, evs, n, id)
  {
    assert evs[..k][..n] == evs[..n];
  }

  // The position of the latest PUT, and of the latest DELETE after it.
  function LatestPutAt(cfg: Config, evs: seq<Event>, id: Id): (n: Option<nat>)
    ensures n.Some? ==> n.value < |evs|
  {
    if evs == [] then None
    else if PutAt(cfg, evs, |evs| - 1, id) then Some(|evs| - 1)
    else LatestPutAt(cfg, evs[..|evs| - 1], id)
  }

  function DeleteSincePut(cfg: Config, evs: seq<Event>, id: Id): (n: Option<nat>)
    ensures n.Some? ==> n.value < |evs|
  {
    if evs == [] || PutAt(cfg, evs, |evs| - 1, id) then None
    else if DeleteAt(cfg, evs, |evs| - 1, id) then Some(|evs| - 1)
    else DeleteSincePut(cfg, evs[..|evs| - 1], id)
  }

  /** The two positions are what their names say. */
  lemma {:induction false} LatestPutIsLatest(cfg: Config, evs: seq<Event>, id: Id, n: nat)
    ensures LatestPutAt(cfg, evs, id) == Some(n) <==>
            PutAt(cfg, evs, n, id) && forall m :: n < m < |evs| ==> !PutAt(cfg, evs, m, id)
  {
    if evs != [] {
      var k := |evs| - 1;
      forall m | 0 <= m < k
        ensures PutAt(cfg, evs[..k], m, id) == PutAt(cfg, evs, m, id)
      {
        PrefixAt(cfg, evs, k, m, id);
      }
      LatestPutIsLatest(cfg, evs[..k], id, n);
    }
  }

  lemma {:induction false} DeleteSincePutIsLatest(cfg: Config, evs: seq<Event>, id: Id, n: nat)
    ensures DeleteSincePut(cfg, evs, id) == Some(n) <==>
            && DeleteAt(cfg, evs, n, id)
            && forall m :: n < m < |evs| ==> !PutAt(cfg, evs, m, id) && !DeleteAt(cfg, evs, m, id)
  {
    if evs != [] {
      var k := |evs| - 1;
      forall m | 0 <= m < k
        ensures PutAt(cfg, evs[..k], m, id) == PutAt(cfg, evs, m, id)
        ensures DeleteAt(cfg, evs[..k], m, id) == DeleteAt(cfg, evs, m, id)
      {
        PrefixAt(cfg, evs, k, m, id);
      }
      DeleteSincePutIsLatest(cfg, evs[..k], id, n);
    }
  }

  // The records of a stored instance after a step.
  lemma RecordsStep(s: State, ev: Event, id: Id)
    requires RecordsMatch(s) && Stored(Next(s, ev), id)
    ensures id in Next(s, ev).db.metadata
    ensures var put := ev.PutInstance? && ev.id == id && ev.valid && id.0 in s.db.types;
            var marked := ev == DeleteInstance(id) && id.0 in s.db.types && id in s.db.instances;
            if put then Next(s, ev).db.instances[id] == ev.body && Next(s, ev).db.metadata[id] == Live(s.now)
            else && id in s.db.instances && Next(s, ev).db.instances[id] == s.db.instances[id]
                 && id in s.db.metadata
                 && Next(s, ev).db.metadata[id] ==
                    if marked then Marked(s.db.metadata[id].createdAt, s.now) else s.db.metadata[id]
  {
  }

  // What the history says of a stored instance.
  function MetadataOf(cfg: Config, evs: seq<Event>, put: nat, deleted: Option<nat>): Metadata
    requires put < |evs| && (deleted.Some? ==> deleted.value < |evs|)
  {
    var c := After(cfg, evs[..put]).now;
    if deleted == None then Live(c) else Marked(c, After(cfg, evs[..deleted.value]).now)
  }

  /** A stored instance has the body of its latest PUT; its metadata has the time of that PUT as created_at, and it is
      marked deleted exactly if a DELETE came since, with the time of the latest such DELETE. */
  lemma {:induction false} RecordsAreHistory(cfg: Config, evs: seq<Event>, id: Id)
    requires Stored(After(cfg, evs), id)
    ensures id in After(cfg, evs).db.metadata && LatestPutAt(cfg, evs, id).Some?
    ensures var put, deleted := LatestPutAt(cfg, evs, id).value, DeleteSincePut(cfg, evs, id);
            && evs[put].PutInstance? && After(cfg, evs).db.instances[id] == evs[put].body
            && After(cfg, evs).db.metadata[id] == MetadataOf(cfg, evs, put, deleted)
  {
    var k := |evs| - 1;
    var before, s := evs[..k], Before(cfg, evs);
    ConsistentAlways(cfg, before);
    RecordsStep(s, evs[k], id);
    if !PutAt(cfg, evs, k, id) {
      RecordsAreHistory(cfg, before, id);
      var put := LatestPutAt(cfg, before, id).value;
      LatestPutIsLatest(cfg, before, id, put);
      PrefixAt(cfg, evs, k, put, id);
      assert before[..put] == evs[..put];
      if DeleteSincePut(cfg, before, id).Some? {
        assert before[..DeleteSincePut(cfg, before, id).value] == evs[..DeleteSincePut(cfg, before, id).value];
      }
    }
  }

  /** A status query: an unknown type and an unknown instance are told apart, and any stored instance gets a reply with
      the metadata of its history. */
  lemma StatusReplyIsHistory(cfg: Config, evs: seq<Event>, id: Id)
    ensures var db, r := After(cfg, evs).db, StatusOf(After(cfg, evs).db, id);
            if id.0 !in db.types then r == NoReply(TypeNotFound)
            else if id !in db.instances then r == NoReply(InstanceNotFound)
            else && r.StatusReply? && LatestPutAt(cfg, evs, id).Some?
                 && r.metadata == MetadataOf(cfg, evs, LatestPutAt(cfg, evs, id).value, DeleteSincePut(cfg, evs, id))
  {
    if id in After(cfg, evs).db.instances {
      RecordsAreHistory(cfg, evs, id);
    }
  }

  // The request behind a queued item.
  ghost predicate Requested(cfg: Config, evs: seq<Event>, n: nat, item: WorkItem) {
    if item.op == DELETE then DeleteAt(cfg, evs, n, item.id) && item.payload == ""
    else && PutAt(cfg, evs, n, item.id) && evs[n].body == item.payload
         && (item.op == UPDATE <==> item.id in After(cfg, evs[..n]).db.instances)
  }

  // Event n is a request that is carried out and so queues an item.
  predicate QueuesAt(cfg: Config, evs: seq<Event>, n: nat) {
    n < |evs| && ((evs[n].PutInstance? && PutAt(cfg, evs, n, evs[n].id)) ||
                  (evs[n].DeleteInstance? && DeleteAt(cfg, evs, n, evs[n].id)))
  }

  // The positions of those requests, in order.
  function Requests(cfg: Config, evs: seq<Event>): (ns: seq<nat>)
    ensures forall j :: 0 <= j < |ns| ==> ns[j] < |evs|
    ensures forall j, k :: 0 <= j < k < |ns| ==> ns[j] < ns[k]
  {
    if evs == [] then [] else
    Requests(cfg, evs[..|evs| - 1]) + if QueuesAt(cfg, evs, |evs| - 1) then [|evs| - 1] else []
  }

  lemma {:induction false} RequestsAreAll(cfg: Config, evs: seq<Event>, n: nat)
    ensures n in Requests(cfg, evs) <==> QueuesAt(cfg, evs, n)
  {
    if evs != [] {
      var k := |evs| - 1;
      RequestsAreAll(cfg, evs[..k], n);
      if n < k {
        assert evs[..k][..n] == evs[..n];
      }
    }
  }

  lemma QueueStep(cfg: Config, evs: seq<Event>)
    requires evs != []
    ensures var n, q, q' := |evs| - 1, Before(cfg, evs).queued, After(cfg, evs).queued;
            if QueuesAt(cfg, evs, n) then |q'| == |q| + 1 && q'[..|q|] == q && Requested(cfg, evs, n, q'[|q|])
            else q' == q
  {
    var n, s, ev := |evs| - 1, Before(cfg, evs), Last(evs);
    ConsistentAlways(cfg, evs[..n]);
    match ev
    case PutInstance(id, body, valid) => PutInstanceLaw(s, id, body, valid);
    case DeleteInstance(id) => DeleteInstanceLaw(s, id);
    case _ =>
  }

  lemma RequestedInPrefix(cfg: Config, evs: seq<Event>, k: nat, n: nat, item: WorkItem)
    requires n < k <= |evs|
    ensures Requested(cfg, evs[..k], n, item) == Requested(cfg, evs, n, item)
  {
    PrefixAt(cfg, evs, k, n, item.id);
    assert evs[..k][..n] == evs[..n];
  }

  /** The queue has one item for each PUT of a valid body under a stored type and each DELETE of a stored instance, in
      order: a CREATE or UPDATE with that body, by whether the instance was stored, or a DELETE with no payload. */
  lemma {:induction false} QueueIsHistory(cfg: Config, evs: seq<Event>, k: nat)
    ensures |After(cfg, evs).queued| == |Requests(cfg, evs)|
    ensures k < |Requests(cfg, evs)| ==> Requested(cfg, evs, Requests(cfg, evs)[k], After(cfg, evs).queued[k])
  {
    if evs != [] {
      var n := |evs| - 1;
      QueueIsHistory(cfg, evs[..n], k);
      QueueStep(cfg, evs);
      if k < |Requests(cfg, evs[..n])| {
        RequestedInPrefix(cfg, evs, n, Requests(cfg, evs[..n])[k], Before(cfg, evs).queued[k]);
        assert After(cfg, evs).queued[k] == After(cfg, evs).queued[..|Before(cfg, evs).queued|][k];
      }
    }
  }

  // Event n stores the type.
  predicate TypePutAt(cfg: Config, evs: seq<Event>, n: nat, t: int) {
    n < |evs| && evs[n].PutType? && evs[n].t == t && evs[n].bodyId == t && t !in After(cfg, evs[..n]).db.types
  }

  // Event n is a DELETE of the type while no instance of it is stored.
  ghost predicate TypeDeleteAt(cfg: Config, evs: seq<Event>, n: nat, t: int) {
    n < |evs| && evs[n] == DeleteType(t) && forall i :: (t, i) !in After(cfg, evs[..n]).db.instances
  }

  // Event n stored the type with that body, and nothing deleted it since.
  ghost predicate TypeStands(cfg: Config, evs: seq<Event>, n: nat, t: int, body: Json) {
    TypePutAt(cfg, evs, n, t) && evs[n].body == body && forall m :: n < m < |evs| ==> !TypeDeleteAt(cfg, evs, m, t)
  }

  ghost predicate TypeStandsNow(cfg: Config, evs: seq<Event>, t: int, body: Json) {
    exists n: nat :: TypeStands(cfg, evs, n, t, body)
  }

  lemma TypeAtInPrefix(cfg: Config, evs: seq<Event>, k: nat, n: nat, t: int)
    requires n < k <= |evs|
    ensures TypePutAt(cfg, evs[..k], n, t) == TypePutAt(cfg, evs, n, t)
    ensures TypeDeleteAt(cfg, evs[..k], n, t) == TypeDeleteAt(cfg, evs, n, t)
  {
    assert evs[..k][..n] == evs[..n];
  }

  lemma TypeStep(cfg: Config, evs: seq<Event>, t: int)
    requires evs != []
    ensures var n, types, types' := |evs| - 1, Before(cfg, evs).db.types, After(cfg, evs).db.types;
            if TypePutAt(cfg, evs, n, t) then t in types' && types'[t] == evs[n].body
            else if TypeDeleteAt(cfg, evs, n, t) then t !in types'
            else (t in types' <==> t in types) && (t in types ==> types'[t] == types[t])
  {
    var s, ev := Before(cfg, evs), Last(evs);
    match ev
    case PutType(u, bodyId, body) => PutTypeLaw(s, u, bodyId, body);
    case DeleteType(u) => DeleteTypeLaw(s, u);
    case _ =>
  }

  /** A type is stored exactly if it was put under its own id while absent and not deleted since, and then with the
      body of that PUT. */
  lemma {:induction false} TypeIsHistory(cfg: Config, evs: seq<Event>, t: int, body: Json)
    ensures t in After(cfg, evs).db.types && After(cfg, evs).db.types[t] == body <==>
            TypeStandsNow(cfg, evs, t, body)
  {
    if evs != [] {
      var k := |evs| - 1;
      TypeIsHistory(cfg, evs[..k], t, body);
      TypeStep(cfg, evs, t);
      TypeStandsStep(cfg, evs, t, body);
    }
  }

  lemma TypesInPrefix(cfg: Config, evs: seq<Event>, k: nat, t: int)
    requires k <= |evs|
    ensures forall n: nat :: n < k ==> TypePutAt(cfg, evs[..k], n, t) == TypePutAt(cfg, evs, n, t)
    ensures forall n: nat :: n < k ==> TypeDeleteAt(cfg, evs[..k], n, t) == TypeDeleteAt(cfg, evs, n, t)
  {
    forall n: nat | n < k
      ensures TypePutAt(cfg, evs[..k], n, t) == TypePutAt(cfg, evs, n, t)
      ensures TypeDeleteAt(cfg, evs[..k], n, t) == TypeDeleteAt(cfg, evs, n, t)
    {
      TypeAtInPrefix(cfg, evs, k, n, t);
    }
  }

  lemma TypeStandsOlder(cfg: Config, evs: seq<Event>, n: nat, t: int, body: Json)
    requires evs != [] && n < |evs| - 1
    ensures TypeStands(cfg, evs, n, t, body) <==>
            TypeStands(cfg, evs[..|evs| - 1], n, t, body) && !TypeDeleteAt(cfg, evs, |evs| - 1, t)
  {
    TypesInPrefix(cfg, evs, |evs| - 1, t);
  }

  lemma TypeStandsStep(cfg: Config, evs: seq<Event>, t: int, body: Json)
    requires evs != []
    requires t in Before(cfg, evs).db.types && Before(cfg, evs).db.types[t] == body <==>
             TypeStandsNow(cfg, evs[..|evs| - 1], t, body)
    ensures var k := |evs| - 1;
            TypeStandsNow(cfg, evs, t, body) <==>
            if TypePutAt(cfg, evs, k, t) then evs[k].body == body
            else !TypeDeleteAt(cfg, evs, k, t) && TypeStandsNow(cfg, evs[..k], t, body)
  {
    var k := |evs| - 1;
    if n: nat :| TypeStands(cfg, evs, n, t, body) && n < k {
      TypeStandsOlder(cfg, evs, n, t, body);
    }
    if n: nat :| TypeStands(cfg, evs[..k], n, t, body) {
      TypeStandsOlder(cfg, evs, n, t, body);
    }
    if TypePutAt(cfg, evs, k, t) && evs[k].body == body {
      assert TypeStands(cfg, evs, k, t, body);
    }
  }
}
