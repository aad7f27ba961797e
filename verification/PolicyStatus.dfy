/** The reported status of an instance against the history of its PUTs and responses. */
module PolicyStatus {
  import opened Basics
  import opened PolicyKeys
  import opened PolicyModel
  import opened PolicyLifecycle

  // The status in the latest accepted response of a handler since the latest accepted PUT of the instance.
  function LatestStatus(cfg: Config, evs: seq<Event>, id: Id, h: string): Option<string> {
    if evs == [] then None
    else
      var ev := Last(evs);
      if Accepted(cfg, evs) && ev.PutInstance? && ev.id == id then None
      else if Accepted(cfg, evs) && ev.Response? && ev.id == id && ev.handler == h then Some(ev.status)
      else LatestStatus(cfg, evs[..|evs| - 1], id, h)
  }

  // Every stored instance reports "IN EFFECT" iff the latest status of some handler is "OK".
  ghost predicate StatusIsHistory(cfg: Config, evs: seq<Event>) {
    forall id :: Stored(After(cfg, evs), id) ==>
                   (InEffect(cfg, evs, id) <==> SomeHandlerOk(cfg, evs, id))
  }

  ghost predicate InEffect(cfg: Config, evs: seq<Event>, id: Id) {
    var r := StatusOf(After(cfg, evs).db, id);
    r.StatusReply? && r.inEffect
  }

  ghost predicate SomeHandlerOk(cfg: Config, evs: seq<Event>, id: Id) {
    exists h :: LatestStatus(cfg, evs, id, h) == Some("OK")
  }

  // Every request and response of the run uses instance ids from the set.
  ghost predicate UsesIds(evs: seq<Event>, ids: iset<string>) {
    forall ev :: ev in evs ==> (ev.PutInstance? || ev.DeleteInstance? || ev.Response? ==> ev.id.1 in ids)
  }

  function HandlerAt(db: Db, id: Id, h: string): Option<string> {
    if (id.0, Slot(id.1, h)) in db.handlers then Some(db.handlers[(id.0, Slot(id.1, h))]) else None
  }

  // Every handler entry is the slot of a stored instance whose id is in the set.
  ghost predicate SlotsOwned(db: Db, ids: iset<string>) {
    forall k :: k in db.handlers ==> exists i, h :: (k.0, i) in db.instances && i in ids && k.1 == Slot(i, h)
  }

  lemma {:induction false} SlotOwner(db: Db, ids: iset<string>, k: (int, string), id: Id) returns (h: string)
    requires Separable(ids) && SlotsOwned(db, ids) && id.1 in ids
    requires k in db.handlers && InScan(id, k)
    ensures id in db.instances && k == (id.0, Slot(id.1, h))
  {
    var i, g :| (k.0, i) in db.instances && i in ids && k.1 == Slot(i, g);
    ScanMeetsOnlyIf(id.1, i, g);
    h := g;
  }

  lemma SlotInScan(id: Id, h: string)
    ensures InScan(id, (id.0, Slot(id.1, h)))
  {
  }

  // Clearing one instance's scan leaves the handlers of every other instance alone.
  lemma {:induction false} ClearIsLocal(db: Db, ids: iset<string>, id: Id, other: Id, h: string)
    requires Separable(ids) && id.1 in ids && other.1 in ids
    ensures HandlerAt(ClearHandlers(db, id), other, h) == if other == id then None else HandlerAt(db, other, h)
  {
    SlotInScan(id, h);
    if other != id && InScan(id, (other.0, Slot(other.1, h))) {
      ScanMeetsOnlyIf(id.1, other.1, h);
    }
  }

  // Every stored instance and every deletion thread has an id of the set.
  ghost predicate KnownIds(s: State, ids: iset<string>) {
    && (forall id :: id in s.db.instances ==> id.1 in ids)
    && (forall n :: n in s.threads ==> s.threads[n].id.1 in ids)
  }

  lemma {:induction false} KnownIdsNext(s: State, ev: Event, ids: iset<string>)
    requires UsesIds([ev], ids) && KnownIds(s, ids)
    ensures KnownIds(Next(s, ev), ids)
  {
    assert ev in [ev];
  }

  lemma HandlerOrigin(s: State, ev: Event, k: (int, string))
    requires k in Next(s, ev).db.handlers && k !in s.db.handlers
    ensures Verdict(s, ev) == Ok && ev.Response? && k == (ev.id.0, Slot(ev.id.1, ev.handler))
  {
  }

  lemma OwnerKept(s: State, ev: Event, k: (int, string), id: Id)
    requires k in Next(s, ev).db.handlers && k in s.db.handlers && id in s.db.instances && InScan(id, k)
    ensures id in Next(s, ev).db.instances
  {
  }

  // A step leaves a handler entry of the next store with the instance that owned it, or just gave it one.
  lemma {:induction false} OwnerStays(s: State, ev: Event, ids: iset<string>, k: (int, string))
    returns (i: string, h: string)
    requires UsesIds([ev], ids) && SlotsOwned(s.db, ids) && k in Next(s, ev).db.handlers
    ensures (k.0, i) in Next(s, ev).db.instances && i in ids && k.1 == Slot(i, h)
  {
    if k in s.db.handlers {
      i, h :| (k.0, i) in s.db.instances && i in ids && k.1 == Slot(i, h);
      SlotInScan((k.0, i), h);
      OwnerKept(s, ev, k, (k.0, i));
    } else {
      HandlerOrigin(s, ev, k);
      assert ev in [ev];
      i, h := ev.id.1, ev.handler;
    }
  }

  lemma {:induction false} SlotsOwnedNext(s: State, ev: Event, ids: iset<string>)
    requires UsesIds([ev], ids) && SlotsOwned(s.db, ids)
    ensures SlotsOwned(Next(s, ev).db, ids)
  {
    forall k | k in Next(s, ev).db.handlers
      ensures exists i, h :: (k.0, i) in Next(s, ev).db.instances && i in ids && k.1 == Slot(i, h)
    {
      var i, h := OwnerStays(s, ev, ids, k);
    }
  }

  lemma {:induction false} HandlersAreHistory(cfg: Config, evs: seq<Event>, ids: iset<string>)
    requires Separable(ids) && UsesIds(evs, ids)
    ensures SlotsOwned(After(cfg, evs).db, ids) && KnownIds(After(cfg, evs), ids)
    ensures forall id, h :: Stored(After(cfg, evs), id) ==>
              HandlerAt(After(cfg, evs).db, id, h) == LatestStatus(cfg, evs, id, h)
  {
    if evs != [] {
      var s, ev := Before(cfg, evs), Last(evs);
      assert ev in evs;
      HandlersAreHistory(cfg, evs[..|evs| - 1], ids);
      ConsistentAlways(cfg, evs[..|evs| - 1]);
      SlotsOwnedNext(s, ev, ids);
      KnownIdsNext(s, ev, ids);
      forall id, h | Stored(After(cfg, evs), id)
        ensures HandlerAt(After(cfg, evs).db, id, h) == LatestStatus(cfg, evs, id, h)
      {
        HandlerStep(s, ev, ids, id, h);
      }
    }
  }

  lemma {:induction false} UnstoredHasNoHandler(db: Db, ids: iset<string>, id: Id, h: string)
    requires Separable(ids) && SlotsOwned(db, ids) && id.1 in ids
    ensures id !in db.instances ==> HandlerAt(db, id, h) == None
  {
    var k := (id.0, Slot(id.1, h));
    if k in db.handlers {
      SlotInScan(id, h);
      var g := SlotOwner(db, ids, k, id);
    }
  }

  lemma {:induction false} PutHandlers(db: Db, ids: iset<string>, i: Id, body: Json, now: real, id: Id, h: string)
    requires Separable(ids) && SlotsOwned(db, ids) && i.1 in ids && id.1 in ids
    ensures HandlerAt(Put(db, i, body, now), id, h) == if i == id then None else HandlerAt(db, id, h)
  {
    ClearIsLocal(db, ids, i, id, h);
    UnstoredHasNoHandler(db, ids, id, h);
  }

  lemma {:induction false} ResponseHandlers(s: State, ev: Event, ids: iset<string>, id: Id, h: string)
    requires Separable(ids) && ev.Response? && Verdict(s, ev) == Ok && ev.id.1 in ids && id.1 in ids
    ensures HandlerAt(Next(s, ev).db, id, h) ==
              if ev.id == id && ev.handler == h then Some(ev.status) else HandlerAt(s.db, id, h)
  {
    if Slot(ev.id.1, ev.handler) == Slot(id.1, h) {
      SlotInjective(ids, ev.id.1, ev.handler, id.1, h);
    }
  }

  // One step changes the entry of a stored instance's handler just as it changes the latest status.
  lemma {:induction false} HandlerStep(s: State, ev: Event, ids: iset<string>, id: Id, h: string)
    requires Separable(ids) && UsesIds([ev], ids) && Consistent(s)
    requires SlotsOwned(s.db, ids) && KnownIds(s, ids)
    requires Stored(Next(s, ev), id) && id.1 in ids
    ensures HandlerAt(Next(s, ev).db, id, h) ==
              if Verdict(s, ev) == Ok && ev.PutInstance? && ev.id == id then None
              else if Verdict(s, ev) == Ok && ev.Response? && ev.id == id && ev.handler == h then Some(ev.status)
              else HandlerAt(s.db, id, h)
    ensures !(Verdict(s, ev) == Ok && ev.PutInstance? && ev.id == id) ==> Stored(s, id)
  {
    assert ev in [ev];
    RemovalStep(s, ev, id);
    if Verdict(s, ev) == Ok {
      match ev
      case PutInstance(i, body, _) => PutHandlers(s.db, ids, i, body, s.now, id, h);
      case Response(_, _, _) => ResponseHandlers(s, ev, ids, id, h);
      case ThreadFire(n) => ClearIsLocal(s.db, ids, s.threads[n].id, id, h);
      case _ =>
    }
  }

  lemma {:induction false} OkIsAnswered(cfg: Config, evs: seq<Event>, ids: iset<string>, id: Id)
    requires Separable(ids) && UsesIds(evs, ids) && Stored(After(cfg, evs), id)
    requires "OK" in Handlers(After(cfg, evs).db, id).Values
    ensures SomeHandlerOk(cfg, evs, id)
  {
    var db := After(cfg, evs).db;
    HandlersAreHistory(cfg, evs, ids);
    var k :| k in Handlers(db, id) && Handlers(db, id)[k] == "OK";
    var h := SlotOwner(db, ids, k, id);
    assert HandlerAt(db, id, h) == Some("OK");
  }

  lemma {:induction false} AnswerIsScanned(cfg: Config, evs: seq<Event>, ids: iset<string>, id: Id)
    requires Separable(ids) && UsesIds(evs, ids) && Stored(After(cfg, evs), id)
    requires SomeHandlerOk(cfg, evs, id)
    ensures "OK" in Handlers(After(cfg, evs).db, id).Values
  {
    var db := After(cfg, evs).db;
    HandlersAreHistory(cfg, evs, ids);
    var h :| LatestStatus(cfg, evs, id, h) == Some("OK");
    assert HandlerAt(db, id, h) == Some("OK");
    SlotInScan(id, h);
    assert (id.0, Slot(id.1, h)) in Handlers(db, id);
  }

  lemma {:induction false} InEffectIsScan(cfg: Config, evs: seq<Event>, ids: iset<string>, id: Id)
    requires Separable(ids) && UsesIds(evs, ids) && Stored(After(cfg, evs), id)
    ensures InEffect(cfg, evs, id) <==> SomeHandlerOk(cfg, evs, id)
  {
    ConsistentAlways(cfg, evs);
    if "OK" in Handlers(After(cfg, evs).db, id).Values {
      OkIsAnswered(cfg, evs, ids, id);
    }
    if SomeHandlerOk(cfg, evs, id) {
      AnswerIsScanned(cfg, evs, ids, id);
    }
  }

  ghost predicate SomeResponse(cfg: Config, evs: seq<Event>, id: Id) {
    exists h :: LatestStatus(cfg, evs, id, h).Some?
  }

  lemma {:induction false} HandlersIffResponse(cfg: Config, evs: seq<Event>, ids: iset<string>, id: Id)
    requires Separable(ids) && UsesIds(evs, ids) && Stored(After(cfg, evs), id)
    ensures Handlers(After(cfg, evs).db, id) != map[] <==> SomeResponse(cfg, evs, id)
  {
    var db := After(cfg, evs).db;
    HandlersAreHistory(cfg, evs, ids);
    if Handlers(db, id) != map[] {
      var k :| k in Handlers(db, id);
      var h := SlotOwner(db, ids, k, id);
      assert HandlerAt(db, id, h).Some?;
    }
    if h :| LatestStatus(cfg, evs, id, h).Some? {
      assert HandlerAt(db, id, h).Some?;
      SlotInScan(id, h);
      assert (id.0, Slot(id.1, h)) in Handlers(db, id);
    }
  }

  /** The thread of a DELETE waits T1 if no handler has answered since the latest PUT, and max(T1, T2) if one has. */
  lemma {:induction false} DelayIsByHistory(cfg: Config, evs: seq<Event>, ids: iset<string>, id: Id)
    requires Separable(ids) && UsesIds(evs, ids)
    requires evs != [] && Last(evs) == DeleteInstance(id) && Accepted(cfg, evs)
    ensures var s, n := Before(cfg, evs), Before(cfg, evs).nextThread;
            var ttl := if SomeResponse(cfg, evs[..|evs| - 1], id) then cfg.MaxTtl() else cfg.t1;
            && n !in s.threads && n in After(cfg, evs).threads
            && After(cfg, evs).threads[n] == Thread(id, ttl as real, s.now, None)
  {
    ConfigFixed(cfg, evs[..|evs| - 1]);
    ConsistentAlways(cfg, evs[..|evs| - 1]);
    HandlersIffResponse(cfg, evs[..|evs| - 1], ids, id);
  }

  // A run in which the answer to one instance puts another, which it dot-extends, in effect.
  function ConfusedRun(i: string, j: string): seq<Event> {
    [PutType(1, 1, "{}"), PutInstance((1, i), "{}", true), PutInstance((1, j), "{}", true), Response((1, j), "h", "OK")]
  }

  // Both instances are stored after the two PUTs, in a store without handlers.
  lemma ConfusedPuts(cfg: Config, i: string, j: string)
    ensures var db := After(cfg, ConfusedRun(i, j)[..3]).db;
            1 in db.types && (1, i) in db.instances && (1, j) in db.instances && db.handlers == map[]
  {
    var evs := ConfusedRun(i, j);
    assert evs[..0] == [];
    RunStep(cfg, evs, 0);
    RunStep(cfg, evs, 1);
    RunStep(cfg, evs, 2);
  }

  lemma RunStep(cfg: Config, evs: seq<Event>, n: nat)
    requires n < |evs|
    ensures After(cfg, evs[..n + 1]) == Next(After(cfg, evs[..n]), evs[n])
  {
    assert evs[..n + 1] == evs[..n] + [evs[n]];
    AfterAppend(cfg, evs[..n], evs[n]);
  }

  lemma ConfusedHistory(cfg: Config, i: string, j: string, h: string)
    requires i != j
    ensures LatestStatus(cfg, ConfusedRun(i, j), (1, i), h) == None
  {
    var evs := ConfusedRun(i, j);
    ConfusedPuts(cfg, i, j);
    LatestStatusStep(cfg, evs, 0, (1, i), h);
    LatestStatusStep(cfg, evs, 1, (1, i), h);
    LatestStatusStep(cfg, evs, 2, (1, i), h);
    LatestStatusStep(cfg, evs, 3, (1, i), h);
    assert evs[..0] == [] && evs[..4] == evs;
  }

  // Without a response of its own an instance keeps having no status of a handler.
  lemma LatestStatusStep(cfg: Config, evs: seq<Event>, n: nat, id: Id, h: string)
    requires n < |evs| && !(evs[n].Response? && evs[n].id == id)
    ensures LatestStatus(cfg, evs[..n], id, h) == None ==> LatestStatus(cfg, evs[..n + 1], id, h) == None
  {
    assert evs[..n + 1][..n] == evs[..n];
  }

  lemma ConfusedRunStates(cfg: Config, i: string, j: string)
    requires DotExtends(i, j)
    ensures Stored(After(cfg, ConfusedRun(i, j)), (1, i))
    ensures InEffect(cfg, ConfusedRun(i, j), (1, i))
    ensures !SomeHandlerOk(cfg, ConfusedRun(i, j), (1, i)) && !SomeResponse(cfg, ConfusedRun(i, j), (1, i))
    ensures Handlers(After(cfg, ConfusedRun(i, j)).db, (1, i)) != map[]
  {
    var evs, k := ConfusedRun(i, j), (1, Slot(j, "h"));
    ConfusedPuts(cfg, i, j);
    RunStep(cfg, evs, 3);
    assert evs[..4] == evs;
    var db := After(cfg, evs).db;
    assert db.handlers == map[k := "OK"] && InScan((1, i), k);
    assert k in Handlers(db, (1, i)) && Handlers(db, (1, i))[k] == "OK";
    ConsistentAlways(cfg, evs);
    assert i != j;
    forall h
      ensures LatestStatus(cfg, evs, (1, i), h) == None
    {
      ConfusedHistory(cfg, i, j, h);
    }
  }

  /** Status is exact over every run that draws its instance ids from a set, exactly when
      no id of the set dot-extends another. */
  lemma {:induction false} StatusExactIffSeparable(cfg: Config, ids: iset<string>)
    ensures Separable(ids) <==> forall evs :: UsesIds(evs, ids) ==> StatusIsHistory(cfg, evs)
  {
    if Separable(ids) {
      forall evs | UsesIds(evs, ids)
        ensures StatusIsHistory(cfg, evs)
      {
        forall id | Stored(After(cfg, evs), id)
          ensures InEffect(cfg, evs, id) <==> SomeHandlerOk(cfg, evs, id)
        {
          InEffectIsScan(cfg, evs, ids, id);
        }
      }
    } else {
      var i, j :| i in ids && j in ids && DotExtends(i, j);
      ConfusedRunStates(cfg, i, j);
      assert UsesIds(ConfusedRun(i, j), ids);
      assert !StatusIsHistory(cfg, ConfusedRun(i, j));
    }
  }

  // A run that ends with an accepted DELETE gives its thread the delay that the history of responses calls for.
  ghost predicate DelayIsHistory(cfg: Config, evs: seq<Event>) {
    evs != [] && Last(evs).DeleteInstance? && Accepted(cfg, evs) ==>
      var id, n := Last(evs).id, Before(cfg, evs).nextThread;
      n in After(cfg, evs).threads &&
      After(cfg, evs).threads[n].ttl ==
        (if SomeResponse(cfg, evs[..|evs| - 1], id) then cfg.MaxTtl() else cfg.t1) as real
  }

  lemma ConfusedDelay(cfg: Config, i: string, j: string)
    requires DotExtends(i, j) && cfg.t1 < cfg.t2
    ensures !DelayIsHistory(cfg, ConfusedRun(i, j) + [DeleteInstance((1, i))])
  {
    var evs, id := ConfusedRun(i, j), (1, i);
    var s := After(cfg, evs);
    ConfusedRunStates(cfg, i, j);
    ConsistentAlways(cfg, evs);
    ConfigFixed(cfg, evs);
    AfterAppend(cfg, evs, DeleteInstance(id));
    assert (evs + [DeleteInstance(id)])[..|evs|] == evs;
    assert Verdict(s, DeleteInstance(id)) == Ok && Delay(cfg, s.db, id) == cfg.t2;
  }

  lemma EqualDelays(cfg: Config, evs: seq<Event>)
    requires cfg.t2 <= cfg.t1
    ensures DelayIsHistory(cfg, evs)
  {
    if evs != [] {
      ConfigFixed(cfg, evs[..|evs| - 1]);
    }
  }

  /** The delay of every DELETE is the one its instance's history calls for, over every run on a set of ids, exactly
      when no id of the set dot-extends another or both delays are the same. */
  lemma {:induction false} DelayExactIff(cfg: Config, ids: iset<string>)
    ensures Separable(ids) || cfg.t2 <= cfg.t1 <==> forall evs :: UsesIds(evs, ids) ==> DelayIsHistory(cfg, evs)
  {
    if cfg.t2 <= cfg.t1 {
      forall evs | UsesIds(evs, ids)
        ensures DelayIsHistory(cfg, evs)
      {
        EqualDelays(cfg, evs);
      }
    } else if Separable(ids) {
      forall evs | UsesIds(evs, ids)
        ensures DelayIsHistory(cfg, evs)
      {
        if evs != [] && Last(evs).DeleteInstance? && Accepted(cfg, evs) {
          DelayIsByHistory(cfg, evs, ids, Last(evs).id);
        }
      }
    } else {
      var i, j :| i in ids && j in ids && DotExtends(i, j);
      ConfusedDelay(cfg, i, j);
      assert UsesIds(ConfusedRun(i, j) + [DeleteInstance((1, i))], ids);
    }
  }
}
