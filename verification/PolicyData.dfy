/** The data-access functions, request handlers and threads of the A1 mediator, over the flat string-keyed store. */
module PolicyData {
  import opened Basics
  import opened PolicyKeys
  import opened PolicyModel
  import Decimal

  datatype Value = TypeBody(body: Json) | InstanceBody(body: Json)
                 | MetadataRecord(m: Metadata) | HandlerStatus(s: string)

  type Sdl = map<string, Value>

  // The structured entry a key names.
  function Entry(db: Db, k: Key): Option<Value> {
    match k
    case TypeKey(t) => if t in db.types then Some(TypeBody(db.types[t])) else None
    case InstanceKey(t, i) => if (t, i) in db.instances then Some(InstanceBody(db.instances[(t, i)])) else None
    case MetadataKey(t, i) => if (t, i) in db.metadata then Some(MetadataRecord(db.metadata[(t, i)])) else None
    case HandlerKey(t, slot) => if (t, slot) in db.handlers then Some(HandlerStatus(db.handlers[(t, slot)])) else None
  }

  ghost predicate AgreesAt(sdl: Sdl, db: Db, k: Key) {
    match Entry(db, k)
    case None => k.Render() !in sdl
    case Some(v) => k.Render() in sdl && sdl[k.Render()] == v
  }

  ghost predicate IsKeyText(s: string) { exists k: Key :: k.Render() == s }

  /** The flat store holds exactly the structured entries under their key texts. */
  ghost predicate Represents(sdl: Sdl, db: Db) {
    && (forall k: Key :: AgreesAt(sdl, db, k))
    && (forall s {:trigger IsKeyText(s)} :: s in sdl ==> IsKeyText(s))
  }

  lemma RepresentsSet(sdl: Sdl, db: Db, db': Db, k: Key, v: Value)
    requires Represents(sdl, db)
    requires Entry(db', k) == Some(v)
    requires forall k': Key {:trigger Entry(db', k')} :: k' != k ==> Entry(db', k') == Entry(db, k')
    ensures Represents(sdl[k.Render() := v], db')
  {
    assert IsKeyText(k.Render());
    forall k': Key {:trigger AgreesAt(sdl[k.Render() := v], db', k')} | true
      ensures AgreesAt(sdl[k.Render() := v], db', k')
    {
      assert AgreesAt(sdl, db, k');
      if k'.Render() == k.Render() {
        RenderInjective(k', k);
      }
    }
  }

  lemma RepresentsDelete(sdl: Sdl, db: Db, db': Db, k: Key)
    requires Represents(sdl, db)
    requires Entry(db', k) == None
    requires forall k': Key {:trigger Entry(db', k')} :: k' != k ==> Entry(db', k') == Entry(db, k')
    ensures Represents(sdl - {k.Render()}, db')
  {
    forall k': Key {:trigger AgreesAt(sdl - {k.Render()}, db', k')} | true
      ensures AgreesAt(sdl - {k.Render()}, db', k')
    {
      assert AgreesAt(sdl, db, k');
      if k'.Render() == k.Render() {
        RenderInjective(k', k);
      }
    }
  }

  // The keys SDL's find_and_get returns for a prefix.
  function FindKeys(sdl: Sdl, prefix: string): set<string> {
    set s | s in sdl && prefix <= s
  }

  /** Deleting every key a handler scan finds clears exactly the structured handlers of that scan. */
  lemma RepresentsClear(sdl: Sdl, db: Db, id: Id)
    requires Represents(sdl, db)
    ensures Represents(sdl - FindKeys(sdl, HandlerScan(id.0, id.1)), ClearHandlers(db, id))
  {
    var sdl' := sdl - FindKeys(sdl, HandlerScan(id.0, id.1));
    forall k: Key
      ensures AgreesAt(sdl', ClearHandlers(db, id), k)
    {
      assert AgreesAt(sdl, db, k);
      HandlerScanExact(id.0, id.1, k);
    }
  }

  lemma HandlersDependOnHandlers(db: Db, db': Db, id: Id)
    requires db.handlers == db'.handlers
    ensures Handlers(db, id) == Handlers(db', id)
  {
  }

  lemma HandlerScanEmptyIff(sdl: Sdl, db: Db, id: Id)
    requires Represents(sdl, db)
    ensures FindKeys(sdl, HandlerScan(id.0, id.1)) == {} <==> Handlers(db, id) == map[]
  {
    var found := FindKeys(sdl, HandlerScan(id.0, id.1));
    if found != {} {
      var s :| s in found;
      var slot := FoundSlot(sdl, db, id, s);
    }
    if Handlers(db, id) != map[] {
      var k :| k in Handlers(db, id);
      ScannedSlot(sdl, db, id, k);
    }
  }

  /** A handler scan of the flat store returns exactly the statuses of the structured scan. */
  lemma HandlerScanStatusIff(sdl: Sdl, db: Db, id: Id, status: string)
    requires Represents(sdl, db)
    ensures (exists s :: s in FindKeys(sdl, HandlerScan(id.0, id.1)) && sdl[s] == HandlerStatus(status)) <==>
            status in Handlers(db, id).Values
  {
    if s :| s in FindKeys(sdl, HandlerScan(id.0, id.1)) && sdl[s] == HandlerStatus(status) {
      var slot := FoundSlot(sdl, db, id, s);
      assert Handlers(db, id)[(id.0, slot)] == status;
    }
    if status in Handlers(db, id).Values {
      var k :| k in Handlers(db, id) && Handlers(db, id)[k] == status;
      ScannedSlot(sdl, db, id, k);
    }
  }

  lemma ScannedSlot(sdl: Sdl, db: Db, id: Id, k: (int, string))
    requires Represents(sdl, db) && k in Handlers(db, id)
    ensures HandlerKey(k.0, k.1).Render() in FindKeys(sdl, HandlerScan(id.0, id.1))
    ensures sdl[HandlerKey(k.0, k.1).Render()] == HandlerStatus(Handlers(db, id)[k])
  {
    assert AgreesAt(sdl, db, HandlerKey(k.0, k.1));
    HandlerScanExact(id.0, id.1, HandlerKey(k.0, k.1));
  }

  lemma FoundSlot(sdl: Sdl, db: Db, id: Id, s: string) returns (slot: string)
    requires Represents(sdl, db)
    requires s in FindKeys(sdl, HandlerScan(id.0, id.1))
    ensures (id.0, slot) in Handlers(db, id) && sdl[s] == HandlerStatus(Handlers(db, id)[(id.0, slot)])
  {
    assert IsKeyText(s);
    var k: Key :| k.Render() == s;
    assert AgreesAt(sdl, db, k);
    HandlerScanExact(id.0, id.1, k);
    slot := k.slot;
  }

  /** An instance scan finds exactly the key texts of the type's stored instances. */
  lemma InstanceScanKeys(sdl: Sdl, db: Db, t: int)
    requires Represents(sdl, db)
    ensures forall i {:trigger InstanceKeyText(t, i)} ::
              InstanceKeyText(t, i) in FindKeys(sdl, InstanceScan(t)) <==> (t, i) in db.instances
    ensures FindKeys(sdl, InstanceScan(t)) == {} <==> !HasInstances(db, t)
  {
    var found := FindKeys(sdl, InstanceScan(t));
    forall i {:trigger InstanceKeyText(t, i)} | true
      ensures InstanceKeyText(t, i) in found <==> (t, i) in db.instances
    {
      assert AgreesAt(sdl, db, InstanceKey(t, i));
      BuildersRender(t, i, "");
      InstanceScanExact(t, InstanceKey(t, i));
    }
    if HasInstances(db, t) {
      var id :| id in db.instances && id.0 == t;
      assert InstanceKeyText(t, id.1) in found;
    }
    if found != {} {
      var s :| s in found;
      var i := FoundInstance(sdl, db, t, s);
    }
  }

  /** A scanned instance key is the key of one stored instance, whose listed text is its id
      when the id does not contain the scan prefix. */
  lemma FoundInstance(sdl: Sdl, db: Db, t: int, s: string) returns (i: string)
    requires Represents(sdl, db)
    requires s in FindKeys(sdl, InstanceScan(t))
    ensures (t, i) in db.instances && s == InstanceKeyText(t, i)
    ensures forall j :: InstanceKeyText(t, j) == s ==> j == i
    ensures |Split(s, InstanceScan(t))| >= 2
    ensures Split(s, InstanceScan(t))[1] == i <==> !Occurs(InstanceScan(t), i)
  {
    assert IsKeyText(s);
    var k: Key :| k.Render() == s;
    assert AgreesAt(sdl, db, k);
    InstanceScanExact(t, k);
    i := k.i;
    BuildersRender(t, i, "");
    forall j | InstanceKeyText(t, j) == s
      ensures j == i
    {
      BuildersRender(t, j, "");
      RenderInjective(InstanceKey(t, j), k);
    }
    ListedInstanceExactIff(t, i);
  }

  // The stored instances of a type.
  function InstancesOf(db: Db, t: int): set<Id> {
    set id | id in db.instances && id.0 == t
  }

  lemma InstanceKeyInjective(t: int, i: string, j: string)
    requires InstanceKeyText(t, i) == InstanceKeyText(t, j)
    ensures i == j
  {
    BuildersRender(t, i, "");
    BuildersRender(t, j, "");
    RenderInjective(InstanceKey(t, i), InstanceKey(t, j));
  }

  // Keys that are the instance keys of some instances of a type are as many as those.
  lemma {:induction false} AsManyKeys(t: int, ids: set<Id>, keys: set<string>)
    requires forall id :: id in ids ==> id.0 == t && InstanceKeyText(t, id.1) in keys
    requires forall k :: k in keys ==> exists i :: (t, i) in ids && k == InstanceKeyText(t, i)
    ensures |keys| == |ids|
    decreases ids
  {
    if ids != {} {
      var id :| id in ids;
      var key := InstanceKeyText(t, id.1);
      forall other | other in ids - {id}
        ensures InstanceKeyText(t, other.1) in keys - {key}
      {
        if InstanceKeyText(t, other.1) == key { InstanceKeyInjective(t, other.1, id.1); }
      }
      forall k | k in keys - {key}
        ensures exists i :: (t, i) in ids - {id} && k == InstanceKeyText(t, i)
      {
        var i :| (t, i) in ids && k == InstanceKeyText(t, i);
        assert (t, i) in ids - {id};
      }
      AsManyKeys(t, ids - {id}, keys - {key});
    } else {
      assert keys == {};
    }
  }

  /** An instance scan finds as many keys as the type has stored instances. */
  lemma InstanceScanCount(sdl: Sdl, db: Db, t: int)
    requires Represents(sdl, db)
    ensures |FindKeys(sdl, InstanceScan(t))| == |InstancesOf(db, t)|
  {
    var found := FindKeys(sdl, InstanceScan(t));
    InstanceScanKeys(sdl, db, t);
    forall k | k in found
      ensures exists i :: (t, i) in InstancesOf(db, t) && k == InstanceKeyText(t, i)
    {
      var i := FoundInstance(sdl, db, t, k);
    }
    AsManyKeys(t, InstancesOf(db, t), found);
  }

  predicate Distinct<T(==)>(s: seq<T>) { forall j, k :: 0 <= j < k < |s| ==> s[j] != s[k] }

  lemma TypeScanKeys(sdl: Sdl, db: Db)
    requires Represents(sdl, db)
    ensures forall t :: TypeKeyText(t) in FindKeys(sdl, TYPE_PREFIX) <==> t in db.types
  {
    forall t
      ensures TypeKeyText(t) in FindKeys(sdl, TYPE_PREFIX) <==> t in db.types
    {
      assert AgreesAt(sdl, db, TypeKey(t));
      TypeScanExact(TypeKey(t));
    }
  }

  lemma FoundType(sdl: Sdl, db: Db, s: string) returns (t: int)
    requires Represents(sdl, db)
    requires s in FindKeys(sdl, TYPE_PREFIX)
    ensures t in db.types && s == TypeKeyText(t)
    ensures forall t' :: TypeKeyText(t') == s ==> t' == t
    ensures |Split(s, TYPE_PREFIX)| >= 2 && Decimal.Parse(Split(s, TYPE_PREFIX)[1]) == t
  {
    assert IsKeyText(s);
    var k: Key :| k.Render() == s;
    assert AgreesAt(sdl, db, k);
    TypeScanExact(k);
    t := k.t;
    forall t' | TypeKeyText(t') == s
      ensures t' == t
    {
      RenderInjective(TypeKey(t'), k);
    }
    ListedTypeExact(t);
  }

  /** The mediator: its store, its send queue, its deletion threads and its clock. */
  class Mediator {
    var sdl: Sdl
    var sendQueue: seq<WorkItem>
    var threads: map<nat, Thread>
    var nextThread: nat
    var clock: real
    const cfg: Config
    ghost var drained: seq<WorkItem>    // items already taken off the send queue
    ghost var model: State

    ghost predicate Valid()
      reads this
    {
      && Represents(sdl, model.db)
      && model == State(cfg, model.db, threads, nextThread, drained + sendQueue, clock)
    }

    constructor (cfg: Config)
      ensures Valid() && model == Init(cfg)
    {
      this.cfg := cfg;
      sdl, sendQueue, threads, nextThread, clock := map[], [], map[], 0, 0.0;
      drained, model := [], Init(cfg);
      new;
      forall k: Key
        ensures AgreesAt(sdl, model.db, k)
      {
      }
    }

    method TypeIsValid(t: int) returns (ok: bool)
      requires Valid()
      ensures ok <==> t in model.db.types
    {
      assert AgreesAt(sdl, model.db, TypeKey(t));
      BuildersRender(t, "", "");
      ok := TypeKeyText(t) in sdl;
    }

    method InstanceIsValid(id: Id) returns (r: Outcome)
      requires Valid()
      ensures r == InstanceCheck(model.db, id)
    {
      var ok := TypeIsValid(id.0);
      if !ok { return TypeNotFound; }
      assert AgreesAt(sdl, model.db, InstanceKey(id.0, id.1));
      BuildersRender(id.0, id.1, "");
      if InstanceKeyText(id.0, id.1) !in sdl { return InstanceNotFound; }
      return Ok;
    }

    method ClearHandlers(id: Id)
      modifies this`sdl
      ensures sdl == old(sdl) - FindKeys(old(sdl), HandlerScan(id.0, id.1))
    {
      var keys := FindKeys(sdl, HandlerScan(id.0, id.1));
      ghost var all := keys;
      while keys != {}
        invariant keys <= all
        invariant sdl == old(sdl) - (all - keys)
        decreases keys
      {
        var k :| k in keys;
        sdl := sdl - {k};
        keys := keys - {k};
      }
    }

    method PutType(t: int, bodyId: int, body: Json) returns (r: Outcome)
      requires Valid()
      modifies this
      ensures Valid() && drained == old(drained)
      ensures r == Verdict(old(model), Event.PutType(t, bodyId, body))
      ensures model == Next(old(model), Event.PutType(t, bodyId, body))
    {
      if t != bodyId { return TypeIdMismatch; }
      var exists_ := TypeIsValid(t);
      if exists_ { return TypeAlreadyExists; }
      ghost var s := model;
      model := Next(s, Event.PutType(t, bodyId, body));
      RepresentsSet(sdl, s.db, model.db, TypeKey(t), TypeBody(body));
      sdl := sdl[TypeKeyText(t) := TypeBody(body)];
      return Ok;
    }

    method DeleteType(t: int) returns (r: Outcome)
      requires Valid()
      modifies this
      ensures Valid() && drained == old(drained)
      ensures r == Verdict(old(model), Event.DeleteType(t)) && model == Next(old(model), Event.DeleteType(t))
    {
      var ok, ids := GetInstanceList(t);
      if !ok { return TypeNotFound; }
      if ids != [] { return NonEmptyType; }
      ghost var s := model;
      model := Next(s, Event.DeleteType(t));
      RepresentsDelete(sdl, s.db, model.db, TypeKey(t));
      sdl := sdl - {TypeKeyText(t)};
      return Ok;
    }

    /** The list has one entry for each stored instance of the type; when no stored id contains
        the scan prefix the entries are exactly the stored ids, each once. */
    method GetInstanceList(t: int) returns (ok: bool, ids: seq<string>)
      requires Valid()
      ensures ok <==> t in model.db.types
      ensures ok ==> |ids| == |InstancesOf(model.db, t)|
      ensures ok ==> (ids == [] <==> !HasInstances(model.db, t))
      ensures ok && (forall i :: (t, i) in model.db.instances ==> !Occurs(InstanceScan(t), i)) ==>
                Distinct(ids) && forall i :: i in ids <==> (t, i) in model.db.instances
    {
      ok := TypeIsValid(t);
      ids := [];
      if !ok { return; }
      var keys := FindKeys(sdl, InstanceScan(t));
      InstanceScanKeys(sdl, model.db, t);
      InstanceScanCount(sdl, model.db, t);
      ghost var all := keys;
      ghost var listed := forall i :: (t, i) in model.db.instances ==> !Occurs(InstanceScan(t), i);
      while keys != {}
        invariant keys <= all
        invariant |ids| == |all| - |keys|
        invariant listed ==> Distinct(ids) && forall i :: i in ids <==> InstanceKeyText(t, i) in all - keys
        decreases keys
      {
        var k :| k in keys;
        ghost var i := FoundInstance(sdl, model.db, t, k);
        ids := ids + [Split(k, InstanceScan(t))[1]];
        keys := keys - {k};
      }
    }

    /** The list has one entry for each stored type, and the entries are the stored type ids. */
    method GetTypeList() returns (ids: seq<int>)
      requires Valid()
      ensures |ids| == |FindKeys(sdl, TYPE_PREFIX)|
      ensures Distinct(ids) && forall t :: t in ids <==> t in model.db.types
    {
      ids := [];
      var keys := FindKeys(sdl, TYPE_PREFIX);
      TypeScanKeys(sdl, model.db);
      ghost var all := keys;
      while keys != {}
        invariant keys <= all
        invariant |ids| == |all| - |keys|
        invariant Distinct(ids) && forall t :: t in ids <==> TypeKeyText(t) in all - keys
        decreases keys
      {
        var k :| k in keys;
        ghost var t := FoundType(sdl, model.db, k);
        ids := ids + [Decimal.Parse(Split(k, TYPE_PREFIX)[1])];
        keys := keys - {k};
      }
      assert all == FindKeys(sdl, TYPE_PREFIX) && all - keys == all;
      forall t
        ensures t in ids <==> t in model.db.types
      {
        assert t in ids <==> TypeKeyText(t) in all - keys;
      }
    }

    // store_policy_instance for a stored type
    method StorePolicyInstance(id: Id, body: Json) returns (operation: Operation)
      requires Represents(sdl, model.db)
      modifies this`sdl
      ensures Represents(sdl, Put(model.db, id, body, clock))
      ensures operation == if id in model.db.instances then UPDATE else CREATE
    {
      ghost var db := model.db;
      operation := CREATE;
      var key := InstanceKeyText(id.0, id.1);
      BuildersRender(id.0, id.1, "");
      assert AgreesAt(sdl, db, InstanceKey(id.0, id.1));
      if key in sdl {
        operation := UPDATE;
        RepresentsClear(sdl, db, id);
        ClearHandlers(id);
        db := PolicyModel.ClearHandlers(db, id);
      }
      ghost var db1 := db.(instances := db.instances[id := body]);
      RepresentsSet(sdl, db, db1, InstanceKey(id.0, id.1), InstanceBody(body));
      sdl := sdl[key := InstanceBody(body)];
      ghost var db2 := db1.(metadata := db1.metadata[id := Live(clock)]);
      RepresentsSet(sdl, db1, db2, MetadataKey(id.0, id.1), MetadataRecord(Live(clock)));
      sdl := sdl[MetadataKeyText(id.0, id.1) := MetadataRecord(Live(clock))];
      assert db2 == Put(model.db, id, body, clock);
    }

    method PutInstance(id: Id, body: Json, valid: bool) returns (r: Outcome)
      requires Valid()
      modifies this
      ensures Valid() && drained == old(drained)
      ensures r == Verdict(old(model), Event.PutInstance(id, body, valid))
      ensures model == Next(old(model), Event.PutInstance(id, body, valid))
    {
      var ok := TypeIsValid(id.0);
      if !ok { return TypeNotFound; }
      if !valid { return SchemaViolation; }
      var operation := StorePolicyInstance(id, body);
      sendQueue := sendQueue + [WorkItem(operation, id, body)];
      model := Next(model, Event.PutInstance(id, body, valid));
      return Ok;
    }

    // The first part of delete_policy_instance: marks the instance and finds how long its thread will wait.
    method MarkDeleted(id: Id) returns (r: Outcome, ttl: nat)
      requires Represents(sdl, model.db)
      requires InstanceCheck(model.db, id) == Ok
      modifies this`sdl
      ensures r == if id in model.db.metadata then Ok else Crash
      ensures r == Ok ==> Represents(sdl, Mark(model.db, id, clock)) && ttl == Delay(cfg, model.db, id)
      ensures r != Ok ==> sdl == old(sdl)
    {
      var key := MetadataKeyText(id.0, id.1);
      BuildersRender(id.0, id.1, "");
      assert AgreesAt(sdl, model.db, MetadataKey(id.0, id.1));
      if key !in sdl { return Crash, 0; }
      var deleted := Marked(sdl[key].m.createdAt, clock);
      ghost var db := Mark(model.db, id, clock);
      RepresentsSet(sdl, model.db, db, MetadataKey(id.0, id.1), MetadataRecord(deleted));
      sdl := sdl[key := MetadataRecord(deleted)];
      HandlerScanEmptyIff(sdl, db, id);
      HandlersDependOnHandlers(model.db, db, id);
      var vector := FindKeys(sdl, HandlerScan(id.0, id.1));
      ttl := if vector == {} then cfg.t1 else cfg.MaxTtl();
      r := Ok;
    }

    method DeleteInstance(id: Id) returns (r: Outcome)
      requires Valid()
      modifies this
      ensures Valid() && drained == old(drained)
      ensures r == Verdict(old(model), Event.DeleteInstance(id))
      ensures model == Next(old(model), Event.DeleteInstance(id))
    {
      r := InstanceIsValid(id);
      if r != Ok { return; }
      var ttl;
      r, ttl := MarkDeleted(id);
      if r != Ok { return; }
      threads := threads[nextThread := Thread(id, ttl as real, clock, None)];
      nextThread := nextThread + 1;
      sendQueue := sendQueue + [WorkItem(DELETE, id, "")];
      model := Next(model, Event.DeleteInstance(id));
    }

    method SetInstanceStatus(id: Id, handler: string, status: string) returns (r: Outcome)
      requires Valid()
      modifies this
      ensures Valid() && drained == old(drained)
      ensures r == Verdict(old(model), Response(id, handler, status))
      ensures model == Next(old(model), Response(id, handler, status))
    {
      r := InstanceIsValid(id);
      if r != Ok { return; }
      ghost var slot := Slot(id.1, handler);
      ghost var db := model.db.(handlers := model.db.handlers[(id.0, slot) := status]);
      BuildersRender(id.0, id.1, handler);
      RepresentsSet(sdl, model.db, db, HandlerKey(id.0, slot), HandlerStatus(status));
      sdl := sdl[HandlerKeyText(id.0, id.1, handler) := HandlerStatus(status)];
      model := Next(model, Response(id, handler, status));
    }

    /** The status loop: "IN EFFECT" as soon as one scanned status is "OK". */
    method GetInstanceStatus(id: Id) returns (r: StatusReply)
      requires Valid()
      ensures r == StatusOf(model.db, id)
    {
      var c := InstanceIsValid(id);
      if c != Ok { return NoReply(c); }
      var key := MetadataKeyText(id.0, id.1);
      BuildersRender(id.0, id.1, "");
      assert AgreesAt(sdl, model.db, MetadataKey(id.0, id.1));
      if key !in sdl { return NoReply(Crash); }
      var keys := FindKeys(sdl, HandlerScan(id.0, id.1));
      HandlerScanStatusIff(sdl, model.db, id, "OK");
      ghost var all := keys;
      var inEffect := false;
      while keys != {} && !inEffect
        invariant keys <= all
        invariant inEffect <==> exists s :: s in all - keys && sdl[s] == HandlerStatus("OK")
        decreases keys
      {
        var k :| k in keys;
        inEffect := sdl[k] == HandlerStatus("OK");
        keys := keys - {k};
      }
      return StatusReply(sdl[key].m, inEffect);
    }

    /** A deletion thread's first part: it dies if its instance is gone, else it goes to sleep. */
    method ThreadStart(n: nat)
      requires Valid()
      requires n in threads && threads[n].wakeAt == None
      modifies this
      ensures Valid() && drained == old(drained)
      ensures model == Next(old(model), Event.ThreadStart(n))
    {
      var th := threads[n];
      var c := InstanceIsValid(th.id);
      model := Next(model, Event.ThreadStart(n));
      if c != Ok {
        threads := threads - {n};
      } else {
        threads := threads[n := th.(wakeAt := Some(clock + th.ttl))];
      }
    }

    // The removal after the sleep: handlers, instance and metadata.
    method RemoveInstance(id: Id)
      requires Represents(sdl, model.db)
      modifies this`sdl
      ensures Represents(sdl, Remove(model.db, id))
    {
      BuildersRender(id.0, id.1, "");
      RepresentsClear(sdl, model.db, id);
      ClearHandlers(id);
      ghost var db := PolicyModel.ClearHandlers(model.db, id);
      ghost var db1 := db.(instances := db.instances - {id});
      RepresentsDelete(sdl, db, db1, InstanceKey(id.0, id.1));
      sdl := sdl - {InstanceKeyText(id.0, id.1)};
      ghost var db2 := db1.(metadata := db1.metadata - {id});
      RepresentsDelete(sdl, db1, db2, MetadataKey(id.0, id.1));
      sdl := sdl - {MetadataKeyText(id.0, id.1)};
      assert db2 == Remove(model.db, id);
    }

    /** A deletion thread's second part, after its sleep: it removes whatever is stored under its id. */
    method ThreadFire(n: nat)
      requires Valid()
      requires n in threads && threads[n].wakeAt.Some? && threads[n].wakeAt.value <= clock
      modifies this
      ensures Valid() && drained == old(drained)
      ensures model == Next(old(model), Event.ThreadFire(n))
    {
      RemoveInstance(threads[n].id);
      threads := threads - {n};
      model := Next(model, Event.ThreadFire(n));
    }

    method Tick(dt: real)
      requires Valid() && dt >= 0.0
      modifies this
      ensures Valid() && drained == old(drained)
      ensures model == Next(old(model), Event.Tick(dt))
    {
      clock := clock + dt;
      ghost var s := model;
      model := s.(now := s.now + dt);
      assert model == Next(s, Event.Tick(dt));
    }

    /** Draining the queue sends every waiting item once, in the order queued, and touches nothing else. */
    method HandleSends() returns (sent: seq<WorkItem>)
      requires Valid()
      modifies this`sendQueue, this`drained
      ensures Valid()
      ensures sendQueue == [] && sent == old(sendQueue) && drained == old(drained) + sent
    {
      sent := [];
      while sendQueue != []
        invariant sent + sendQueue == old(sendQueue)
        invariant drained == old(drained) + sent
        decreases |sendQueue|
      {
        var workItem := sendQueue[0];
        sendQueue := sendQueue[1..];
        sent := sent + [workItem];
        drained := drained + [workItem];
      }
    }

    method Dispatch(ev: Event)
      requires Valid()
      modifies this
      ensures Valid() && drained == old(drained)
      ensures model == Next(old(model), ev)
    {
      match ev
      case PutType(t, bodyId, body) => var _ := PutType(t, bodyId, body);
      case DeleteType(t) => var _ := DeleteType(t);
      case PutInstance(id, body, valid) => var _ := PutInstance(id, body, valid);
      case DeleteInstance(id) => var _ := DeleteInstance(id);
      case Response(id, handler, status) => var _ := SetInstanceStatus(id, handler, status);
      case ThreadStart(n) => if n in threads && threads[n].wakeAt == None { ThreadStart(n); }
      case ThreadFire(n) =>
        if n in threads && threads[n].wakeAt.Some? && threads[n].wakeAt.value <= clock { ThreadFire(n); }
      case Tick(dt) => if dt >= 0.0 { Tick(dt); }
    }
  }

  /** After any sequence of atomic steps the string store represents the structured state of that run. */
  method Serve(cfg: Config, evs: seq<Event>) returns (m: Mediator)
    ensures fresh(m) && m.Valid() && m.model == After(cfg, evs)
  {
    m := new Mediator(cfg);
    assert evs[..0] == [];
    for n := 0 to |evs|
      invariant fresh(m) && m.Valid() && m.model == After(cfg, evs[..n])
    {
      AfterAppend(cfg, evs[..n], evs[n]);
      assert evs[..n + 1] == evs[..n] + [evs[n]];
      m.Dispatch(evs[n]);
    }
    assert evs[..|evs|] == evs;
  }
}
