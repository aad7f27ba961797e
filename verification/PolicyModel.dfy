/** The A1 policy lifecycle as a transition system over a structured store. */
module PolicyModel {
  import opened Basics
  import opened PolicyKeys

  type Json = string
  type Id = (int, string)    // policy type id, policy instance id

  // The two shapes of an instance's metadata record: has_been_deleted false or true.
  datatype Metadata = Live(createdAt: real) | Marked(createdAt: real, deletedAt: real)

  datatype Db = Db(types: map<int, Json>,
                   instances: map<Id, Json>,
                   metadata: map<Id, Metadata>,
                   handlers: map<(int, string), string>)    // keyed by type and slot

  datatype Operation = CREATE | UPDATE | DELETE
  datatype WorkItem = WorkItem(op: Operation, id: Id, payload: Json)

  // A _delete_after thread: wakeAt is unset until the thread has passed its validity check.
  datatype Thread = Thread(id: Id, ttl: real, spawnedAt: real, wakeAt: Option<real>)

  // INSTANCE_DELETE_NO_RESP_TTL and INSTANCE_DELETE_RESP_TTL
  datatype Config = Config(t1: nat, t2: nat) {
    function MaxTtl(): (m: nat)
      ensures m >= t1 && m >= t2 && (m == t1 || m == t2)
    {
      if t1 < t2 then t2 else t1
    }
  }

  datatype State = State(cfg: Config, db: Db, threads: map<nat, Thread>, nextThread: nat,
                         queued: seq<WorkItem>, now: real)

  datatype Event = PutType(t: int, bodyId: int, body: Json)
                 | DeleteType(t: int)
                 | PutInstance(id: Id, body: Json, valid: bool)    // valid: the body meets the type's schema
                 | DeleteInstance(id: Id)
                 | Response(id: Id, handler: string, status: string)
                 | ThreadStart(n: nat)
                 | ThreadFire(n: nat)
                 | Tick(dt: real)

  datatype Outcome = Ok | TypeIdMismatch | TypeAlreadyExists | TypeNotFound | InstanceNotFound
                   | NonEmptyType | SchemaViolation | Crash | NotEnabled

  function Init(cfg: Config): State {
    State(cfg, Db(map[], map[], map[], map[]), map[], 0, [], 0.0)
  }

  // Structured scans

  predicate InScan(id: Id, k: (int, string)) { k.0 == id.0 && id.1 + "." <= k.1 }

  function Handlers(db: Db, id: Id): map<(int, string), string> {
    map k | k in db.handlers && InScan(id, k) :: db.handlers[k]
  }

  function ClearHandlers(db: Db, id: Id): Db {
    db.(handlers := map k | k in db.handlers && !InScan(id, k) :: db.handlers[k])
  }

  predicate HasInstances(db: Db, t: int) { exists id :: id in db.instances && id.0 == t }

  function Remove(db: Db, id: Id): Db {
    var db := ClearHandlers(db, id);
    db.(instances := db.instances - {id}, metadata := db.metadata - {id})
  }

  function Put(db: Db, id: Id, body: Json, now: real): Db {
    var db := if id in db.instances then ClearHandlers(db, id) else db;
    db.(instances := db.instances[id := body], metadata := db.metadata[id := Live(now)])
  }

  function Mark(db: Db, id: Id, now: real): Db
    requires id in db.metadata
  {
    db.(metadata := db.metadata[id := Marked(db.metadata[id].createdAt, now)])
  }

  // How long a deletion waits: T1 if no handler has a status, and max(T1, T2) otherwise.
  function Delay(cfg: Config, db: Db, id: Id): nat {
    if Handlers(db, id) == map[] then cfg.t1 else cfg.MaxTtl()
  }

  // Steps

  function InstanceCheck(db: Db, id: Id): Outcome {
    if id.0 !in db.types then TypeNotFound
    else if id !in db.instances then InstanceNotFound
    else Ok
  }

  function Verdict(s: State, ev: Event): Outcome {
    match ev
    case PutType(t, bodyId, _) =>
      if t != bodyId then TypeIdMismatch else if t in s.db.types then TypeAlreadyExists else Ok
    case DeleteType(t) =>
      if t !in s.db.types then TypeNotFound else if HasInstances(s.db, t) then NonEmptyType else Ok
    case PutInstance(id, _, valid) =>
      if id.0 !in s.db.types then TypeNotFound else if !valid then SchemaViolation else Ok
    case DeleteInstance(id) =>
      var c := InstanceCheck(s.db, id);
      if c == Ok && id !in s.db.metadata then Crash else c
    case Response(id, _, _) => InstanceCheck(s.db, id)
    case ThreadStart(n) => if n in s.threads && s.threads[n].wakeAt == None then Ok else NotEnabled
    case ThreadFire(n) =>
      if n in s.threads && s.threads[n].wakeAt.Some? && s.threads[n].wakeAt.value <= s.now then Ok else NotEnabled
    case Tick(dt) => if dt >= 0.0 then Ok else NotEnabled
  }

  function Next(s: State, ev: Event): State {
    if Verdict(s, ev) != Ok then s else
    match ev
    case PutType(t, _, body) => s.(db := s.db.(types := s.db.types[t := body]))
    case DeleteType(t) => s.(db := s.db.(types := s.db.types - {t}))
    case PutInstance(id, body, _) =>
      s.(db := Put(s.db, id, body, s.now),
         queued := s.queued + [WorkItem(if id in s.db.instances then UPDATE else CREATE, id, body)])
    case DeleteInstance(id) =>
      s.(db := Mark(s.db, id, s.now),
         threads := s.threads[s.nextThread := Thread(id, Delay(s.cfg, s.db, id) as real, s.now, None)],
         nextThread := s.nextThread + 1,
         queued := s.queued + [WorkItem(DELETE, id, "")])
    case Response(id, handler, status) =>
      s.(db := s.db.(handlers := s.db.handlers[(id.0, Slot(id.1, handler)) := status]))
    case ThreadStart(n) =>
      var th := s.threads[n];
      if InstanceCheck(s.db, th.id) == Ok
      then s.(threads := s.threads[n := th.(wakeAt := Some(s.now + th.ttl))])
      else s.(threads := s.threads - {n})
    case ThreadFire(n) =>
      s.(db := Remove(s.db, s.threads[n].id), threads := s.threads - {n})
    case Tick(dt) => s.(now := s.now + dt)
  }

  // Runs

  function After(cfg: Config, evs: seq<Event>): State {
    if evs == [] then Init(cfg) else Next(After(cfg, evs[..|evs| - 1]), Last(evs))
  }

  function Before(cfg: Config, evs: seq<Event>): State
    requires evs != []
  {
    After(cfg, evs[..|evs| - 1])
  }

  function Last(evs: seq<Event>): Event
    requires evs != []
  {
    evs[|evs| - 1]
  }

  // The last event of a run was accepted.
  predicate Accepted(cfg: Config, evs: seq<Event>)
    requires evs != []
  {
    Verdict(Before(cfg, evs), Last(evs)) == Ok
  }

  // What the API reads

  datatype StatusReply = NoReply(why: Outcome) | StatusReply(metadata: Metadata, inEffect: bool)

  function StatusOf(db: Db, id: Id): StatusReply {
    if InstanceCheck(db, id) != Ok then NoReply(InstanceCheck(db, id))
    else if id !in db.metadata then NoReply(Crash)
    else StatusReply(db.metadata[id], "OK" in Handlers(db, id).Values)
  }

  lemma AfterAppend(cfg: Config, evs: seq<Event>, ev: Event)
    ensures After(cfg, evs + [ev]) == Next(After(cfg, evs), ev)
  {
    assert (evs + [ev])[..|evs|] == evs;
  }
}
