/** The E2 termination's connection table: peers accepted, named by E2 Setup, routed to by name, and released. */
module Connections {
  import opened Basics
  import opened RanNames
  import Decimal

  // A connection record. releases counts how often its memory has been given back.
  datatype Peer = Peer(name: string, host: string, port: nat, connected: bool, open: bool, releases: nat)

  // Peers are identified by their position; the table maps keys to them.
  datatype State = State(peers: seq<Peer>, table: map<string, nat>)

  datatype SetupRequest = NoNodeId | NodeId(node: E2Node)

  datatype Polled = SocketError | EpollModFails | SendFails | Delivered

  // Each event of the poll loop and each xApp message is one step. The program runs several listener threads on one
  // poll descriptor and one table, which locks single calls only; below this grain the invariant does not hold, as
  // CloseDuringClearAllIff shows.
  datatype Event = Accept(host: string, port: nat, added: bool)    // not added: some call failed, the record is freed
                 | Setup(p: nat, request: SetupRequest)
                 | WriteReady(p: nat, polled: Polled)    // EPOLLOUT on a connection in progress
                 | EndOfFile(p: nat)                     // or a read error
                 | PollError(p: nat)
                 | SendTo(name: string, mtype: int, sent: bool)
                 | ClearAll

  const INIT := State([], map[])

  predicate IsRanKey(k: string) { !("host:" <= k) && !("msg:" <= k) }

  function HostKey(peer: Peer): string { "host:" + peer.host + ":" + Decimal.ToString(peer.port) }
  function MsgKey(name: string, mtype: int): string { "msg:" + name + "|" + Decimal.ToString(mtype) }

  predicate Live(s: State, p: nat) { p < |s.peers| && s.peers[p].open }

  function Released(peer: Peer): Peer { peer.(open := false, releases := peer.releases + 1) }

  // close and cleanHashEntry
  function CleanUp(s: State, p: nat): State
    requires p < |s.peers|
  {
    State(s.peers[p := Released(s.peers[p])], s.table - {HostKey(s.peers[p]), s.peers[p].name})
  }

  // What a failed send does to the pending message of that key: frees what it finds there.
  function DropMessage(s: State, key: string): State {
    if key in s.table && s.table[key] < |s.peers|
    then State(s.peers[s.table[key] := Released(s.peers[s.table[key]])], s.table - {key})
    else s
  }

  // The name a setup request leaves in the record, and whether it is entered in the table.
  function SetupName(request: SetupRequest): string {
    match request
    case NoNodeId => ""
    case NodeId(node) => if Named(node) then RanName(node) else if node.OtherNode? then node.written else ""
  }

  predicate Registers(request: SetupRequest) { request.NodeId? && Named(request.node) }

  // The text of a buffer that held old_ after name is copied over it without its terminating zero.
  function Overlaid(name: string, old_: string): (text: string)
    ensures |text| >= |name| && |text| >= |old_| && (|text| == |name| || |text| == |old_|)
    ensures forall k :: 0 <= k < |text| ==> text[k] == if k < |name| then name[k] else old_[k]
  {
    if |old_| > |name| then name + old_[|name|..] else name
  }

  // The table is keyed by the message's copy of the name, which held the connection's previous name.
  function AfterSetup(s: State, p: nat, request: SetupRequest): State
    requires p < |s.peers|
  {
    var name := SetupName(request);
    State(s.peers[p := s.peers[p].(name := name)],
          if Registers(request) then s.table[Overlaid(name, s.peers[p].name) := p] else s.table)
  }

  // The table keys through which CLEAR_ALL releases a peer.
  function RanKeysOf(table: map<string, nat>, keys: set<string>, p: nat): set<string> {
    set k | k in keys && IsRanKey(k) && k in table && table[k] == p
  }

  function ClearedPeer(peer: Peer, n: nat): Peer {
    if n == 0 then peer else peer.(open := false, releases := peer.releases + n)
  }

  function ClearedPeers(s: State, keys: set<string>): seq<Peer> {
    seq(|s.peers|, p requires 0 <= p < |s.peers| => ClearedPeer(s.peers[p], |RanKeysOf(s.table, keys, p)|))
  }

  function AfterClearAll(s: State): State {
    State(ClearedPeers(s, s.table.Keys), map[])
  }

  // Nothing looks whether an event's record was released since the poll reported the event: a stale event is handled
  // on what the record last held.
  function Step(s: State, ev: Event): State {
    match ev
    case Accept(host, port, added) =>
      s.(peers := s.peers + [Peer("", host, port, false, added, if added then 0 else 1)])
    case Setup(p, request) => if p < |s.peers| then AfterSetup(s, p, request) else s
    case WriteReady(p, polled) =>
      if p >= |s.peers| || polled.SocketError? then s else
      var s1 := s.(peers := s.peers[p := s.peers[p].(connected := true)]);
      if polled.Delivered? then s1 else DropMessage(CleanUp(s1, p), MsgKey(s.peers[p].name, 0))
    case EndOfFile(p) => if p < |s.peers| then CleanUp(s, p) else s
    case PollError(p) => if p < |s.peers| then CleanUp(s.(table := s.table - {s.peers[p].name}), p) else s
    case SendTo(name, mtype, sent) =>
      if name !in s.table || s.table[name] >= |s.peers| || sent || !s.peers[s.table[name]].connected then s
      else DropMessage(CleanUp(s, s.table[name]), MsgKey(name, mtype))
    case ClearAll => AfterClearAll(s)
  }

  function After(evs: seq<Event>): State {
    if evs == [] then INIT else Step(After(evs[..|evs| - 1]), evs[|evs| - 1])
  }

  // The invariant

  // The entry of a key points at an open peer whose own name is that key, and the key is a RAN name.
  predicate EntryGood(s: State, k: string) {
    k in s.table ==> k != "" && IsRanKey(k) && Live(s, s.table[k]) && s.peers[s.table[k]].name == k
  }

  predicate ReleasedOnce(peer: Peer) { peer.releases == if peer.open then 0 else 1 }

  ghost predicate Routed(s: State) {
    && (forall k :: k in s.table ==> EntryGood(s, k))
    && (forall p :: 0 <= p < |s.peers| ==> ReleasedOnce(s.peers[p]))
  }

  predicate RoutedByName(s: State, p: nat)
    requires p < |s.peers|
  {
    s.peers[p].name in s.table && s.table[s.peers[p].name] == p
  }

  // An event that closes a connection, or registers its name, finds the connection open.
  predicate Fresh(s: State, ev: Event) {
    match ev
    case Setup(p, request) => p < |s.peers| && Registers(request) ==> s.peers[p].open
    case WriteReady(p, polled) => p < |s.peers| && (polled.EpollModFails? || polled.SendFails?) ==> s.peers[p].open
    case EndOfFile(p) => p < |s.peers| ==> s.peers[p].open
    case PollError(p) => p < |s.peers| ==> s.peers[p].open
    case _ => true
  }

  // The guard: the event is fresh, a setup on a connection that is routed to by its name gives that name again,
  // and one that registers a name does not shorten the name before it.
  predicate Steady(s: State, ev: Event) {
    Fresh(s, ev) &&
    (ev.Setup? && ev.p < |s.peers| ==>
       && (RoutedByName(s, ev.p) ==> SetupName(ev.request) == s.peers[ev.p].name)
       && (Registers(ev.request) ==> |s.peers[ev.p].name| <= |SetupName(ev.request)|))
  }

  // A setup that gives a named connection another name, or no name.
  predicate Renames(s: State, ev: Event) {
    ev.Setup? && ev.p < |s.peers| && s.peers[ev.p].name != "" && SetupName(ev.request) != s.peers[ev.p].name
  }

  lemma OtherKeysAbsent(s: State, key: string)
    requires Routed(s) && !IsRanKey(key)
    ensures key !in s.table
  {
  }

  lemma KeyShapes(peer: Peer, name: string, mtype: int)
    ensures !IsRanKey(HostKey(peer)) && !IsRanKey(MsgKey(name, mtype))
  {
    assert HostKey(peer)[..5] == "host:";
    assert MsgKey(name, mtype)[..4] == "msg:";
  }

  lemma CleanUpKeepsRoutedIff(s: State, p: nat)
    requires Routed(s) && p < |s.peers|
    ensures Routed(CleanUp(s, p)) <==> s.peers[p].open
  {
    var s' := CleanUp(s, p);
    if s.peers[p].open {
      forall k | k in s'.table
        ensures EntryGood(s', k)
      {
        assert EntryGood(s, k);
      }
    } else {
      assert ReleasedOnce(s.peers[p]) && !ReleasedOnce(s'.peers[p]);
    }
  }

  lemma DropMessageIsIdle(s: State, name: string, mtype: int)
    requires Routed(s)
    ensures DropMessage(s, MsgKey(name, mtype)) == s
  {
    if |s.peers| > 0 {
      KeyShapes(s.peers[0], name, mtype);
    }
    KeyShapes(Peer("", "", 0, false, true, 0), name, mtype);
    OtherKeysAbsent(s, MsgKey(name, mtype));
  }

  lemma SetupKeepsRoutedIff(s: State, p: nat, request: SetupRequest)
    requires Routed(s) && p < |s.peers|
    ensures Routed(AfterSetup(s, p, request)) <==> Steady(s, Setup(p, request))
  {
    var s' := AfterSetup(s, p, request);
    if Registers(request) {
      RanNameIsNotOtherKey(request.node);
    }
    if Steady(s, Setup(p, request)) {
      forall k | k in s'.table
        ensures EntryGood(s', k)
      {
        assert k in s.table ==> EntryGood(s, k);
      }
    } else if s.peers[p].open {
      var k := UnsteadyKey(s, p, request);
      assert !EntryGood(s', k);
    } else {
      StaleSetup(s, p, request);
    }
  }

  // A setup on a released record is unsteady only if it registers, and then its key points at that record.
  lemma StaleSetup(s: State, p: nat, request: SetupRequest)
    requires Routed(s) && p < |s.peers| && !s.peers[p].open && !Steady(s, Setup(p, request))
    ensures !Routed(AfterSetup(s, p, request))
  {
    assert s.peers[p].name in s.table ==> EntryGood(s, s.peers[p].name);
    assert Registers(request);
    assert !EntryGood(AfterSetup(s, p, request), Overlaid(SetupName(request), s.peers[p].name));
  }

  // The key an unsteady setup leaves pointing at a connection of another name.
  lemma UnsteadyKey(s: State, p: nat, request: SetupRequest) returns (k: string)
    requires Routed(s) && Live(s, p) && !Steady(s, Setup(p, request))
    ensures var s' := AfterSetup(s, p, request);
            k in s'.table && s'.table[k] == p && k != s'.peers[p].name && k != HostKey(s'.peers[p]) && IsRanKey(k)
  {
    KeyShapes(s.peers[p], "", 0);
    var name, old_ := SetupName(request), s.peers[p].name;
    if RoutedByName(s, p) && name != old_ {
      assert EntryGood(s, old_);
      k := old_;
    } else {
      RanNameIsNotOtherKey(request.node);
      RanNameStart(request.node);
      k := Overlaid(name, old_);
      assert k[..4] == name[..4] && k[0] == name[0];
      KeyStart(k);
    }
  }

  lemma RanNameStart(node: E2Node)
    requires Named(node)
    ensures |RanName(node)| >= 4 && (RanName(node)[0] == 'g' || RanName(node)[0] == 'e')
  {
    assert |PlmnText(node)| >= |KindText(node)|;
    assert RanName(node)[0] == KindText(node)[0];
  }

  lemma KeyStart(k: string)
    requires k != "" && (k[0] == 'g' || k[0] == 'e')
    ensures IsRanKey(k)
  {
    assert "host:"[0] == 'h' && "msg:"[0] == 'm';
  }

  lemma ClearAllKeepsRouted(s: State)
    requires Routed(s)
    ensures Routed(AfterClearAll(s))
  {
    forall p | 0 <= p < |s.peers|
      ensures ReleasedOnce(AfterClearAll(s).peers[p])
    {
      OneKeyEach(s, p);
    }
  }

  // CLEAR_ALL meets a peer through its own name only, and only while it is open.
  lemma OneKeyEach(s: State, p: nat)
    requires Routed(s) && p < |s.peers|
    ensures var name := s.peers[p].name;
            RanKeysOf(s.table, s.table.Keys, p) == if name in s.table && s.table[name] == p then {name} else {}
    ensures RanKeysOf(s.table, s.table.Keys, p) != {} ==> s.peers[p].open
    ensures |RanKeysOf(s.table, s.table.Keys, p)| <= 1
  {
    var keys, name := RanKeysOf(s.table, s.table.Keys, p), s.peers[p].name;
    forall k | k in keys
      ensures k == name && s.peers[p].open
    {
      assert EntryGood(s, k);
    }
    if name in s.table && s.table[name] == p {
      assert EntryGood(s, name);
      assert keys == {name};
    } else {
      assert keys == {};
    }
  }

  /** A step keeps the invariant exactly when it does not handle a stale event and is no setup that changes the name
      a connection is routed by or registers a name shorter than the one before it. */
  lemma StepKeepsRoutedIff(s: State, ev: Event)
    requires Routed(s)
    ensures Routed(Step(s, ev)) <==> Steady(s, ev)
  {
    match ev
    case Accept(_, _, _) => AcceptKeepsRouted(s, ev);
    case Setup(p, request) =>
      if p < |s.peers| { SetupKeepsRoutedIff(s, p, request); }
    case WriteReady(p, polled) =>
      if p < |s.peers| { WriteReadyKeepsRoutedIff(s, p, polled); }
    case EndOfFile(p) =>
      if p < |s.peers| { CleanUpKeepsRoutedIff(s, p); }
    case PollError(p) =>
      if p < |s.peers| { PollErrorKeepsRoutedIff(s, p); }
    case SendTo(name, mtype, sent) =>
      if name in s.table { SendKeepsRouted(s, name, mtype, sent); }
    case ClearAll => ClearAllKeepsRouted(s);
  }

  lemma SendKeepsRouted(s: State, name: string, mtype: int, sent: bool)
    requires Routed(s) && name in s.table
    ensures Routed(Step(s, SendTo(name, mtype, sent)))
  {
    assert EntryGood(s, name);
    CleanUpKeepsRoutedIff(s, s.table[name]);
    DropMessageIsIdle(CleanUp(s, s.table[name]), name, mtype);
  }

  lemma AcceptKeepsRouted(s: State, ev: Event)
    requires Routed(s) && ev.Accept?
    ensures Routed(Step(s, ev))
  {
    var s' := Step(s, ev);
    forall k | k in s'.table
      ensures EntryGood(s', k)
    {
      assert EntryGood(s, k);
    }
  }

  lemma ConnectKeepsRouted(s: State, p: nat)
    requires Routed(s) && p < |s.peers|
    ensures Routed(s.(peers := s.peers[p := s.peers[p].(connected := true)]))
  {
    var s1 := s.(peers := s.peers[p := s.peers[p].(connected := true)]);
    forall k | k in s1.table
      ensures EntryGood(s1, k)
    {
      assert EntryGood(s, k);
    }
  }

  lemma DropMessageReleases(s: State, key: string, p: nat)
    requires p < |s.peers|
    ensures |DropMessage(s, key).peers| == |s.peers| && DropMessage(s, key).peers[p].releases >= s.peers[p].releases
  {
  }

  lemma WriteReadyKeepsRoutedIff(s: State, p: nat, polled: Polled)
    requires Routed(s) && p < |s.peers|
    ensures Routed(Step(s, WriteReady(p, polled))) <==> Fresh(s, WriteReady(p, polled))
  {
    var s1 := s.(peers := s.peers[p := s.peers[p].(connected := true)]);
    ConnectKeepsRouted(s, p);
    CleanUpKeepsRoutedIff(s1, p);
    if s.peers[p].open {
      DropMessageIsIdle(CleanUp(s1, p), s.peers[p].name, 0);
    } else {
      assert ReleasedOnce(s.peers[p]);
      DropMessageReleases(CleanUp(s1, p), MsgKey(s.peers[p].name, 0), p);
      assert !ReleasedOnce(DropMessage(CleanUp(s1, p), MsgKey(s.peers[p].name, 0)).peers[p]);
    }
  }

  lemma PollErrorKeepsRoutedIff(s: State, p: nat)
    requires Routed(s) && p < |s.peers|
    ensures Routed(Step(s, PollError(p))) <==> s.peers[p].open
  {
    var s1 := s.(table := s.table - {s.peers[p].name});
    forall k | k in s1.table
      ensures EntryGood(s1, k)
    {
      assert EntryGood(s, k);
    }
    CleanUpKeepsRoutedIff(s1, p);
  }

  predicate SteadyRun(evs: seq<Event>) {
    evs != [] ==> SteadyRun(evs[..|evs| - 1]) && Steady(After(evs[..|evs| - 1]), evs[|evs| - 1])
  }

  // The invariant holds after the run and after everything shorter that it begins with.
  ghost predicate AlwaysRouted(evs: seq<Event>) {
    Routed(After(evs)) && (evs != [] ==> AlwaysRouted(evs[..|evs| - 1]))
  }

  lemma {:induction false} RoutedAtEveryPoint(evs: seq<Event>, n: nat)
    requires AlwaysRouted(evs) && n <= |evs|
    ensures Routed(After(evs[..n]))
  {
    if n == |evs| {
      assert evs[..n] == evs;
    } else {
      RoutedAtEveryPoint(evs[..|evs| - 1], n);
      assert evs[..|evs| - 1][..n] == evs[..n];
    }
  }

  /** The runs in which, at every point, each RAN entry points at an open peer of that name and every peer is open
      or has been released exactly once, are exactly the runs of steady steps. */
  lemma {:induction false} RoutedAlwaysIff(evs: seq<Event>)
    ensures SteadyRun(evs) <==> AlwaysRouted(evs)
  {
    if evs != [] {
      var before := evs[..|evs| - 1];
      RoutedAlwaysIff(before);
      if Routed(After(before)) {
        StepKeepsRoutedIff(After(before), evs[|evs| - 1]);
      }
    }
  }

  lemma {:induction false} SteadyRunIsRouted(evs: seq<Event>)
    requires SteadyRun(evs)
    ensures Routed(After(evs))
  {
    RoutedAlwaysIff(evs);
  }

  /** A run in which no setup gives a named connection another name or none, and no event that closes a connection or
      registers its name comes after its release, is steady. */
  lemma {:induction false} NoRenameIsSteady(evs: seq<Event>)
    requires forall n :: 0 <= n < |evs| ==> !Renames(After(evs[..n]), evs[n]) && Fresh(After(evs[..n]), evs[n])
    ensures SteadyRun(evs)
  {
    if evs != [] {
      var before := evs[..|evs| - 1];
      assert forall n :: 0 <= n < |before| ==> before[..n] == evs[..n] && before[n] == evs[n];
      NoRenameIsSteady(before);
      SteadyRunIsRouted(before);
      NoRenameSteadyStep(After(before), evs[|evs| - 1]);
    }
  }

  lemma NoRenameSteadyStep(s: State, ev: Event)
    requires Routed(s) && !Renames(s, ev) && Fresh(s, ev)
    ensures Steady(s, ev)
  {
    assert EntryGood(s, "");
  }

  /** CLEAR_ALL closes and releases, once, exactly the peers that are routed to, and empties the table. */
  lemma ClearAllReleasesRouted(evs: seq<Event>, p: nat)
    requires SteadyRun(evs) && p < |After(evs).peers|
    ensures var s, s' := After(evs), Step(After(evs), ClearAll);
            && s'.table == map[] && |s'.peers| == |s.peers|
            && s'.peers[p] == if s.peers[p].name in s.table && s.table[s.peers[p].name] == p
                              then Released(s.peers[p]) else s.peers[p]
  {
    SteadyRunIsRouted(evs);
    OneKeyEach(After(evs), p);
  }

  /** Two peers may claim one name: routing follows the later one, and when the earlier one closes
      the name is routed to nobody. */
  lemma LaterClaimWins(s: State, p: nat, q: nat, node: E2Node)
    requires Routed(s) && Live(s, p) && Live(s, q) && p != q && Named(node)
    requires s.peers[p].name == RanName(node) && Steady(s, Setup(q, NodeId(node)))
    ensures var s1 := Step(s, Setup(q, NodeId(node)));
            var s2 := Step(s1, EndOfFile(p));
            && Routed(s1) && s1.table[RanName(node)] == q
            && Routed(s2) && RanName(node) !in s2.table && Live(s2, q)
  {
    SetupKeepsRoutedIff(s, q, NodeId(node));
    CleanUpKeepsRoutedIff(Step(s, Setup(q, NodeId(node))), p);
  }

  /** When the guard fails, closing the renamed connection leaves a key pointing at a released peer,
      and CLEAR_ALL then releases that peer a second time. */
  lemma RenameDangles(s: State, p: nat, request: SetupRequest) returns (k: string)
    requires Routed(s) && Live(s, p) && !Steady(s, Setup(p, request))
    ensures var s2 := CleanUp(Step(s, Setup(p, request)), p);
            var s3 := AfterClearAll(s2);
            && k in s2.table && s2.table[k] == p
            && p < |s2.peers| && !s2.peers[p].open
            && p < |s3.peers| && s3.peers[p].releases >= 2
  {
    k := UnsteadyKey(s, p, request);
    var s1 := AfterSetup(s, p, request);
    ClosedUnderOtherKey(s1, p, k);
    ClearAllReleasesAgain(CleanUp(s1, p), p, k);
  }

  lemma ClosedUnderOtherKey(s: State, p: nat, k: string)
    requires Live(s, p) && s.peers[p].releases == 0
    requires k in s.table && s.table[k] == p && k != s.peers[p].name && k != HostKey(s.peers[p])
    ensures var s' := CleanUp(s, p);
            && |s'.peers| == |s.peers| && k in s'.table && s'.table[k] == p
            && s'.peers[p].releases == 1 && !s'.peers[p].open
  {
  }

  lemma ClearAllReleasesAgain(s: State, p: nat, k: string)
    requires p < |s.peers| && k in s.table && s.table[k] == p && IsRanKey(k)
    ensures |AfterClearAll(s).peers| == |s.peers| && AfterClearAll(s).peers[p].releases >= s.peers[p].releases + 1
  {
    var keys := RanKeysOf(s.table, s.table.Keys, p);
    assert k in keys;
    assert |keys| >= 1;
  }

  /** An end of file polled together with the CLEAR_ALL message that comes first releases every routed connection
      again. */
  lemma StaleCloseReleasesAgain(s: State, p: nat)
    requires Routed(s) && p < |s.peers| && RoutedByName(s, p)
    ensures var s1 := Step(s, ClearAll);
            && Steady(s, ClearAll) && !Steady(s1, EndOfFile(p))
            && |Step(s1, EndOfFile(p)).peers| == |s.peers| && Step(s1, EndOfFile(p)).peers[p].releases == 2
  {
    OneKeyEach(s, p);
    assert ReleasedOnce(s.peers[p]);
  }

  // A connection that is accepted, named, cleared and then read from, the last two events of one poll.
  function StaleRun(node: E2Node): seq<Event> {
    [Accept("h", 1, true), Setup(0, NodeId(node)), ClearAll, EndOfFile(0)]
  }

  /** A run that is steady up to its last event, which is stale, and releases its connection twice. */
  lemma StaleRunReleasesTwice(node: E2Node)
    requires Named(node)
    ensures var s := After(StaleRun(node)); |s.peers| == 1 && s.peers[0].releases == 2
    ensures SteadyRun(StaleRun(node)[..3]) && !SteadyRun(StaleRun(node))
  {
    var evs := StaleRun(node);
    StaleRunBegins(node);
    SteadyRunIsRouted(evs[..2]);
    StaleCloseReleasesAgain(After(evs[..2]), 0);
    RunStep(evs, 2);
    RunStep(evs, 3);
    assert evs[..4] == evs;
  }

  lemma StaleRunBegins(node: E2Node)
    requires Named(node)
    ensures SteadyRun(StaleRun(node)[..2])
    ensures After(StaleRun(node)[..2]) == State([Peer(RanName(node), "h", 1, false, true, 0)], map[RanName(node) := 0])
  {
    var evs := StaleRun(node);
    assert evs[..0] == [];
    RunStep(evs, 0);
    RunStep(evs, 1);
    NamedPeer(node);
  }

  // The first two events of that run.
  lemma NamedPeer(node: E2Node)
    requires Named(node)
    ensures var s1 := Step(INIT, Accept("h", 1, true));
            && Steady(INIT, Accept("h", 1, true)) && Steady(s1, Setup(0, NodeId(node)))
            && Step(s1, Setup(0, NodeId(node))) ==
               State([Peer(RanName(node), "h", 1, false, true, 0)], map[RanName(node) := 0])
  {
    var s1 := Step(INIT, Accept("h", 1, true));
    assert s1 == State([Peer("", "h", 1, false, true, 0)], map[]);
  }

  lemma RunStep(evs: seq<Event>, n: nat)
    requires n < |evs|
    ensures After(evs[..n + 1]) == Step(After(evs[..n]), evs[n])
    ensures SteadyRun(evs[..n + 1]) <==> SteadyRun(evs[..n]) && Steady(After(evs[..n]), evs[n])
  {
    assert evs[..n + 1][..n] == evs[..n];
  }

  /** Between two calls of CLEAR_ALL, when it has released the peers of some keys and not yet emptied the table,
      another thread's close of a connection releases it the only time exactly when its name is not one of those keys
      or does not route to it. */
  lemma CloseDuringClearAllIff(s: State, p: nat, keys: set<string>)
    requires Routed(s) && Live(s, p)
    ensures var torn := State(ClearedPeers(s, keys), s.table);
            ReleasedOnce(CleanUp(torn, p).peers[p]) <==> !(s.peers[p].name in keys && RoutedByName(s, p))
  {
    var name := s.peers[p].name;
    OneKeyEach(s, p);
    assert RanKeysOf(s.table, keys, p) == RanKeysOf(s.table, s.table.Keys, p) * keys;
    if RoutedByName(s, p) {
      assert RanKeysOf(s.table, keys, p) == if name in keys then {name} else {};
    } else {
      assert RanKeysOf(s.table, keys, p) == {};
    }
  }

  // Routing as history

  // The peer a step closes.
  function Closes(s: State, ev: Event): Option<nat> {
    match ev
    case WriteReady(p, polled) =>
      if p < |s.peers| && (polled.EpollModFails? || polled.SendFails?) then Some(p) else None
    case EndOfFile(p) => if p < |s.peers| then Some(p) else None
    case PollError(p) => if p < |s.peers| then Some(p) else None
    case SendTo(name, _, sent) =>
      if name in s.table && s.table[name] < |s.peers| && !sent && s.peers[s.table[name]].connected
      then Some(s.table[name]) else None
    case _ => None
  }

  // What a step does to the route of a key.
  datatype Mark = Claimed(p: nat) | Unrouted | Quiet

  function MarkOf(s: State, ev: Event, k: string): Mark {
    if ev.Setup? && ev.p < |s.peers| && Registers(ev.request)
       && Overlaid(SetupName(ev.request), s.peers[ev.p].name) == k
    then Claimed(ev.p)
    else if ev.ClearAll? || (Closes(s, ev).Some? && s.peers[Closes(s, ev).value].name == k) then Unrouted
    else Quiet
  }

  lemma TableStep(s: State, ev: Event, k: string)
    requires IsRanKey(k)
    ensures match MarkOf(s, ev, k)
            case Claimed(p) => k in Step(s, ev).table && Step(s, ev).table[k] == p
            case Unrouted => k !in Step(s, ev).table
            case Quiet =>
              && (k in Step(s, ev).table <==> k in s.table)
              && (k in s.table ==> Step(s, ev).table[k] == s.table[k])
  {
    if Closes(s, ev).Some? {
      ClosingStep(s, ev, k);
    }
  }

  // A closing step takes the peer's name out of the table, and no other RAN key.
  lemma ClosingStep(s: State, ev: Event, k: string)
    requires IsRanKey(k) && Closes(s, ev).Some?
    ensures var name := s.peers[Closes(s, ev).value].name;
            (k in Step(s, ev).table <==> k in s.table && k != name) &&
            (k in s.table && k != name ==> Step(s, ev).table[k] == s.table[k])
  {
    var p := Closes(s, ev).value;
    match ev
    case WriteReady(_, _) => OtherShapes(s.peers[p].(connected := true), s.peers[p].name, 0, k);
    case SendTo(name, mtype, _) => OtherShapes(s.peers[p], name, mtype, k);
    case EndOfFile(_) => OtherShapes(s.peers[p], "", 0, k);
    case PollError(_) => OtherShapes(s.peers[p], "", 0, k);
  }

  lemma OtherShapes(peer: Peer, name: string, mtype: int, k: string)
    requires IsRanKey(k)
    ensures k != HostKey(peer) && k != MsgKey(name, mtype)
  {
    KeyShapes(peer, name, mtype);
  }

  // The marks of the events of a run, in order.
  function Marks(evs: seq<Event>, k: string): (m: seq<Mark>)
    ensures |m| == |evs|
  {
    if evs == [] then [] else Marks(evs[..|evs| - 1], k) + [MarkOf(After(evs[..|evs| - 1]), evs[|evs| - 1], k)]
  }

  // Mark i is a claim for p and everything after it is quiet.
  ghost predicate LatestClaim(m: seq<Mark>, i: nat, p: nat) {
    i < |m| && m[i] == Claimed(p) && forall j :: i < j < |m| ==> m[j] == Quiet
  }

  ghost predicate SomeLatestClaim(m: seq<Mark>, p: nat) { exists i :: LatestClaim(m, i, p) }

  lemma LatestClaimAppend(m: seq<Mark>, x: Mark, p: nat)
    ensures SomeLatestClaim(m + [x], p) <==> x == Claimed(p) || (x == Quiet && SomeLatestClaim(m, p))
  {
    var m' := m + [x];
    assert forall j :: 0 <= j < |m| ==> m'[j] == m[j];
    if i: nat :| LatestClaim(m', i, p) {
      if i < |m| {
        assert m'[|m|] == Quiet;
        assert LatestClaim(m, i, p);
      }
    }
    if x == Claimed(p) {
      assert LatestClaim(m', |m|, p);
    }
    if x == Quiet && SomeLatestClaim(m, p) {
      var i: nat :| LatestClaim(m, i, p);
      assert LatestClaim(m', i, p);
    }
  }

  /** In every run a RAN key routes to a peer exactly when that peer claimed it by a setup, and since then no peer
      claimed it, no peer of that name closed, and CLEAR_ALL did not come. */
  lemma {:induction false} RouteIsHistory(evs: seq<Event>, k: string, p: nat)
    requires IsRanKey(k)
    ensures k in After(evs).table && After(evs).table[k] == p <==> SomeLatestClaim(Marks(evs, k), p)
  {
    if evs != [] {
      var before := evs[..|evs| - 1];
      RouteIsHistory(before, k, p);
      TableStep(After(before), evs[|evs| - 1], k);
      LatestClaimAppend(Marks(before, k), MarkOf(After(before), evs[|evs| - 1], k), p);
    }
  }

  /** In every run each table entry is the position of a record. */
  lemma {:induction false} EntriesExist(evs: seq<Event>)
    ensures forall k :: k in After(evs).table ==> After(evs).table[k] < |After(evs).peers|
  {
    if evs != [] {
      EntriesExist(evs[..|evs| - 1]);
    }
  }

  // The table as the program keeps it: records and a map updated in place.

  class ConnectionTable {
    var peers: seq<Peer>
    var sctpMap: map<string, nat>

    function Snapshot(): State
      reads this
    {
      State(peers, sctpMap)
    }

    constructor ()
      ensures Snapshot() == INIT
    {
      peers, sctpMap := [], map[];
    }

    method Erase(key: string)
      modifies this`sctpMap
      ensures sctpMap == old(sctpMap) - {key}
    {
      sctpMap := sctpMap - {key};
    }

    method Free(p: nat)
      requires p < |peers|
      modifies this`peers
      ensures peers == old(peers)[p := Released(old(peers)[p])]
    {
      peers := peers[p := peers[p].(open := false, releases := peers[p].releases + 1)];
    }

    method CleanHashEntry(p: nat)
      requires p < |peers|
      modifies this
      ensures Snapshot() == CleanUp(old(Snapshot()), p)
    {
      var searchBuff := "host:" + peers[p].host + ":" + Decimal.ToString(peers[p].port);
      Erase(searchBuff);
      Erase(peers[p].name);
      Free(p);
      assert old(sctpMap) - {searchBuff} - {old(peers)[p].name} == old(sctpMap) - {searchBuff, old(peers)[p].name};
    }

    method AcceptPeer(host: string, port: nat, added: bool)
      modifies this
      ensures Snapshot() == Step(old(Snapshot()), Accept(host, port, added))
    {
      var peerInfo := Peer("", host, port, false, true, 0);
      peers := peers + [peerInfo];
      if !added {
        Free(|peers| - 1);
      }
      assert peers == old(peers) + [Peer("", host, port, false, added, if added then 0 else 1)];
    }

    method CollectSetupRequestData(p: nat, request: SetupRequest) returns (rc: int)
      requires p < |peers|
      requires request.NodeId? && !request.node.OtherNode? ==> |request.node.plmn| >= 3
      modifies this
      ensures Snapshot() == Step(old(Snapshot()), Setup(p, request))
      ensures rc == if request.NodeId? && request.node.OtherNode? then -1 else 0
    {
      var messageName := peers[p].name;
      peers := peers[p := peers[p].(name := "")];
      if request.NodeId? {
        if request.node.OtherNode? {
          peers := peers[p := peers[p].(name := request.node.written)];
          return -1;
        }
        peers := peers[p := peers[p].(name := RanName(request.node))];
        if |messageName| > |peers[p].name| {
          messageName := peers[p].name + messageName[|peers[p].name|..];
        } else {
          messageName := peers[p].name;
        }
        sctpMap := sctpMap[messageName := p];
      }
      return 0;
    }

    method HandlePollError(p: nat)
      requires p < |peers|
      modifies this
      ensures Snapshot() == Step(old(Snapshot()), PollError(p))
    {
      Erase(peers[p].name);
      CleanHashEntry(p);
    }

    method CloseOnEndOfFile(p: nat)
      requires p < |peers|
      modifies this
      ensures Snapshot() == Step(old(Snapshot()), EndOfFile(p))
    {
      CleanHashEntry(p);
    }

    method SendToRan(name: string, mtype: int, sent: bool) returns (rc: int)
      requires name in sctpMap ==> sctpMap[name] < |peers|
      requires forall k :: k in sctpMap ==> sctpMap[k] < |peers|
      modifies this
      ensures Snapshot() == Step(old(Snapshot()), SendTo(name, mtype, sent))
      ensures rc == 0 <==> name in old(sctpMap) && sent
    {
      if name !in sctpMap { return -1; }
      var p := sctpMap[name];
      if sent { return 0; }
      if !peers[p].connected { return -1; }
      CleanHashEntry(p);
      DropPending(name, mtype);
      return -1;
    }

    method HandleInProgress(p: nat, polled: Polled)
      requires p < |peers|
      requires forall k :: k in sctpMap ==> sctpMap[k] < |peers|
      modifies this
      ensures Snapshot() == Step(old(Snapshot()), WriteReady(p, polled))
    {
      if polled.SocketError? { return; }
      peers := peers[p := peers[p].(connected := true)];
      if polled.Delivered? { return; }
      var name := peers[p].name;
      CleanHashEntry(p);
      DropPending(name, 0);
    }

    method DropPending(name: string, mtype: int)
      requires forall k :: k in sctpMap ==> sctpMap[k] < |peers|
      modifies this
      ensures Snapshot() == DropMessage(old(Snapshot()), MsgKey(name, mtype))
    {
      var key := "msg:" + name + "|" + Decimal.ToString(mtype);
      if key in sctpMap {
        Free(sctpMap[key]);
      } else {
        assert sctpMap - {key} == sctpMap;
      }
      Erase(key);
    }

    /** Walks a copy of the key list, releasing the peer behind each RAN key, then empties the map. */
    method ClearAllPeers()
      requires forall k :: k in sctpMap ==> sctpMap[k] < |peers|
      modifies this
      ensures Snapshot() == Step(old(Snapshot()), ClearAll)
    {
      var v := sctpMap.Keys;
      ghost var done: set<string> := {};
      while v != {}
        invariant done + v == old(sctpMap).Keys && done !! v && sctpMap == old(sctpMap)
        invariant peers == ClearedPeers(old(Snapshot()), done)
        decreases v
      {
        var key :| key in v;
        v := v - {key};
        ClearOneMore(old(Snapshot()), done, key);
        done := done + {key};
        if !("host:" <= key) && !("msg:" <= key) {
          Free(sctpMap[key]);
        }
      }
      assert done == old(sctpMap).Keys;
      sctpMap := map[];
    }

    method Dispatch(ev: Event)
      requires forall k :: k in sctpMap ==> sctpMap[k] < |peers|
      requires Readable(ev)
      modifies this
      ensures Snapshot() == Step(old(Snapshot()), ev)
    {
      match ev
      case Accept(host, port, added) => AcceptPeer(host, port, added);
      case Setup(p, request) =>
        if p < |peers| { var _ := CollectSetupRequestData(p, request); }
      case WriteReady(p, polled) => if p < |peers| { HandleInProgress(p, polled); }
      case EndOfFile(p) => if p < |peers| { CloseOnEndOfFile(p); }
      case PollError(p) => if p < |peers| { HandlePollError(p); }
      case SendTo(name, mtype, sent) => var _ := SendToRan(name, mtype, sent);
      case ClearAll => ClearAllPeers();
    }
  }

  lemma ClearOneMore(s: State, done: set<string>, key: string)
    requires key in s.table && key !in done && s.table[key] < |s.peers|
    ensures var peers := ClearedPeers(s, done);
            ClearedPeers(s, done + {key}) ==
            if IsRanKey(key) then peers[s.table[key] := Released(peers[s.table[key]])] else peers
  {
    forall p | 0 <= p < |s.peers|
      ensures |RanKeysOf(s.table, done + {key}, p)| ==
              |RanKeysOf(s.table, done, p)| + (if IsRanKey(key) && s.table[key] == p then 1 else 0)
    {
      RanKeysGrow(s.table, done, key, p);
    }
  }

  lemma RanKeysGrow(table: map<string, nat>, done: set<string>, key: string, p: nat)
    requires key in table && key !in done
    ensures |RanKeysOf(table, done + {key}, p)| ==
            |RanKeysOf(table, done, p)| + (if IsRanKey(key) && table[key] == p then 1 else 0)
  {
    if IsRanKey(key) && table[key] == p {
      assert RanKeysOf(table, done + {key}, p) == RanKeysOf(table, done, p) + {key};
    } else {
      assert RanKeysOf(table, done + {key}, p) == RanKeysOf(table, done, p);
    }
  }

  // The PLMN identity of a setup request has its three octets.
  predicate Readable(ev: Event) {
    ev.Setup? && ev.request.NodeId? && !ev.request.node.OtherNode? ==> |ev.request.node.plmn| >= 3
  }

  /** After any sequence of events the table and the records are those of the run. */
  method Serve(evs: seq<Event>) returns (t: ConnectionTable)
    requires forall ev :: ev in evs ==> Readable(ev)
    ensures fresh(t) && t.Snapshot() == After(evs)
  {
    t := new ConnectionTable();
    assert evs[..0] == [];
    for n := 0 to |evs|
      invariant fresh(t) && t.Snapshot() == After(evs[..n])
    {
      assert evs[..n + 1][..n] == evs[..n];
      EntriesExist(evs[..n]);
      t.Dispatch(evs[n]);
    }
    assert evs[..|evs|] == evs;
  }
}
