/** What each field of a connection record is after any run, by the events of the run. */
module ConnectionLaws {
  import opened Basics
  import opened RanNames
  import opened Connections

  // The records that exist before an event, the state the event meets.
  function Met(evs: seq<Event>, i: int): State
    requires 0 <= i <= |evs|
  {
    After(evs[..i])
  }

  // Some event of the run was of a kind, in the state it met.
  ghost predicate Happened(evs: seq<Event>, kind: (State, Event) -> bool) {
    exists i :: 0 <= i < |evs| && kind(Met(evs, i), evs[i])
  }

  lemma HappenedStep(evs: seq<Event>, kind: (State, Event) -> bool)
    requires evs != []
    ensures var n := |evs| - 1;
            Happened(evs, kind) <==> Happened(evs[..n], kind) || kind(After(evs[..n]), evs[n])
  {
    var n := |evs| - 1;
    Prefixes(evs);
    assert forall i :: 0 <= i < n ==> (kind(Met(evs, i), evs[i]) <==> kind(Met(evs[..n], i), evs[..n][i]));
    assert kind(Met(evs, n), evs[n]) <==> kind(After(evs[..n]), evs[n]);
  }

  predicate AcceptedAt(evs: seq<Event>, i: int, p: nat) {
    0 <= i < |evs| && evs[i].Accept? && p == |Met(evs, i).peers|
  }

  predicate NamedAt(evs: seq<Event>, i: int, p: nat) {
    0 <= i < |evs| && evs[i].Setup? && evs[i].p == p && p < |Met(evs, i).peers|
  }

  ghost function Connecting(p: nat): (State, Event) -> bool {
    (s: State, ev: Event) => ev.WriteReady? && ev.p == p && p < |s.peers| && ev.polled != SocketError
  }

  ghost function Ending(p: nat): (State, Event) -> bool { (s: State, ev: Event) => Ends(s, ev, p) }

  // The event fails to add the connection, closes it, or clears all while some key routes to it.
  ghost predicate Ends(s: State, ev: Event, p: nat) {
    match ev
    case Accept(_, _, added) => p == |s.peers| && !added
    case Setup(_, _) => false
    case WriteReady(q, polled) => q == p < |s.peers| && (polled == EpollModFails || polled == SendFails)
    case EndOfFile(q) => q == p < |s.peers|
    case PollError(q) => q == p < |s.peers|
    case SendTo(name, _, sent) =>
      !sent && name in s.table && s.table[name] == p < |s.peers| && s.peers[p].connected
    case ClearAll => p < |s.peers| && exists k :: k in s.table && s.table[k] == p
  }

  ghost predicate KeysAreNames(s: State) { forall k :: k in s.table ==> IsRanKey(k) }

  lemma {:induction false} KeysAreNamesAlways(evs: seq<Event>)
    ensures KeysAreNames(After(evs))
  {
    if evs != [] {
      var s, ev := After(evs[..|evs| - 1]), evs[|evs| - 1];
      KeysAreNamesAlways(evs[..|evs| - 1]);
      if ev.Setup? && Registers(ev.request) {
        RanNameStart(ev.request.node);
        if ev.p < |s.peers| {
          var k := Overlaid(RanName(ev.request.node), s.peers[ev.p].name);
          assert k[0] == RanName(ev.request.node)[0];
          KeyStart(k);
        }
      }
    }
  }

  lemma NothingPending(s: State, name: string, mtype: int)
    requires KeysAreNames(s)
    ensures DropMessage(s, MsgKey(name, mtype)) == s
  {
    KeyShapes(Peer("", "", 0, false, true, 0), name, mtype);
  }

  // What one event does to a record, and that it keeps the address.
  ghost predicate PeerStep(s: State, ev: Event, p: nat)
    requires p < |s.peers|
  {
    var s' := Step(s, ev);
    && p < |s'.peers|
    && var before, after := s.peers[p], s'.peers[p];
    && after.host == before.host && after.port == before.port
    && (after.connected <==> before.connected || (ev.WriteReady? && ev.p == p && ev.polled != SocketError))
    && (after.open <==> before.open && !Ends(s, ev, p))
    && after.name == if ev.Setup? && ev.p == p then SetupName(ev.request) else before.name
  }

  lemma PeerStepAlways(s: State, ev: Event, p: nat)
    requires KeysAreNames(s) && p < |s.peers|
    ensures PeerStep(s, ev, p)
  {
    match ev
    case WriteReady(q, _) =>
      if q < |s.peers| {
        var s1 := s.(peers := s.peers[q := s.peers[q].(connected := true)]);
        NothingPending(CleanUp(s1, q), s.peers[q].name, 0);
      }
    case SendTo(name, mtype, _) =>
      if name in s.table && s.table[name] < |s.peers| {
        NothingPending(CleanUp(s, s.table[name]), name, mtype);
      }
    case ClearAll => ClearAllStep(s, p);
    case _ =>
  }

  lemma ClearAllStep(s: State, p: nat)
    requires KeysAreNames(s) && p < |s.peers|
    ensures PeerStep(s, ClearAll, p)
  {
    var keys := RanKeysOf(s.table, s.table.Keys, p);
    if k :| k in s.table && s.table[k] == p {
      assert k in keys;
    } else {
      assert keys == {};
    }
  }

  lemma Prefixes(evs: seq<Event>)
    requires evs != []
    ensures var n := |evs| - 1; forall i :: 0 <= i <= n ==> Met(evs, i) == Met(evs[..n], i)
  {
    var n := |evs| - 1;
    forall i | 0 <= i <= n
      ensures Met(evs, i) == Met(evs[..n], i)
    {
      assert evs[..n][..i] == evs[..i];
    }
  }

  lemma LastStep(evs: seq<Event>, p: nat)
    requires evs != [] && p < |After(evs[..|evs| - 1]).peers|
    ensures PeerStep(After(evs[..|evs| - 1]), evs[|evs| - 1], p)
  {
    KeysAreNamesAlways(evs[..|evs| - 1]);
    PeerStepAlways(After(evs[..|evs| - 1]), evs[|evs| - 1], p);
  }

  lemma FieldsStep(evs: seq<Event>, p: nat)
    requires evs != [] && p < |After(evs[..|evs| - 1]).peers|
    ensures p < |After(evs).peers|
    ensures var n, before, after := |evs| - 1, After(evs[..|evs| - 1]).peers[p], After(evs).peers[p];
            && after.host == before.host && after.port == before.port
            && after.name == if evs[n].Setup? && evs[n].p == p then SetupName(evs[n].request) else before.name
  {
    LastStep(evs, p);
  }

  lemma AcceptedNow(s: State, ev: Event)
    requires ev.Accept?
    ensures var p, s' := |s.peers|, Step(s, ev);
            p < |s'.peers| && s'.peers[p].host == ev.host && s'.peers[p].port == ev.port
  {
  }

  lemma AcceptedEarlier(evs: seq<Event>, i: nat, p: nat)
    requires i < |evs| - 1
    ensures AcceptedAt(evs, i, p) <==> AcceptedAt(evs[..|evs| - 1], i, p)
  {
    assert evs[..|evs| - 1][..i] == evs[..i];
  }

  /** In every run an accepted connection keeps the host and port it was accepted with. */
  lemma {:induction false} AddressIsHistory(evs: seq<Event>, i: nat, p: nat)
    requires AcceptedAt(evs, i, p)
    ensures p < |After(evs).peers|
    ensures After(evs).peers[p].host == evs[i].host && After(evs).peers[p].port == evs[i].port
  {
    var n := |evs| - 1;
    if i < n {
      AcceptedEarlier(evs, i, p);
      AddressIsHistory(evs[..n], i, p);
      FieldsStep(evs, p);
    } else {
      AcceptedNow(After(evs[..n]), evs[n]);
    }
  }

  lemma {:induction false} EveryRecordAccepted(evs: seq<Event>, p: nat) returns (i: nat)
    requires p < |After(evs).peers|
    ensures AcceptedAt(evs, i, p)
  {
    var n := |evs| - 1;
    RecordCount(After(evs[..n]), evs[n]);
    if p < |After(evs[..n]).peers| {
      i := EveryRecordAccepted(evs[..n], p);
      AcceptedEarlier(evs, i, p);
    } else {
      i := n;
    }
  }

  lemma RecordCount(s: State, ev: Event)
    ensures |Step(s, ev).peers| == |s.peers| + if ev.Accept? then 1 else 0
  {
  }

  /** In every run a connection is in use as connected exactly when it became writable without a socket error. */
  lemma {:induction false} ConnectedIsHistory(evs: seq<Event>, p: nat)
    requires p < |After(evs).peers|
    ensures After(evs).peers[p].connected <==> Happened(evs, Connecting(p))
  {
    var n := |evs| - 1;
    HappenedStep(evs, Connecting(p));
    RecordCount(After(evs[..n]), evs[n]);
    if p < |After(evs[..n]).peers| {
      ConnectedIsHistory(evs[..n], p);
      LastStep(evs, p);
    } else {
      NotBefore(evs, p);
      Prefixes(evs);
    }
  }

  // Nothing happens to a record before it exists.
  lemma NotBefore(evs: seq<Event>, p: nat)
    requires evs != [] && p >= |After(evs[..|evs| - 1]).peers|
    ensures forall i :: 0 <= i < |evs| ==> p >= |Met(evs, i).peers|
  {
    forall i | 0 <= i < |evs|
      ensures p >= |Met(evs, i).peers|
    {
      RecordsStay(evs[..|evs| - 1], i);
      assert evs[..|evs| - 1][..i] == evs[..i];
    }
  }

  lemma {:induction false} RecordsStay(evs: seq<Event>, i: nat)
    requires i <= |evs|
    ensures |Met(evs, i).peers| <= |After(evs).peers|
  {
    if i == |evs| {
      assert evs[..i] == evs;
    } else {
      RecordsStay(evs[..|evs| - 1], i);
      assert evs[..|evs| - 1][..i] == evs[..i];
      RecordCount(After(evs[..|evs| - 1]), evs[|evs| - 1]);
    }
  }

  /** In every run a connection is open exactly when none of these came: its accept failing after the socket was
      accepted, an end of file or poll error on it, a failed poll change or send when it became writable, a failed send
      to a name routed to it while connected, CLEAR_ALL while a name was routed to it. */
  lemma {:induction false} OpenIsHistory(evs: seq<Event>, p: nat)
    requires p < |After(evs).peers|
    ensures After(evs).peers[p].open <==> !Happened(evs, Ending(p))
  {
    var n := |evs| - 1;
    HappenedStep(evs, Ending(p));
    if p < |After(evs[..n]).peers| {
      OpenIsHistory(evs[..n], p);
      LastStep(evs, p);
    } else {
      FirstOpen(After(evs[..n]), evs[n], p);
      NothingEnded(evs, p);
    }
  }

  lemma FirstOpen(s: State, ev: Event, p: nat)
    requires |s.peers| <= p < |Step(s, ev).peers|
    ensures Step(s, ev).peers[p].open <==> !Ends(s, ev, p)
  {
    RecordCount(s, ev);
  }

  lemma NothingEnded(evs: seq<Event>, p: nat)
    requires evs != [] && |After(evs[..|evs| - 1]).peers| <= p
    ensures !Happened(evs[..|evs| - 1], Ending(p))
  {
    var before := evs[..|evs| - 1];
    forall i | 0 <= i < |before|
      ensures !Ends(Met(before, i), before[i], p)
    {
      RecordsStay(before, i + 1);
      assert before[..i + 1][..i] == before[..i];
      RecordCount(Met(before, i), before[i]);
    }
  }

  ghost predicate LatestName(evs: seq<Event>, i: int, p: nat) {
    NamedAt(evs, i, p) && forall j :: j > i ==> !NamedAt(evs, j, p)
  }

  // The name a setup leaves: none without a node id, the RAN name of a gNB or en-gNB, otherwise what was written.
  predicate LeavesName(request: SetupRequest, name: string) {
    match request
    case NoNodeId => name == ""
    case NodeId(OtherNode(written)) => name == written
    case NodeId(node) => |node.plmn| >= 3 ==> name == RanName(node)
  }

  lemma LatestNameEarlier(evs: seq<Event>, i: int, p: nat)
    requires LatestName(evs, i, p) && i < |evs| - 1
    ensures LatestName(evs[..|evs| - 1], i, p) && !NamedAt(evs, |evs| - 1, p)
  {
    var n := |evs| - 1;
    NamedEarlier(evs, i, p);
    forall j | j > i
      ensures !NamedAt(evs[..n], j, p)
    {
      if j < n { NamedEarlier(evs, j, p); }
    }
  }

  lemma NamedEarlier(evs: seq<Event>, i: nat, p: nat)
    requires i < |evs| - 1
    ensures NamedAt(evs, i, p) <==> NamedAt(evs[..|evs| - 1], i, p)
  {
    assert evs[..|evs| - 1][..i] == evs[..i];
  }

  /** In every run a record's name is the one its latest setup left. */
  lemma {:induction false} NameIsHistory(evs: seq<Event>, i: int, p: nat)
    requires LatestName(evs, i, p)
    ensures p < |After(evs).peers| && LeavesName(evs[i].request, After(evs).peers[p].name)
  {
    var n := |evs| - 1;
    if i < n {
      LatestNameEarlier(evs, i, p);
      NameIsHistory(evs[..n], i, p);
    }
    FieldsStep(evs, p);
  }

  ghost function Naming(p: nat): (State, Event) -> bool {
    (s: State, ev: Event) => ev.Setup? && ev.p == p && p < |s.peers|
  }

  /** A record has no name before its first setup. */
  lemma {:induction false} NamelessBeforeSetup(evs: seq<Event>, p: nat)
    requires p < |After(evs).peers| && !Happened(evs, Naming(p))
    ensures After(evs).peers[p].name == ""
  {
    var n := |evs| - 1;
    HappenedStep(evs, Naming(p));
    RecordCount(After(evs[..n]), evs[n]);
    if p < |After(evs[..n]).peers| {
      NamelessBeforeSetup(evs[..n], p);
      FieldsStep(evs, p);
    }
  }
}
