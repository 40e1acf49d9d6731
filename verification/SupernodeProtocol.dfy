/** The supernode: its registration table and its answers, as functions, and what holds of every run. */
module SupernodeProtocol {
  import opened PeerTable
  import Edge = EdgeProtocol

  const REG_LIFETIME := 30

  datatype Option<T> = None | Some(value: T)

  /** Decoded messages; those that are ignored are Other. */
  datatype Message =
    | Packet(srcMac: Mac, dstMac: Mac)
    | Register(dstMac: Mac)
    | RegisterSuper(cookie: nat, edgeMac: Mac, timeout: nat, localSock: Option<Sock>)
    | QueryPeer(srcMac: Mac, targetMac: Mac)
    | Other

  datatype Reply =
    | PeerInfoReply(to: Sock, community: Community, mac: Mac, timeout: nat, sockets: seq<Sock>)
    | RegisterSuperAck(to: Sock, community: Community, cookie: nat, mac: Mac, lifetime: nat)
    | Forwarded(to: Sock)                   // the message, to one edge
    | Broadcast(targets: map<Key, Sock>)    // the message, to each of these edges once

  datatype Event =
    | Datagram(sender: Sock, community: Community, ttl: nat, msg: Message)
    | Timer

  datatype Occurrence = At(event: Event, now: int)

  datatype State = State(edges: PeerMap, lastPurge: int, sent: seq<Reply>)

  /** One or two sockets, of which the first is sock. */
  predicate GoodEntry(p: Peer) {
    1 <= |p.sockets| <= 2 && p.sockets[0] == p.sock
  }

  ghost predicate GoodEdges(edges: PeerMap) {
    forall k :: k in edges ==> KeyOf(edges[k].mac) == k && GoodEntry(edges[k])
  }

  function Sockets(sock: Sock, localSock: Option<Sock>): seq<Sock> {
    if localSock.Some? then [sock, localSock.value] else [sock]
  }

  function NewEdge(sender: Sock, community: Community, m: Message, now: int): Peer
    requires m.RegisterSuper?
  {
    Peer(m.edgeMac, community, sender, Sockets(sender, m.localSock), now, 0, m.timeout)
  }

  /** The second branch of update_edge: sockets are overwritten only where they differ. */
  function Renewed(p: Peer, sender: Sock, community: Community, m: Message, now: int): (p': Peer)
    requires m.RegisterSuper? && GoodEntry(p)
    ensures GoodEntry(p') && p'.mac == p.mac
  {
    var moved := if !SockEqual(sender, p.sock) then p.(sock := sender, sockets := p.sockets[0 := sender]) else p;
    var sockets :=
      if |p.sockets| == 1 then
        if m.localSock.Some? then [moved.sock, m.localSock.value] else moved.sockets
      else if m.localSock.Some? then
        if !SockEqual(m.localSock.value, moved.sockets[1]) then moved.sockets[1 := m.localSock.value] else moved.sockets
      else [moved.sock];
    moved.(timeout := m.timeout, community := community, sockets := sockets, lastSeen := now)
  }

  function UpdateEdge(edges: PeerMap, sender: Sock, community: Community, m: Message, now: int): (edges': PeerMap)
    requires m.RegisterSuper? && GoodEdges(edges)
    ensures GoodEdges(edges')
  {
    hide KeyOf, Renewed;
    var k := KeyOf(m.edgeMac);
    edges[k := if k in edges then Renewed(edges[k], sender, community, m, now) else NewEdge(sender, community, m, now)]
  }

  function Answer(edges: PeerMap, sender: Sock, community: Community, target: Mac): seq<Reply> {
    var k := KeyOf(target);
    if k in edges && edges[k].community == community then
      [PeerInfoReply(sender, community, target, edges[k].timeout, edges[k].sockets)]
    else []
  }

  predicate IsMultiBroadcast(mac: Mac) {
    mac == Edge.BROADCAST_MAC || mac[..3] == [0x01, 0x00, 0x5e] || mac[..2] == [0x33, 0x33]
  }

  /** try_forward; only sockets of IPv4 are sent to. */
  function Forward(edges: PeerMap, dstMac: Mac): seq<Reply> {
    var k := KeyOf(dstMac);
    if k in edges && edges[k].sock.family == AF_INET then [Forwarded(edges[k].sock)] else []
  }

  /** try_broadcast excludes the entry with the sender's very address. */
  predicate IsTarget(p: Peer, community: Community, srcMac: Mac) {
    p.community == community && p.mac != srcMac && p.sock.family == AF_INET
  }

  function Targets(edges: PeerMap, community: Community, srcMac: Mac): map<Key, Sock> {
    map k | k in edges && IsTarget(edges[k], community, srcMac) :: edges[k].sock
  }

  function Receive(s: State, sender: Sock, community: Community, ttl: nat, m: Message, now: int): (s': State)
    requires GoodEdges(s.edges)
    ensures GoodEdges(s'.edges)
  {
    hide GoodEdges, UpdateEdge;
    if ttl < 1 then s
    else match m
      case Packet(srcMac, dstMac) =>
        s.(sent := s.sent + if IsMultiBroadcast(dstMac) then [Broadcast(Targets(s.edges, community, srcMac))]
                            else Forward(s.edges, dstMac))
      case Register(dstMac) => s.(sent := s.sent + if IsMultiBroadcast(dstMac) then [] else Forward(s.edges, dstMac))
      case RegisterSuper(cookie, edgeMac, _, _) =>
        s.(edges := UpdateEdge(s.edges, sender, community, m, now),
           sent := s.sent + [RegisterSuperAck(sender, community, cookie, edgeMac, REG_LIFETIME)])
      case QueryPeer(_, targetMac) => s.(sent := s.sent + Answer(s.edges, sender, community, targetMac))
      case Other => s
  }

  function PurgeTimer(s: State, now: int): (s': State)
    requires GoodEdges(s.edges)
    ensures GoodEdges(s'.edges)
  {
    hide KeyOf, GoodEntry;
    if now - s.lastPurge >= PURGE_REGISTRATION_FREQUENCY then
      s.(edges := Unexpired(s.edges, now - REGISTRATION_TIMEOUT), lastPurge := now)
    else s
  }

  function Step(s: State, e: Event, now: int): (s': State)
    requires GoodEdges(s.edges)
    ensures GoodEdges(s'.edges)
  {
    match e
    case Datagram(sender, community, ttl, m) => Receive(s, sender, community, ttl, m, now)
    case Timer => PurgeTimer(s, now)
  }

  const INITIAL := State(map[], 0, [])

  function Run(es: seq<Occurrence>): (s: State)
    ensures GoodEdges(s.edges)
  {
    if es == [] then INITIAL else Step(Run(es[..|es| - 1]), es[|es| - 1].event, es[|es| - 1].now)
  }

  // ----- what the table says about the registrations it has seen

  /** The event registers a device with this key. */
  predicate Registers(e: Event, k: Key) {
    e.Datagram? && e.ttl >= 1 && e.msg.RegisterSuper? && KeyOf(e.msg.edgeMac) == k
  }

  /** The entry says what the registration said. */
  predicate Reports(p: Peer, e: Event, now: int)
    requires e.Datagram? && e.msg.RegisterSuper?
  {
    && p.community == e.community && p.timeout == e.msg.timeout && p.lastSeen == now
    && SockEqual(p.sock, e.sender)
    && ReportsSockets(p.sockets, e)
  }

  predicate ReportsSockets(socks: seq<Sock>, e: Event)
    requires e.Datagram? && e.msg.RegisterSuper?
  {
    && |socks| == |Sockets(e.sender, e.msg.localSock)|
    && forall i :: 0 <= i < |socks| ==> SockEqual(socks[i], Sockets(e.sender, e.msg.localSock)[i])
  }

  /** The time of the last purge in a history: a purge takes place when 60 seconds have passed since the one
      before, or since time zero. */
  function LastPurge(es: seq<Occurrence>): int {
    if es == [] then 0
    else
      var before, last := LastPurge(es[..|es| - 1]), es[|es| - 1];
      if last.event.Timer? && last.now - before >= 60 then last.now else before
  }

  lemma {:induction false} LastPurgeIsKept(es: seq<Occurrence>)
    ensures Run(es).lastPurge == LastPurge(es)
    decreases |es|
  {
    hide KeyOf;
    if es != [] { LastPurgeIsKept(es[..|es| - 1]); }
  }

  /** Event j is a purge that takes place, and it removes what was last seen at time t. */
  predicate Removes(es: seq<Occurrence>, j: nat, t: int)
    requires j < |es|
  {
    es[j].event.Timer? && es[j].now - LastPurge(es[..j]) >= 60 && es[j].now - t > 120
  }

  /** Event i is the latest registration of k, and no purge has removed it since. */
  ghost predicate Alive(es: seq<Occurrence>, i: nat, k: Key) {
    && i < |es| && Registers(es[i].event, k)
    && forall j :: i < j < |es| ==> !Registers(es[j].event, k) && !Removes(es, j, es[i].now)
  }

  /** The table has an entry for k exactly when a registration of k is alive, and it says what that
      registration said. */
  ghost predicate Faithful(es: seq<Occurrence>, edges: PeerMap, k: Key) {
    && (k in edges ==> exists i: nat :: Alive(es, i, k) && Reports(edges[k], es[i].event, es[i].now))
    && (k !in edges ==> forall i: nat :: !Alive(es, i, k))
  }

  lemma RegistrationIsReported(s: State, e: Event, now: int, k: Key)
    requires GoodEdges(s.edges) && Registers(e, k)
    ensures k in Step(s, e, now).edges && Reports(Step(s, e, now).edges[k], e, now)
  {
    hide KeyOf;
  }

  lemma OthersAreKept(s: State, e: Event, now: int, k: Key)
    requires GoodEdges(s.edges) && !Registers(e, k)
    ensures var edges := Step(s, e, now).edges;
            var gone := k in s.edges && e.Timer? && now - s.lastPurge >= PURGE_REGISTRATION_FREQUENCY
                        && s.edges[k].lastSeen < now - REGISTRATION_TIMEOUT;
            k in edges <==> k in s.edges && !gone
    ensures k in Step(s, e, now).edges ==> Step(s, e, now).edges[k] == s.edges[k]
  {
    hide KeyOf, Renewed, NewEdge;
  }

  lemma AlivePrefix(before: seq<Occurrence>, last: Occurrence, i: nat, k: Key)
    requires i < |before|
    ensures Alive(before + [last], i, k)
       <==> Alive(before, i, k) && !Registers(last.event, k) && !Removes(before + [last], |before|, before[i].now)
  {
    hide Registers, Run;
    var es := before + [last];
    forall j | i < j < |before|
      ensures es[j] == before[j] && (Removes(es, j, before[i].now) <==> Removes(before, j, before[i].now))
    {
      assert es[..j] == before[..j];
    }
    assert es[i] == before[i] && es[|before|] == last;
    if Alive(es, i, k) {
      assert forall j :: i < j < |before| ==> !Registers(es[j].event, k) && !Removes(es, j, es[i].now);
    }
  }

  /** At most one registration of a key is alive. */
  lemma OneIsAlive(es: seq<Occurrence>, i: nat, j: nat, k: Key)
    requires Alive(es, i, k) && Alive(es, j, k)
    ensures i == j
  {
  }

  /** The table of every reachable state. */
  lemma {:induction false} TableIsFaithful(es: seq<Occurrence>, k: Key)
    ensures Faithful(es, Run(es).edges, k)
    decreases |es|
  {
    hide Registers, Alive, Reports;
    if es == [] {
      NothingAlive(es, k);
    } else {
      var before, last := es[..|es| - 1], es[|es| - 1];
      assert es == before + [last];
      TableIsFaithful(before, k);
      FaithfulStep(before, last, k);
    }
  }

  lemma NothingAlive(es: seq<Occurrence>, k: Key)
    requires es == []
    ensures forall i: nat :: !Alive(es, i, k)
  {
  }

  lemma FaithfulStep(before: seq<Occurrence>, last: Occurrence, k: Key)
    requires Faithful(before, Run(before).edges, k)
    ensures Faithful(before + [last], Step(Run(before), last.event, last.now).edges, k)
  {
    hide Step, KeyOf, LastPurge;
    var es := before + [last];
    var s := Run(before);
    LastPurgeIsKept(before);
    var s' := Step(s, last.event, last.now);
    forall i: nat | i < |before|
      ensures Alive(es, i, k)
         <==> Alive(before, i, k) && !Registers(last.event, k) && !Removes(es, |before|, before[i].now)
    {
      AlivePrefix(before, last, i, k);
    }
    assert es[..|before|] == before;
    if Registers(last.event, k) {
      RegistrationIsReported(s, last.event, last.now, k);
      assert Alive(es, |before|, k);
    } else {
      OthersAreKept(s, last.event, last.now, k);
      assert !Alive(es, |before|, k);
      if k in s.edges {
        var i: nat :| Alive(before, i, k) && Reports(s.edges[k], before[i].event, before[i].now);
        assert Alive(es, i, k) <==> k in s'.edges;
        forall j: nat | Alive(es, j, k) ensures j == i { OneIsAlive(before, i, j, k); }
      }
    }
  }

  /** In every reachable state there is one entry for each key, with one or two sockets of which the first
      is the edge's own; the second is there exactly when the latest registration had a local socket; and
      the entry is there exactly when that registration has not been purged since. */
  lemma EntriesReportTheLatestRegistration(es: seq<Occurrence>, k: Key)
    ensures var edges := Run(es).edges;
            && (k in edges <==> exists i: nat :: Alive(es, i, k))
            && forall i: nat :: Alive(es, i, k) ==>
                 && Reports(edges[k], es[i].event, es[i].now)
                 && KeyOf(edges[k].mac) == k && edges[k].sockets[0] == edges[k].sock
                 && |edges[k].sockets| == (if es[i].event.msg.localSock.Some? then 2 else 1)
  {
    hide Run, KeyOf, Alive;
    TableIsFaithful(es, k);
    forall i: nat, j: nat | Alive(es, i, k) && Alive(es, j, k) ensures i == j { OneIsAlive(es, i, j, k); }
    AliveIsRegistration(es, k);
  }

  lemma AliveIsRegistration(es: seq<Occurrence>, k: Key)
    ensures forall i: nat :: Alive(es, i, k) ==> i < |es| && Registers(es[i].event, k)
  {
  }

  // ----- answers

  /** The registration of target's key that a query at position q is about. */
  ghost predicate Registration(es: seq<Occurrence>, q: nat, i: nat, target: Mac, community: Community)
    requires q <= |es|
  {
    Alive(es[..q], i, KeyOf(target)) && es[i].event.community == community
  }

  /** The reply answers event q, a query by an edge of the same community, and says what the registration
      said that was alive at that time, in that community. */
  ghost predicate Answers(es: seq<Occurrence>, q: nat, r: Reply) {
    && q < |es| && r.PeerInfoReply?
    && es[q].event.Datagram? && es[q].event.sender == r.to && es[q].event.community == r.community
    && es[q].event.msg.QueryPeer? && es[q].event.msg.targetMac == r.mac
    && exists i: nat :: Registration(es, q, i, r.mac, r.community)
         && r.timeout == es[i].event.msg.timeout && ReportsSockets(r.sockets, es[i].event)
  }

  /** A query is answered exactly when a registration for its target is alive in the asker's community, and
      then by what that registration said. */
  lemma QueryIsAnswered(es: seq<Occurrence>, e: Event, now: int)
    requires e.Datagram? && e.ttl >= 1 && e.msg.QueryPeer?
    ensures var es', before := es + [At(e, now)], Run(es).sent;
            var sent := Step(Run(es), e, now).sent;
            if exists i: nat :: Registration(es', |es|, i, e.msg.targetMac, e.community)
            then |sent| == |before| + 1 && sent[..|before|] == before && Answers(es', |es|, sent[|before|])
            else sent == before
  {
    hide Run, KeyOf, Alive, ReportsSockets;
    var k := KeyOf(e.msg.targetMac);
    var es' := es + [At(e, now)];
    var edges := Run(es).edges;
    assert es'[..|es|] == es;
    TableIsFaithful(es, k);
    AliveIsRegistration(es, k);
    forall i: nat, j: nat | Alive(es, i, k) && Alive(es, j, k) ensures i == j { OneIsAlive(es, i, j, k); }
    if k in edges {
      var i: nat :| Alive(es, i, k) && Reports(edges[k], es[i].event, es[i].now);
      assert es'[i] == es[i];
      assert edges[k].community == e.community <==> Registration(es', |es|, i, e.msg.targetMac, e.community);
    }
  }

  lemma NothingElseAnswers(s: State, e: Event, now: int)
    requires GoodEdges(s.edges) && !(e.Datagram? && e.ttl >= 1 && e.msg.QueryPeer?)
    ensures var sent := Step(s, e, now).sent;
            |s.sent| <= |sent| && sent[..|s.sent|] == s.sent
            && forall n :: |s.sent| <= n < |sent| ==> !sent[n].PeerInfoReply?
  {
    hide UpdateEdge, GoodEdges;
  }

  lemma AnswersPrefix(before: seq<Occurrence>, last: Occurrence, q: nat, r: Reply)
    requires Answers(before, q, r)
    ensures Answers(before + [last], q, r)
  {
    hide KeyOf, ReportsSockets, Removes;
    hide Run;
    var es := before + [last];
    var i: nat :| Registration(before, q, i, r.mac, r.community)
                  && r.timeout == before[i].event.msg.timeout && ReportsSockets(r.sockets, before[i].event);
    assert es[..q] == before[..q];
    assert Registration(es, q, i, r.mac, r.community);
  }

  /** Every PEER_INFO the supernode ever sends answers an earlier query with what the registration said that
      was the latest at that time. */
  lemma {:induction false} EveryReplyReportsTheLatestRegistration(es: seq<Occurrence>, n: nat)
    requires n < |Run(es).sent| && Run(es).sent[n].PeerInfoReply?
    ensures exists q: nat :: Answers(es, q, Run(es).sent[n])
    decreases |es|
  {
    hide Step, Answers;
    var before, last := es[..|es| - 1], es[|es| - 1];
    var s := Run(before);
    var r := Run(es).sent[n];
    assert es == before + [last];
    var e := last.event;
    if e.Datagram? && e.ttl >= 1 && e.msg.QueryPeer? {
      QueryIsAnswered(before, e, last.now);
    } else {
      NothingElseAnswers(s, e, last.now);
    }
    if n < |s.sent| {
      assert r == s.sent[n];
      EveryReplyReportsTheLatestRegistration(before, n);
      var q: nat :| Answers(before, q, r);
      AnswersPrefix(before, last, q, r);
    } else {
      assert Answers(es, |before|, r);
    }
  }

  // ----- forwarding

  /** A registration of k that is alive, and what its entry says. */
  lemma AliveEntry(es: seq<Occurrence>, i: nat, k: Key)
    requires Alive(es, i, k)
    ensures k in Run(es).edges && Reports(Run(es).edges[k], es[i].event, es[i].now)
  {
    hide Run, KeyOf;
    TableIsFaithful(es, k);
    var j: nat :| Alive(es, j, k) && Reports(Run(es).edges[k], es[j].event, es[j].now);
    OneIsAlive(es, i, j, k);
  }

  /** A unicast message is forwarded if and only if a registration of the destination's key is alive, from an
      IPv4 socket, and then to that socket and nobody else; the community plays no part, and for an unknown
      destination the message is dropped. */
  lemma UnicastGoesToTheLatestRegistration(es: seq<Occurrence>, e: Event, now: int)
    requires e.Datagram? && e.ttl >= 1 && (e.msg.Packet? || e.msg.Register?) && !IsMultiBroadcast(e.msg.dstMac)
    ensures var k, before, sent := KeyOf(e.msg.dstMac), Run(es).sent, Step(Run(es), e, now).sent;
            if exists i: nat :: Alive(es, i, k) && es[i].event.sender.family == AF_INET
            then exists i: nat, to: Sock :: Alive(es, i, k) && SockEqual(to, es[i].event.sender)
                   && sent == before + [Forwarded(to)]
            else sent == before
  {
    hide Run, KeyOf, Alive, IsMultiBroadcast;
    var k, edges := KeyOf(e.msg.dstMac), Run(es).edges;
    AliveIsRegistration(es, k);
    TableIsFaithful(es, k);
    if k in edges {
      var i: nat :| Alive(es, i, k) && Reports(edges[k], es[i].event, es[i].now);
      forall j: nat | Alive(es, j, k) ensures i == j { OneIsAlive(es, i, j, k); }
      assert SockEqual(edges[k].sock, es[i].event.sender);
    }
  }

  /** An edge of one community is registered.  A message from another community is forwarded to it; a message
      from its own community for an address that is not registered is not broadcast, but dropped. */
  lemma UnicastCrossesAndDrops(
    home: Community, other: Community, edge: Mac, unknown: Mac, srcMac: Mac, sender: Sock, sock: IPv4Sock)
    requires home != other && KeyOf(edge) != KeyOf(unknown)
    requires !IsMultiBroadcast(edge) && !IsMultiBroadcast(unknown)
    ensures var s := Run([Registering(sock, home, edge)]);
            && Step(s, Datagram(sender, other, 1, Packet(srcMac, edge)), 0).sent == s.sent + [Forwarded(sock)]
            && Step(s, Datagram(sender, home, 1, Packet(srcMac, unknown)), 0).sent == s.sent
  {
    hide KeyOf, IsMultiBroadcast;
    var r := Registering(sock, home, edge);
    assert [r][..0] == [];
    assert Run([r]) == Step(INITIAL, r.event, 0);
  }

  /** A registration of k in this community that is alive and can be sent to. */
  ghost predicate Reachable(es: seq<Occurrence>, i: nat, k: Key, community: Community) {
    Alive(es, i, k) && es[i].event.community == community && es[i].event.sender.family == AF_INET
  }

  /** The socket is that of such a registration. */
  ghost predicate ReachedAt(es: seq<Occurrence>, k: Key, community: Community, sock: Sock) {
    exists i: nat :: Reachable(es, i, k, community) && SockEqual(sock, es[i].event.sender)
  }

  /** A broadcast frame goes, once each, to edges whose alive registration is in the sender's community, at
      the socket of that registration. */
  lemma BroadcastStaysInTheCommunity(es: seq<Occurrence>, e: Event, now: int)
    requires e.Datagram? && e.ttl >= 1 && e.msg.Packet? && IsMultiBroadcast(e.msg.dstMac)
    ensures var to := Targets(Run(es).edges, e.community, e.msg.srcMac);
            && Step(Run(es), e, now).sent == Run(es).sent + [Broadcast(to)]
            && forall k :: k in to ==> ReachedAt(es, k, e.community, to[k])
  {
    hide Run, KeyOf, Alive, IsMultiBroadcast;
    var edges := Run(es).edges;
    var to := Targets(edges, e.community, e.msg.srcMac);
    forall k | k in to ensures ReachedAt(es, k, e.community, to[k]) {
      TableIsFaithful(es, k);
      AliveIsRegistration(es, k);
      var i: nat :| Alive(es, i, k) && Reports(edges[k], es[i].event, es[i].now);
      assert Reachable(es, i, k, e.community);
    }
  }

  /** No such edge is left out, unless it has the sender's key. */
  lemma BroadcastReachesTheCommunity(es: seq<Occurrence>, community: Community, srcMac: Mac, i: nat, k: Key)
    requires Reachable(es, i, k, community)
    ensures k != KeyOf(srcMac) ==> k in Targets(Run(es).edges, community, srcMac)
  {
    hide Run, KeyOf, Alive;
    AliveIsRegistration(es, k);
    AliveEntry(es, i, k);
    assert KeyOf(Run(es).edges[k].mac) == k;
  }

  /** A registration without a local socket, at time zero. */
  function Registering(sock: Sock, community: Community, mac: Mac): Occurrence {
    At(Datagram(sock, community, 1, RegisterSuper(0, mac, 0, None)), 0)
  }

  /** Two devices that share a key register one after the other: the entry keeps the address of the first, so
      the second is sent its own broadcasts. */
  lemma SenderHearsItself(community: Community, first: Mac, srcMac: Mac, sock: IPv4Sock)
    requires first != srcMac && KeyOf(first) == KeyOf(srcMac)
    ensures var es := [Registering(sock, community, first), Registering(sock, community, srcMac)];
            var to := Targets(Run(es).edges, community, srcMac);
            KeyOf(srcMac) in to && to[KeyOf(srcMac)] == sock
  {
    hide KeyOf, SockEqual;
    var r0, r1 := Registering(sock, community, first), Registering(sock, community, srcMac);
    assert [r0, r1][..1] == [r0] && [r0][..0] == [];
    assert Run([r0]) == Step(INITIAL, r0.event, 0);
    assert Run([r0, r1]) == Step(Run([r0]), r1.event, 0);
    SockEqualIsEquivalence(sock, sock, sock);
  }

  /** The sender of a broadcast is left out in every run if and only if none of the first five bytes of its
      address is zero. */
  lemma SenderIsLeftOut(community: Community, srcMac: Mac)
    ensures (forall es :: KeyOf(srcMac) !in Targets(Run(es).edges, community, srcMac)) <==> Unambiguous(srcMac)
  {
    hide Run, KeyOf, Unambiguous;
    KeyDecides(srcMac);
    if Unambiguous(srcMac) {
      forall es ensures KeyOf(srcMac) !in Targets(Run(es).edges, community, srcMac) {
        assert GoodEdges(Run(es).edges);
      }
    } else {
      var first: Mac :| KeyOf(first) == KeyOf(srcMac) && first != srcMac;
      var sock: IPv4Sock := Sock(AF_INET, 0, seq(16, _ => 0));
      SenderHearsItself(community, first, srcMac, sock);
    }
  }

  // ----- from one edge to another through the supernode

  /** The PEER_INFO as the asking edge reads it. */
  function Delivered(r: Reply): Edge.Message
    requires r.PeerInfoReply? && 1 <= |r.sockets| <= 2
  {
    Edge.PeerInfoMsg(|r.sockets| > 1, r.timeout, r.mac, r.sockets[0], r.sockets[|r.sockets| - 1])
  }

  /** An edge that waits for a peer and gets the supernode's answer ends up with the sockets and the timeout
      of the registration that was alive when the supernode was asked, and sends a REGISTER to each of
      these sockets. */
  lemma EdgeLearnsTheRegistration(
    es: seq<Occurrence>, q: nat, r: Reply, c: Edge.Config, s: Edge.State, from: Sock, now: int)
    requires Answers(es, q, r) && r.community == c.community && KeyOf(r.mac) in s.pending
    ensures 1 <= |r.sockets| <= 2
    ensures var s' := Edge.Receive(c, s, from, r.community, Delivered(r), now);
            && s'.known == s.known && s'.pending.Keys == s.pending.Keys
            && s'.sent == s.sent + Edge.Registers(r.sockets, s.pending[KeyOf(r.mac)].mac)
            && exists i: nat :: Registration(es, q, i, r.mac, r.community)
                 && s'.pending[KeyOf(r.mac)].timeout == es[i].event.msg.timeout
                 && ReportsSockets(s'.pending[KeyOf(r.mac)].sockets, es[i].event)
  {
    hide KeyOf, SockEqual, Edge.Registers;
    var i: nat :| Registration(es, q, i, r.mac, r.community)
                  && r.timeout == es[i].event.msg.timeout && ReportsSockets(r.sockets, es[i].event);
    var socks := if |r.sockets| > 1 then [r.sockets[0], r.sockets[|r.sockets| - 1]] else [r.sockets[0]];
    assert socks == r.sockets;
  }
}
