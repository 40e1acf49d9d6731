/** Group addresses and acknowledgements at the supernode, in terms of the messages alone. */
module SupernodeLaws {
  import opened PeerTable
  import opened SupernodeProtocol

  // ----- group addresses

  const ALL_DEVICES: Mac := [0xff, 0xff, 0xff, 0xff, 0xff, 0xff]

  /** The address of a group of IPv4, and of IPv6. */
  function GroupV4(x: octet, y: octet, z: octet): Mac { [0x01, 0x00, 0x5e, x, y, z] }

  function GroupV6(w: octet, x: octet, y: octet, z: octet): Mac { [0x33, 0x33, w, x, y, z] }

  ghost predicate IsGroup(mac: Mac) {
    || mac == ALL_DEVICES
    || (exists x: octet, y: octet, z: octet :: mac == GroupV4(x, y, z))
    || (exists w: octet, x: octet, y: octet, z: octet :: mac == GroupV6(w, x, y, z))
  }

  /** The supernode takes exactly these addresses for group addresses. */
  lemma GroupsAreRecognised(mac: Mac)
    ensures IsMultiBroadcast(mac) <==> IsGroup(mac)
  {
    if mac[..3] == [0x01, 0x00, 0x5e] {
      assert mac[..3][0] == mac[0] && mac[..3][1] == mac[1] && mac[..3][2] == mac[2];
      assert mac == GroupV4(mac[3], mac[4], mac[5]);
    }
    if mac[..2] == [0x33, 0x33] {
      assert mac[..2][0] == mac[0] && mac[..2][1] == mac[1];
      assert mac == GroupV6(mac[2], mac[3], mac[4], mac[5]);
    }
    assert forall x: octet, y: octet, z: octet :: GroupV4(x, y, z)[..3] == [0x01, 0x00, 0x5e];
    assert forall w: octet, x: octet, y: octet, z: octet :: GroupV6(w, x, y, z)[..2] == [0x33, 0x33];
  }

  /** The message is sent, once each, to every reachable edge of the community with another key than the
      sender's, and to no edge of another community. */
  ghost predicate ReachesCommunity(es: seq<Occurrence>, community: Community, srcMac: Mac, to: map<Key, Sock>) {
    && (forall i: nat, k :: Reachable(es, i, k, community) && k != KeyOf(srcMac) ==> k in to)
    && (forall k :: k in to ==> ReachedAt(es, k, community, to[k]))
  }

  /** A packet for all devices, for any IPv4 group or for any IPv6 group reaches the sender's community. */
  lemma GroupPacketsReachTheCommunity(
    es: seq<Occurrence>, sender: Sock, community: Community, ttl: nat, srcMac: Mac, group: Mac, now: int)
    requires 1 <= ttl && IsGroup(group)
    ensures exists to :: ReachesCommunity(es, community, srcMac, to)
              && Step(Run(es), Datagram(sender, community, ttl, Packet(srcMac, group)), now).sent
              == Run(es).sent + [Broadcast(to)]
  {
    hide Run, Step, KeyOf, Targets, IsMultiBroadcast, Reachable, ReachedAt, IsGroup;
    var e := Datagram(sender, community, ttl, Packet(srcMac, group));
    var to := Targets(Run(es).edges, community, srcMac);
    GroupsAreRecognised(group);
    BroadcastStaysInTheCommunity(es, e, now);
    forall i: nat, k | Reachable(es, i, k, community) && k != KeyOf(srcMac) ensures k in to {
      BroadcastReachesTheCommunity(es, community, srcMac, i, k);
    }
    assert ReachesCommunity(es, community, srcMac, to);
  }

  /** These are group addresses, for all values of the bytes that name the group. */
  lemma GroupAddresses(w: octet, x: octet, y: octet, z: octet)
    ensures IsGroup([0xff, 0xff, 0xff, 0xff, 0xff, 0xff])
    ensures IsGroup([0x01, 0x00, 0x5e, x, y, z]) && IsGroup([0x33, 0x33, w, x, y, z])
  {
    assert GroupV4(x, y, z) == [0x01, 0x00, 0x5e, x, y, z];
    assert GroupV6(w, x, y, z) == [0x33, 0x33, w, x, y, z];
  }

  /** A packet for any other address is never broadcast: it is forwarded to one edge or dropped. */
  lemma OtherPacketsAreNotBroadcast(s: State, e: Event, now: int)
    requires GoodEdges(s.edges) && e.Datagram? && e.msg.Packet? && !IsGroup(e.msg.dstMac)
    ensures var sent := Step(s, e, now).sent;
            sent == s.sent || (|sent| == |s.sent| + 1 && sent[..|s.sent|] == s.sent && sent[|s.sent|].Forwarded?)
  {
    hide KeyOf, GoodEdges, IsMultiBroadcast, IsGroup;
    GroupsAreRecognised(e.msg.dstMac);
    assert s.sent + [] == s.sent;
  }

  /** A REGISTER for a group sends nothing. */
  lemma GroupRegistersAreDropped(s: State, e: Event, now: int)
    requires GoodEdges(s.edges) && e.Datagram? && e.msg.Register? && IsGroup(e.msg.dstMac)
    ensures Step(s, e, now) == s
  {
    hide KeyOf, GoodEdges, IsMultiBroadcast, IsGroup;
    GroupsAreRecognised(e.msg.dstMac);
    assert s.sent + [] == s.sent;
  }

  /** A message whose time to live has run out has no effect. */
  lemma ExpiredMessagesAreDropped(s: State, e: Event, now: int)
    requires GoodEdges(s.edges) && e.Datagram? && e.ttl == 0
    ensures Step(s, e, now) == s
  {
    hide GoodEdges;
  }

  // ----- acknowledgements

  /** The acknowledgements among the replies, in order. */
  function Acks(sent: seq<Reply>): seq<Reply> {
    if sent == [] then []
    else
      var last := sent[|sent| - 1];
      Acks(sent[..|sent| - 1]) + if last.RegisterSuperAck? then [last] else []
  }

  /** What is owed for the registrations received: an acknowledgement to the sender, in its community, with its
      cookie and address, for a lifetime of 30. */
  function Owed(es: seq<Occurrence>): seq<Reply> {
    if es == [] then []
    else
      var e := es[|es| - 1].event;
      Owed(es[..|es| - 1])
      + if e.Datagram? && e.ttl >= 1 && e.msg.RegisterSuper?
        then [RegisterSuperAck(e.sender, e.community, e.msg.cookie, e.msg.edgeMac, 30)] else []
  }

  lemma AckAppended(sent: seq<Reply>, r: Reply)
    ensures Acks(sent + [r]) == Acks(sent) + if r.RegisterSuperAck? then [r] else []
  {
    assert (sent + [r])[..|sent|] == sent;
  }

  lemma AcksOfStep(s: State, e: Event, now: int)
    requires GoodEdges(s.edges)
    ensures Acks(Step(s, e, now).sent)
         == Acks(s.sent)
            + if e.Datagram? && e.ttl >= 1 && e.msg.RegisterSuper?
              then [RegisterSuperAck(e.sender, e.community, e.msg.cookie, e.msg.edgeMac, 30)] else []
  {
    hide Acks, KeyOf, GoodEdges, UpdateEdge, IsMultiBroadcast, Targets;
    var sent := Step(s, e, now).sent;
    assert s.sent + [] == s.sent;
    if sent != s.sent {
      var r := sent[|s.sent|];
      assert sent == s.sent + [r];
      AckAppended(s.sent, r);
    }
  }

  /** Over whole runs the acknowledgements sent are exactly those owed, in order. */
  lemma {:induction false} EveryRegistrationIsAcknowledged(es: seq<Occurrence>)
    ensures Acks(Run(es).sent) == Owed(es)
    decreases |es|
  {
    hide Step;
    if es != [] {
      EveryRegistrationIsAcknowledged(es[..|es| - 1]);
      AcksOfStep(Run(es[..|es| - 1]), es[|es| - 1].event, es[|es| - 1].now);
    }
  }

  // ----- sockets that are kept

  /** What is stored for a socket that was received: the old one if it is equal, and otherwise the new one. */
  function Stored(old': Sock, new': Sock): Sock {
    if SockEqual(new', old') then old' else new'
  }

  /** A renewed registration keeps the address the entry was made with; its sockets are replaced only where the
      new ones are not equal to them. */
  lemma EqualSocketsAreKept(s: State, e: Event, now: int)
    requires GoodEdges(s.edges) && e.Datagram? && e.ttl >= 1 && e.msg.RegisterSuper?
    requires KeyOf(e.msg.edgeMac) in s.edges
    ensures var k := KeyOf(e.msg.edgeMac);
            var p, p' := s.edges[k], Step(s, e, now).edges[k];
            && p'.mac == p.mac && p'.sock == Stored(p.sock, e.sender)
            && p'.sockets == match e.msg.localSock
                 case None => [p'.sock]
                 case Some(x) => [p'.sock, if |p.sockets| == 2 then Stored(p.sockets[1], x) else x]
  {
    hide KeyOf, SockEqual;
  }

  /** A first registration is stored as it came. */
  lemma FirstRegistrationIsStored(s: State, e: Event, now: int)
    requires GoodEdges(s.edges) && e.Datagram? && e.ttl >= 1 && e.msg.RegisterSuper?
    requires KeyOf(e.msg.edgeMac) !in s.edges
    ensures var p := Step(s, e, now).edges[KeyOf(e.msg.edgeMac)];
            && p.mac == e.msg.edgeMac && p.sock == e.sender
            && p.sockets == match e.msg.localSock case None => [e.sender] case Some(x) => [e.sender, x]
  {
    hide KeyOf, SockEqual;
  }
}
