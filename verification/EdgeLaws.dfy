/** What single events do to an edge, in terms of the messages and times alone, and the handshake of two edges. */
module EdgeLaws {
  import opened PeerTable
  import opened EdgeProtocol

  // ----- REGISTER and its acknowledgement

  /** A REGISTER in the edge's community changes no table.  The last datagram sent for it is an acknowledgement to
      its sender; one REGISTER without a destination goes before if and only if the message is addressed to this
      edge and its sender is pending. */
  lemma RegisterIsAcknowledged(c: Config, s: State, sender: Sock, srcMac: Mac, dstMac: Mac, now: int)
    ensures var s' := Receive(c, s, sender, c.community, RegisterMsg(srcMac, dstMac), now);
            && s'.known == s.known && s'.pending == s.pending
            && s'.sent == s.sent
               + (if dstMac == c.mac && KeyOf(srcMac) in s.pending then [RegisterBlank(sender)] else [])
               + [RegisterAck(sender, srcMac)]
  {
    hide KeyOf;
  }

  /** Messages of another community have no effect. */
  lemma OtherCommunitiesAreIgnored(c: Config, s: State, sender: Sock, community: Community, m: Message, now: int)
    requires community != c.community
    ensures Receive(c, s, sender, community, m, now) == s
  {
  }

  /** The acknowledgements among the datagrams sent, in order. */
  function Acks(sent: seq<Send>): seq<(Sock, Mac)> {
    if sent == [] then []
    else
      var last := sent[|sent| - 1];
      Acks(sent[..|sent| - 1]) + if last.RegisterAck? then [(last.to, last.peer)] else []
  }

  predicate IsRegister(c: Config, e: Event) {
    e.Datagram? && e.community == c.community && e.msg.RegisterMsg?
  }

  /** The senders of the REGISTERs in the edge's community, in order. */
  function Registrants(c: Config, es: seq<Occurrence>): seq<(Sock, Mac)> {
    if es == [] then []
    else
      var e := es[|es| - 1].event;
      Registrants(c, es[..|es| - 1]) + if IsRegister(c, e) then [(e.sender, e.msg.srcMac)] else []
  }

  lemma {:induction false} AcksAppend(a: seq<Send>, b: seq<Send>)
    ensures Acks(a + b) == Acks(a) + Acks(b)
    decreases |b|
  {
    if b == [] {
      assert a + b == a;
    } else {
      assert (a + b)[..|a + b| - 1] == a + b[..|b| - 1];
      AcksAppend(a, b[..|b| - 1]);
    }
  }

  lemma {:induction false} RegistersAreNoAcks(socks: seq<Sock>, mac: Mac)
    ensures Acks(Registers(socks, mac)) == []
    decreases |socks|
  {
    if socks != [] {
      var rest := Registers(socks[..|socks| - 1], mac);
      RegistersAreNoAcks(socks[..|socks| - 1], mac);
      AcksAppend(rest, [Register(socks[|socks| - 1], mac)]);
      OneAck(Register(socks[|socks| - 1], mac));
    }
  }

  lemma OneAck(s: Send)
    ensures Acks([s]) == if s.RegisterAck? then [(s.to, s.peer)] else []
  {
    assert [s][..0] == [];
  }

  /** What an event sends: only a REGISTER is acknowledged. */
  lemma AcksOfStep(c: Config, s: State, e: Event, now: int)
    ensures Acks(Step(c, s, e, now).sent) == Acks(s.sent) + if IsRegister(c, e) then [(e.sender, e.msg.srcMac)] else []
  {
    hide Acks, KeyOf;
    match e
    case Datagram(sender, community, msg) => AcksOfReceive(c, s, sender, community, msg, now);
    case TapRead(destMac, leftover) => AcksOfFind(s, destMac, leftover, now);
    case _ =>
  }

  lemma EstablishAcks(s: State, mac: Mac, now: int)
    ensures Acks(Establish(s, mac, now).sent) == Acks(s.sent)
  {
    hide Acks, KeyOf;
    AcksAppend(s.sent, [QueryPeer(s.supernode, mac)]);
    OneAck(QueryPeer(s.supernode, mac));
  }

  lemma RetryAcks(s: State, k: Key, now: int)
    ensures Acks(RetryPending(s, k, now).sent) == Acks(s.sent)
  {
    hide Acks, KeyOf, Registers;
    if k in s.pending {
      var p := s.pending[k];
      AcksAppend(s.sent, [QueryPeer(s.supernode, p.mac)]);
      OneAck(QueryPeer(s.supernode, p.mac));
      AcksAppend(s.sent, Registers(p.sockets, p.mac));
      RegistersAreNoAcks(p.sockets, p.mac);
    }
  }

  lemma AcksOfFind(s: State, mac: Mac, leftover: Sock, now: int)
    ensures Acks(FindDestination(s, mac, leftover, now).0.sent) == Acks(s.sent)
  {
    hide Acks, KeyOf, Establish, RetryPending;
    var k := KeyOf(mac);
    RetryAcks(s, k, now);
    if k in s.known {
      var t := s.(known := s.known - {k});
      EstablishAcks(t, s.known[k].mac, now);
      RetryAcks(Establish(t, s.known[k].mac, now), k, now);
    }
  }

  lemma CheckAcks(s: State, fromSupernode: bool, mac: Mac, peer: Sock, now: int)
    ensures Acks(CheckPeer(s, fromSupernode, mac, peer, now).sent) == Acks(s.sent)
  {
    hide Acks, KeyOf, Establish, EmptyAddress, SockEqual;
    var k := KeyOf(mac);
    EstablishAcks(s, mac, now);
    if k in s.known {
      EstablishAcks(s.(known := s.known - {k}), mac, now);
      AcksAppend(s.sent, [Register(s.known[k].sock, s.known[k].mac)]);
      OneAck(Register(s.known[k].sock, s.known[k].mac));
    }
  }

  lemma AcksOfReceive(c: Config, s: State, sender: Sock, community: Community, m: Message, now: int)
    ensures Acks(Receive(c, s, sender, community, m, now).sent)
         == Acks(s.sent)
            + if community == c.community && m.RegisterMsg? then [(sender, m.srcMac)] else []
  {
    hide Acks, KeyOf, CheckPeer, Registers;
    match m
    case Packet(fromSupernode, srcMac) => CheckAcks(s, fromSupernode, srcMac, sender, now);
    case PeerInfoMsg(hasLocal, _, mac, s0, s1) =>
      if KeyOf(mac) in s.pending {
        var socks := if hasLocal then [s0, s1] else [s0];
        AcksAppend(s.sent, Registers(socks, s.pending[KeyOf(mac)].mac));
        RegistersAreNoAcks(socks, s.pending[KeyOf(mac)].mac);
      }
    case RegisterMsg(srcMac, _) =>
      AcksAppend(s.sent + [RegisterBlank(sender)], [RegisterAck(sender, srcMac)]);
      AcksAppend(s.sent, [RegisterBlank(sender)]);
      AcksAppend(s.sent + [], [RegisterAck(sender, srcMac)]);
      assert s.sent + [] == s.sent;
      OneAck(RegisterBlank(sender));
      OneAck(RegisterAck(sender, srcMac));
    case _ =>
  }

  /** Over whole runs the acknowledgements answer exactly the REGISTERs received in the edge's community, one
      each, in order, to the socket and for the address each of them came from. */
  lemma {:induction false} EveryRegisterIsAcknowledged(c: Config, supernode: IPv4Sock, es: seq<Occurrence>)
    ensures Acks(Run(c, Initial(supernode), es).sent) == Registrants(c, es)
    decreases |es|
  {
    hide Step;
    if es != [] {
      var last := es[|es| - 1];
      EveryRegisterIsAcknowledged(c, supernode, es[..|es| - 1]);
      AcksOfStep(c, Run(c, Initial(supernode), es[..|es| - 1]), last.event, last.now);
    }
  }

  // ----- the handshake of two edges

  /** A REGISTER as the edge at its destination reads it, and an acknowledgement likewise. */
  function AsRegister(from: Config, to: Mac): Message { RegisterMsg(from.mac, to) }

  function AsAck(from: Config): Message { RegisterAckMsg(from.mac) }

  /** Edge a waits for edge b of its community.  Its REGISTER, received by b from a's socket, is acknowledged to
      that socket for a's address; when a receives the acknowledgement from b's socket, b is a known peer of a at
      this socket, and no longer pending. */
  lemma HandshakeMakesKnown(
    a: Config, sa: State, aSock: Sock, b: Config, sb: State, bSock: Sock, now: int, later: int)
    requires a.community == b.community && Consistent(sa) && KeyOf(b.mac) in sa.pending
    ensures var sb' := Receive(b, sb, aSock, a.community, AsRegister(a, b.mac), now);
            |sb'.sent| > 0 && sb'.sent[|sb'.sent| - 1] == RegisterAck(aSock, a.mac)
    ensures var k, sa' := KeyOf(b.mac), Receive(a, sa, bSock, b.community, AsAck(b), later);
            && k in sa'.known && sa'.known[k].sock == bSock && sa'.known[k].lastSeen == later
            && sa'.known[k].sockets == sa.pending[k].sockets && sa'.known[k].timeout == sa.pending[k].timeout
            && k !in sa'.pending
  {
    hide KeyOf;
  }

  /** If b waits for a as well, b sends a REGISTER of its own back at once, so that a acknowledges it and both
      know each other. */
  lemma HandshakeIsMutual(
    a: Config, sa: State, aSock: Sock, b: Config, sb: State, bSock: Sock, now: int, later: int)
    requires a.community == b.community && KeyOf(a.mac) in sb.pending
    ensures var sb' := Receive(b, sb, aSock, a.community, AsRegister(a, b.mac), now);
            RegisterBlank(aSock) in sb'.sent
    ensures forall to: Mac ::
              var sa' := Receive(a, sa, bSock, b.community, AsRegister(b, to), now);
              |sa'.sent| > 0 && sa'.sent[|sa'.sent| - 1] == RegisterAck(bSock, b.mac)
    ensures var sb' := Receive(b, sb, aSock, a.community, AsAck(a), later);
            KeyOf(a.mac) in sb'.known && sb'.known[KeyOf(a.mac)].sock == aSock
  {
    hide KeyOf;
    var sb' := Receive(b, sb, aSock, a.community, AsRegister(a, b.mac), now);
    assert sb'.sent[|sb.sent|] == RegisterBlank(aSock);
  }

  // ----- frames

  /** A frame goes directly if and only if the peer is known, was seen at a positive time, and not longer ago than
      its timeout, nor in the future. */
  lemma FramesGoDirectlyIff(s: State, mac: Mac, leftover: Sock, now: int)
    ensures var k, d := KeyOf(mac), FindDestination(s, mac, leftover, now).1;
            d.Direct? <==> k in s.known && s.known[k].lastSeen > 0
                           && 0 <= now - s.known[k].lastSeen <= s.known[k].timeout
  {
    hide KeyOf;
  }

  /** For a frame to a known peer that has timed out, the peer is forgotten and asked for anew. */
  lemma TimedOutPeersAreAskedFor(s: State, mac: Mac, leftover: Sock, now: int)
    requires Consistent(s) && KeyOf(mac) in s.known
    requires now - s.known[KeyOf(mac)].lastSeen < 0 || now - s.known[KeyOf(mac)].lastSeen > s.known[KeyOf(mac)].timeout
    ensures var k, s' := KeyOf(mac), FindDestination(s, mac, leftover, now).0;
            && s'.known == s.known - {k}
            && k in s'.pending && s'.pending[k].lastSeen == now && s'.pending[k].sockets == []
            && s'.sent == s.sent + [QueryPeer(s.supernode, s.known[k].mac)]
  {
    hide KeyOf;
  }

  /** For a frame to a pending peer, the supernode is asked again when it has not answered for more than five
      seconds; when it has answered, a REGISTER goes to each socket if none has gone for more than five
      seconds. */
  lemma PendingPeersAreRetried(s: State, mac: Mac, leftover: Sock, now: int)
    requires KeyOf(mac) in s.pending && KeyOf(mac) !in s.known
    ensures var k, s' := KeyOf(mac), FindDestination(s, mac, leftover, now).0;
            var p, p' := s.pending[k], s'.pending[k];
            if p.sockets == [] && now - p.lastSentQuery > 5
            then p' == p.(lastSentQuery := now) && s'.sent == s.sent + [QueryPeer(s.supernode, p.mac)]
            else if p.sockets != [] && now - p.lastSeen > 5
            then p' == p.(lastSeen := now) && s'.sent == s.sent + Registers(p.sockets, p.mac)
            else s' == s
  {
    hide KeyOf, Registers;
  }

  lemma {:induction false} RegistersEach(socks: seq<Sock>, mac: Mac, i: nat)
    requires i < |socks|
    ensures |Registers(socks, mac)| == |socks| && Registers(socks, mac)[i] == Register(socks[i], mac)
    decreases |socks|
  {
    if |socks| > 1 {
      RegistersEach(socks[..|socks| - 1], mac, if i < |socks| - 1 then i else 0);
    }
  }

  // ----- packets of known peers

  lemma EmptyAddresses(sock: Sock)
    ensures EmptyAddress(sock)
       <==> if sock.family == 10 then sock.addr == seq(16, _ => 0) else sock.addr[..4] == [0, 0, 0, 0]
  {
    if sock.family == 10 {
      if EmptyAddress(sock) { assert sock.addr == seq(16, _ => 0); }
    } else {
      assert sock.addr[..4] == [sock.addr[0], sock.addr[1], sock.addr[2], sock.addr[3]];
    }
  }

  /** A packet straight from a known peer at its known socket refreshes the time it was seen, and nothing
      else. */
  lemma DirectPacketsRefresh(c: Config, s: State, sender: Sock, srcMac: Mac, now: int)
    requires KeyOf(srcMac) in s.known && SockEqual(s.known[KeyOf(srcMac)].sock, sender)
    requires !EmptyAddress(sender) && srcMac != seq(6, _ => 0xff)
    ensures var k := KeyOf(srcMac);
            var s' := s.(known := s.known[k := s.known[k].(lastSeen := now)]);
            Receive(c, s, sender, c.community, Packet(false, srcMac), now) == s'
  {
    hide KeyOf, SockEqual, EmptyAddress;
    BroadcastAddress();
  }

  /** A relayed packet of a known peer changes nothing; when it came to the supernode from another socket, a
      REGISTER goes to the known one. */
  lemma RelayedPacketsAreAnswered(c: Config, s: State, sender: Sock, srcMac: Mac, now: int)
    requires KeyOf(srcMac) in s.known && !EmptyAddress(sender) && srcMac != seq(6, _ => 0xff)
    ensures var p := s.known[KeyOf(srcMac)];
            var register := if SockEqual(p.sock, sender) then [] else [Register(p.sock, p.mac)];
            Receive(c, s, sender, c.community, Packet(true, srcMac), now) == s.(sent := s.sent + register)
  {
    hide KeyOf, SockEqual, EmptyAddress;
    BroadcastAddress();
    assert s.sent + [] == s.sent;
  }

  /** A packet of a known peer from an empty address, or with the broadcast address, changes nothing. */
  lemma EmptyAndBroadcastAreIgnored(c: Config, s: State, fromSupernode: bool, sender: Sock, srcMac: Mac, now: int)
    requires KeyOf(srcMac) in s.known && (EmptyAddress(sender) || srcMac == seq(6, _ => 0xff))
    ensures Receive(c, s, sender, c.community, Packet(fromSupernode, srcMac), now) == s
  {
    hide KeyOf, SockEqual, EmptyAddress;
    BroadcastAddress();
  }

  /** A packet of an unknown device, direct or relayed, makes it a pending peer that the supernode is asked
      for. */
  lemma UnknownSendersBecomePending(
    c: Config, s: State, fromSupernode: bool, sender: Sock, srcMac: Mac, now: int)
    requires KeyOf(srcMac) !in s.known && KeyOf(srcMac) !in s.pending
    ensures var s' := Receive(c, s, sender, c.community, Packet(fromSupernode, srcMac), now);
            && s'.known == s.known
            && s'.pending == s.pending[KeyOf(srcMac) := Peer(srcMac, [], s.supernode, [], now, now, 0)]
            && s'.sent == s.sent + [QueryPeer(s.supernode, srcMac)]
  {
    hide KeyOf;
  }

  lemma BroadcastAddress()
    ensures BROADCAST_MAC == seq(6, _ => 0xff)
  {
  }

  // ----- the purge

  /** A purge takes place 60 seconds after the one before, and removes exactly the peers not seen for more than
      120 seconds. */
  lemma PurgeRemovesExactlyTheExpired(c: Config, s: State, now: int, k: Key)
    ensures var s', due := Step(c, s, Timer, now), now - s.lastPurge >= 60;
            && (k in s'.known <==> k in s.known && !(due && now - s.known[k].lastSeen > 120))
            && (k in s'.pending <==> k in s.pending && !(due && now - s.pending[k].lastSeen > 120))
            && (k in s'.known ==> s'.known[k] == s.known[k]) && (k in s'.pending ==> s'.pending[k] == s.pending[k])
            && s'.lastPurge == (if due then now else s.lastPurge) && s'.sent == s.sent
  {
  }

  // ----- what has no effect

  /** PEER_INFO and REGISTER_ACK for a device that is not pending change nothing. */
  lemma UnexpectedAnswersAreIgnored(c: Config, s: State, sender: Sock, m: Message, now: int)
    requires (m.PeerInfoMsg? && KeyOf(m.mac) !in s.pending) || (m.RegisterAckMsg? && KeyOf(m.srcMac) !in s.pending)
    ensures Receive(c, s, sender, c.community, m, now) == s
  {
    hide KeyOf;
  }

  /** PEER_INFO gives a pending peer its sockets and timeout, and a REGISTER is sent to each of them. */
  lemma PeerInfoIsTaken(c: Config, s: State, sender: Sock, m: Message, now: int)
    requires m.PeerInfoMsg? && KeyOf(m.mac) in s.pending
    ensures var k, s' := KeyOf(m.mac), Receive(c, s, sender, c.community, m, now);
            var socks := if m.hasLocal then [m.sockets0, m.sockets1] else [m.sockets0];
            && s'.pending == s.pending[k := s.pending[k].(timeout := m.timeout, sockets := socks)]
            && s'.known == s.known && s'.sent == s.sent + Registers(socks, s.pending[k].mac)
  {
    hide KeyOf, Registers;
  }

  /** A new supernode is used from then on. */
  lemma SupernodeIsReplaced(c: Config, s: State, sock: IPv4Sock, now: int)
    ensures Step(c, s, NewSupernode(sock), now) == State(sock, s.known, s.pending, s.lastPurge, s.sent)
  {
  }
}
