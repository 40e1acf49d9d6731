/** What the handlers of an edge do to its two peer tables, as functions, and what holds of every run. */
module EdgeProtocol {
  import opened PeerTable

  const RETRY_INTERVAL := 5
  const BROADCAST_MAC: Mac := [0xff, 0xff, 0xff, 0xff, 0xff, 0xff]

  /** Datagrams the edge sends. */
  datatype Send =
    | QueryPeer(supernode: Sock, target: Mac)
    | Register(to: Sock, peer: Mac)
    | RegisterBlank(to: Sock)                       // a REGISTER without destination address
    | RegisterAck(to: Sock, peer: Mac)

  datatype State = State(supernode: Sock, known: PeerMap, pending: PeerMap, lastPurge: int, sent: seq<Send>)

  /** Decoded messages; messages that touch no table are Other. */
  datatype Message =
    | Packet(fromSupernode: bool, srcMac: Mac)
    | PeerInfoMsg(hasLocal: bool, timeout: nat, mac: Mac, sockets0: Sock, sockets1: Sock)
    | RegisterMsg(srcMac: Mac, dstMac: Mac)
    | RegisterAckMsg(srcMac: Mac)
    | Other

  datatype Event =
    | Datagram(sender: Sock, community: Community, msg: Message)
    | TapRead(destMac: Mac, leftover: Sock)         // leftover: what the destination variable held before
    | Timer
    | NewSupernode(sock: IPv4Sock)                  // resolved by supernode2addr, for IPv4 only

  /** What does not change: the edge's community and device address. */
  datatype Config = Config(community: Community, mac: Mac)

  function NewPending(s: State, mac: Mac, now: int): Peer {
    Peer(mac, [], s.supernode, [], now, now, 0)
  }

  function Establish(s: State, mac: Mac, now: int): (s': State)
    ensures s'.supernode == s.supernode
  {
    if KeyOf(mac) in s.pending then s
    else s.(pending := s.pending[KeyOf(mac) := NewPending(s, mac, now)],
            sent := s.sent + [QueryPeer(s.supernode, mac)])
  }

  predicate EmptyAddress(sock: Sock) {
    var len := if sock.family == AF_INET6 then 16 else 4;
    forall i :: 0 <= i < len ==> sock.addr[i] == 0
  }

  function UpdateAddress(s: State, fromSupernode: bool, mac: Mac, peer: Sock, now: int): State {
    if EmptyAddress(peer) || mac == BROADCAST_MAC || KeyOf(mac) !in s.known then s
    else
      var k := KeyOf(mac);
      if !SockEqual(s.known[k].sock, peer) then
        if !fromSupernode then Establish(s.(known := s.known - {k}), mac, now)
        else s.(sent := s.sent + [Register(s.known[k].sock, s.known[k].mac)])
      else if !fromSupernode then s.(known := s.known[k := s.known[k].(lastSeen := now)])
      else s
  }

  function CheckPeer(s: State, fromSupernode: bool, mac: Mac, peer: Sock, now: int): State {
    if KeyOf(mac) !in s.known then Establish(s, mac, now) else UpdateAddress(s, fromSupernode, mac, peer, now)
  }

  function SetOperational(s: State, mac: Mac, sender: Sock, now: int): State {
    var k := KeyOf(mac);
    if k !in s.pending then s
    else s.(pending := s.pending - {k}, known := s.known[k := s.pending[k].(sock := sender, lastSeen := now)])
  }

  function Registers(socks: seq<Sock>, mac: Mac): seq<Send> {
    if socks == [] then [] else Registers(socks[..|socks| - 1], mac) + [Register(socks[|socks| - 1], mac)]
  }

  function ReceivePeerInfo(s: State, m: Message): State
    requires m.PeerInfoMsg?
  {
    var k := KeyOf(m.mac);
    if k !in s.pending then s
    else
      var socks := if m.hasLocal then [m.sockets0, m.sockets1] else [m.sockets0];
      s.(pending := s.pending[k := s.pending[k].(timeout := m.timeout, sockets := socks)],
         sent := s.sent + Registers(socks, s.pending[k].mac))
  }

  function ReceiveRegister(c: Config, s: State, m: Message, sender: Sock): State
    requires m.RegisterMsg?
  {
    var blank := if m.dstMac == c.mac && KeyOf(m.srcMac) in s.pending then [RegisterBlank(sender)] else [];
    s.(sent := s.sent + blank + [RegisterAck(sender, m.srcMac)])
  }

  function Receive(c: Config, s: State, sender: Sock, community: Community, m: Message, now: int): State {
    if community != c.community then s
    else match m
      case Packet(fromSupernode, srcMac) => CheckPeer(s, fromSupernode, srcMac, sender, now)
      case PeerInfoMsg(_, _, _, _, _) => ReceivePeerInfo(s, m)
      case RegisterMsg(_, _) => ReceiveRegister(c, s, m, sender)
      case RegisterAckMsg(srcMac) => SetOperational(s, srcMac, sender, now)
      case Other => s
  }

  /** The comparison of the age with the timeout is unsigned, so a time in the future counts as expired. */
  predicate TimedOut(p: Peer, now: int) {
    now - p.lastSeen < 0 || now - p.lastSeen > p.timeout
  }

  /** Where a frame goes: to the peer itself, or to the supernode. */
  datatype Destination = Direct(sock: Sock) | ViaSupernode(sock: Sock)

  /** The copy of the supernode's socket takes the size of a sockaddr_in, which holds family, port and twelve
      bytes of the address; the rest of the destination stays. */
  function PartialCopy(sock: Sock, leftover: Sock): Sock {
    Sock(sock.family, sock.port, sock.addr[..12] + leftover.addr[12..])
  }

  lemma PartialCopyReaches(sock: Sock, leftover: Sock)
    ensures SockEqual(PartialCopy(sock, leftover), sock)
       <==> sock.family == AF_INET || leftover.addr[12..] == sock.addr[12..]
  {
    var copy := PartialCopy(sock, leftover);
    assert copy.addr[..12] == sock.addr[..12] && copy.addr[12..] == leftover.addr[12..];
    assert copy.addr[..4] == copy.addr[..12][..4] && sock.addr[..4] == sock.addr[..12][..4];
    assert sock.addr == sock.addr[..12] + sock.addr[12..] && copy.addr == copy.addr[..12] + copy.addr[12..];
  }

  function RetryPending(s: State, k: Key, now: int): (s': State)
    ensures s'.supernode == s.supernode
  {
    if k !in s.pending then s
    else
      var p := s.pending[k];
      if |p.sockets| == 0 then
        if now - p.lastSentQuery > RETRY_INTERVAL then
          s.(pending := s.pending[k := p.(lastSentQuery := now)], sent := s.sent + [QueryPeer(s.supernode, p.mac)])
        else s
      else if now - p.lastSeen > RETRY_INTERVAL then
        s.(pending := s.pending[k := p.(lastSeen := now)], sent := s.sent + Registers(p.sockets, p.mac))
      else s
  }

  function FindDestination(s: State, mac: Mac, leftover: Sock, now: int): (State, Destination) {
    var supernode := ViaSupernode(PartialCopy(s.supernode, leftover));
    var k := KeyOf(mac);
    if k in s.known && TimedOut(s.known[k], now) then
      (RetryPending(Establish(s.(known := s.known - {k}), s.known[k].mac, now), k, now), supernode)
    else if k in s.known && s.known[k].lastSeen > 0 then (s, Direct(s.known[k].sock))
    else (RetryPending(s, k, now), supernode)
  }

  function PurgeTimer(s: State, now: int): State {
    if now - s.lastPurge >= PURGE_REGISTRATION_FREQUENCY then
      s.(known := Unexpired(s.known, now - REGISTRATION_TIMEOUT),
         pending := Unexpired(s.pending, now - REGISTRATION_TIMEOUT), lastPurge := now)
    else s
  }

  function Step(c: Config, s: State, e: Event, now: int): State {
    match e
    case Datagram(sender, community, msg) => Receive(c, s, sender, community, msg, now)
    case TapRead(destMac, leftover) => FindDestination(s, destMac, leftover, now).0
    case Timer => PurgeTimer(s, now)
    case NewSupernode(sock) => s.(supernode := sock)
  }

  // ----- runs

  /** An event and the time the edge reads from its clock. */
  datatype Occurrence = At(event: Event, now: int)

  function Run(c: Config, start: State, es: seq<Occurrence>): State {
    if es == [] then start else Step(c, Run(c, start, es[..|es| - 1]), es[|es| - 1].event, es[|es| - 1].now)
  }

  function Initial(supernode: IPv4Sock): State {
    State(supernode, map[], map[], 0, [])
  }

  ghost predicate WellKeyed(m: PeerMap) {
    forall k :: k in m ==> KeyOf(m[k].mac) == k
  }

  /** No key is in both tables, and entries stand under their own key. */
  ghost predicate Consistent(s: State) {
    && WellKeyed(s.known)
    && WellKeyed(s.pending)
    && s.known.Keys !! s.pending.Keys
  }

  lemma StepIsConsistent(c: Config, s: State, e: Event, now: int)
    requires Consistent(s)
    ensures Consistent(Step(c, s, e, now))
  {
    hide KeyOf;
  }

  /** The two tables are disjoint in every state an edge can reach. */
  lemma {:induction false} RunIsConsistent(c: Config, supernode: IPv4Sock, es: seq<Occurrence>)
    ensures Consistent(Run(c, Initial(supernode), es))
    decreases |es|
  {
    hide Step;
    if es != [] {
      RunIsConsistent(c, supernode, es[..|es| - 1]);
      StepIsConsistent(c, Run(c, Initial(supernode), es[..|es| - 1]), es[|es| - 1].event, es[|es| - 1].now);
    }
  }

  // ----- where the sockets of known peers come from

  /** Occurrence i is a REGISTER_ACK in the edge's community from this socket, for this key. */
  predicate Acknowledged(c: Config, es: seq<Occurrence>, i: nat, k: Key, sock: Sock)
    requires i < |es|
  {
    var e := es[i].event;
    && e.Datagram? && e.community == c.community && e.sender == sock
    && e.msg.RegisterAckMsg? && KeyOf(e.msg.srcMac) == k
  }

  ghost predicate Provenance(c: Config, es: seq<Occurrence>, known: PeerMap) {
    forall k :: k in known ==> exists i :: 0 <= i < |es| && Acknowledged(c, es, i, k, known[k].sock)
  }

  /** One event: a peer that stays known keeps its socket; one that becomes known has the sender of this
      very REGISTER_ACK. */
  lemma SocketsOfKnown(c: Config, s: State, e: Event, now: int, k: Key)
    requires Consistent(s) && k in Step(c, s, e, now).known
    ensures k in s.known ==> Step(c, s, e, now).known[k].sock == s.known[k].sock
    ensures k !in s.known ==>
              Acknowledged(c, [At(e, now)], 0, k, Step(c, s, e, now).known[k].sock)
  {
    hide KeyOf;
  }

  // ----- how peers get into the tables

  /** Occurrence i is a PACKET in the edge's community from a device with this key. */
  predicate Heard(c: Config, es: seq<Occurrence>, i: nat, k: Key)
    requires i < |es|
  {
    var e := es[i].event;
    e.Datagram? && e.community == c.community && e.msg.Packet? && KeyOf(e.msg.srcMac) == k
  }

  lemma OriginOfPeers(c: Config, s: State, e: Event, now: int, k: Key)
    requires Consistent(s)
    ensures k in Step(c, s, e, now).pending && k !in s.pending && k !in s.known ==> Heard(c, [At(e, now)], 0, k)
    ensures k in Step(c, s, e, now).known && k !in s.known ==> k in s.pending
  {
    hide KeyOf;
  }

  ghost predicate Introduced(c: Config, es: seq<Occurrence>, s: State) {
    && (forall k :: k in s.pending ==> exists i :: 0 <= i < |es| && Heard(c, es, i, k))
    && (forall k :: k in s.known ==>
         exists i, j :: 0 <= i < j < |es| && Heard(c, es, i, k) && Acknowledged(c, es, j, k, s.known[k].sock))
  }

  /** Reading from the tap, PEER_INFO and REGISTER never introduce a peer: a pending peer has sent a PACKET
      before, and a known peer has sent a PACKET and later, from the socket stored for it, a REGISTER_ACK. */
  lemma {:induction false} PeersHaveIntroducedThemselves(c: Config, supernode: IPv4Sock, es: seq<Occurrence>)
    ensures Introduced(c, es, Run(c, Initial(supernode), es))
    decreases |es|
  {
    hide Step, KeyOf, Heard, Acknowledged;
    if es != [] {
      var before, last := es[..|es| - 1], es[|es| - 1];
      var s := Run(c, Initial(supernode), before);
      var s' := Step(c, s, last.event, last.now);
      assert before + [last] == es;
      PeersHaveIntroducedThemselves(c, supernode, before);
      RunIsConsistent(c, supernode, before);
      forall k | k in s'.pending ensures exists i :: 0 <= i < |es| && Heard(c, es, i, k) {
        PendingWasHeard(c, s, before, last, k);
      }
      forall k | k in s'.known
        ensures exists i, j :: 0 <= i < j < |es| && Heard(c, es, i, k) && Acknowledged(c, es, j, k, s'.known[k].sock)
      {
        KnownWasHeard(c, s, before, last, k);
      }
    }
  }

  lemma PendingWasHeard(c: Config, s: State, before: seq<Occurrence>, last: Occurrence, k: Key)
    requires Consistent(s) && Introduced(c, before, s) && k in Step(c, s, last.event, last.now).pending
    ensures exists i :: 0 <= i < |before| + 1 && Heard(c, before + [last], i, k)
  {
    hide Step, KeyOf;
    OriginOfPeers(c, s, last.event, last.now, k);
    if k in s.pending {
      var i :| 0 <= i < |before| && Heard(c, before, i, k);
      assert Heard(c, before + [last], i, k);
    } else if k in s.known {
      var i, j :| 0 <= i < j < |before| && Heard(c, before, i, k) && Acknowledged(c, before, j, k, s.known[k].sock);
      assert Heard(c, before + [last], i, k);
    } else {
      assert Heard(c, before + [last], |before|, k);
    }
  }

  lemma KnownWasHeard(c: Config, s: State, before: seq<Occurrence>, last: Occurrence, k: Key)
    requires Consistent(s) && Introduced(c, before, s) && k in Step(c, s, last.event, last.now).known
    ensures exists i, j :: 0 <= i < j < |before| + 1 && Heard(c, before + [last], i, k)
              && Acknowledged(c, before + [last], j, k, Step(c, s, last.event, last.now).known[k].sock)
  {
    hide Step, KeyOf;
    OriginOfPeers(c, s, last.event, last.now, k);
    SocketsOfKnown(c, s, last.event, last.now, k);
    var sock := Step(c, s, last.event, last.now).known[k].sock;
    if k in s.known {
      var i, j :| 0 <= i < j < |before| && Heard(c, before, i, k) && Acknowledged(c, before, j, k, s.known[k].sock);
      assert Heard(c, before + [last], i, k) && Acknowledged(c, before + [last], j, k, sock);
    } else {
      var i :| 0 <= i < |before| && Heard(c, before, i, k);
      assert Heard(c, before + [last], i, k) && Acknowledged(c, before + [last], |before|, k, sock);
    }
  }

  /** Over whole runs, the socket of a known peer is the source of an earlier REGISTER_ACK in this edge's
      community for that peer's key. */
  lemma KnownSocketsWereAcknowledged(c: Config, supernode: IPv4Sock, es: seq<Occurrence>)
    ensures Provenance(c, es, Run(c, Initial(supernode), es).known)
  {
    hide Run, Heard, Acknowledged;
    PeersHaveIntroducedThemselves(c, supernode, es);
  }

  // ----- queries

  /** The supernode has been asked for k. */
  ghost predicate Queried(sent: seq<Send>, k: Key) {
    exists n :: 0 <= n < |sent| && sent[n].QueryPeer? && KeyOf(sent[n].target) == k
  }

  ghost predicate AllQueried(s: State) {
    forall k :: k in s.known || k in s.pending ==> Queried(s.sent, k)
  }

  lemma QueriedStays(sent: seq<Send>, more: seq<Send>, k: Key)
    ensures Queried(sent, k) ==> Queried(sent + more, k)
  {
    if Queried(sent, k) {
      var n :| 0 <= n < |sent| && sent[n].QueryPeer? && KeyOf(sent[n].target) == k;
      assert (sent + more)[n] == sent[n];
    }
  }

  lemma SendsAreAppended(c: Config, s: State, e: Event, now: int)
    ensures s.sent <= Step(c, s, e, now).sent
  {
    hide Receive, FindDestination;
    match e
    case Datagram(sender, community, msg) => ReceiveAppends(c, s, sender, community, msg, now);
    case TapRead(destMac, leftover) => DestinationAppends(s, destMac, leftover, now);
    case _ =>
  }

  lemma ReceiveAppends(c: Config, s: State, sender: Sock, community: Community, m: Message, now: int)
    ensures s.sent <= Receive(c, s, sender, community, m, now).sent
  {
    hide KeyOf, Registers, SockEqual, EmptyAddress;
  }

  lemma DestinationAppends(s: State, mac: Mac, leftover: Sock, now: int)
    ensures s.sent <= FindDestination(s, mac, leftover, now).0.sent
  {
    hide KeyOf, Registers;
  }

  /** A peer that is new to the tables is asked for at once. */
  lemma NewcomersAreQueried(c: Config, s: State, e: Event, now: int, k: Key)
    requires Consistent(s) && k !in s.known && k !in s.pending
    requires k in Step(c, s, e, now).known || k in Step(c, s, e, now).pending
    ensures e.Datagram? && e.msg.Packet?
    ensures Step(c, s, e, now).sent == s.sent + [QueryPeer(s.supernode, e.msg.srcMac)] && KeyOf(e.msg.srcMac) == k
  {
    hide KeyOf, Registers;
  }

  /** In every reachable state the supernode has been asked for every peer in either table. */
  lemma {:induction false} EveryPeerWasQueried(c: Config, supernode: IPv4Sock, es: seq<Occurrence>)
    ensures AllQueried(Run(c, Initial(supernode), es))
    decreases |es|
  {
    hide Step, KeyOf, Queried;
    if es != [] {
      var last := es[|es| - 1];
      var s := Run(c, Initial(supernode), es[..|es| - 1]);
      var s' := Step(c, s, last.event, last.now);
      EveryPeerWasQueried(c, supernode, es[..|es| - 1]);
      RunIsConsistent(c, supernode, es[..|es| - 1]);
      SendsAreAppended(c, s, last.event, last.now);
      assert s.sent + s'.sent[|s.sent|..] == s'.sent;
      forall k | k in s'.known || k in s'.pending ensures Queried(s'.sent, k) {
        if k in s.known || k in s.pending {
          QueriedStays(s.sent, s'.sent[|s.sent|..], k);
        } else {
          NewcomersAreQueried(c, s, last.event, last.now, k);
          AskedLast(s.sent, s.supernode, last.event.msg.srcMac);
        }
      }
    }
  }

  lemma AskedLast(sent: seq<Send>, supernode: Sock, mac: Mac)
    ensures Queried(sent + [QueryPeer(supernode, mac)], KeyOf(mac))
  {
    var all := sent + [QueryPeer(supernode, mac)];
    assert all[|sent|].QueryPeer? && KeyOf(all[|sent|].target) == KeyOf(mac);
  }

  /** PEER_INFO messages and packets relayed by a supernode leave the known peers alone. */
  lemma RelayedLeavesKnown(c: Config, s: State, sender: Sock, community: Community, m: Message, now: int)
    requires m.PeerInfoMsg? || (m.Packet? && m.fromSupernode)
    ensures Receive(c, s, sender, community, m, now).known == s.known
  {
  }

  // ----- counting

  function Total(s: State): nat { |s.known| + |s.pending| }

  lemma RemoveEntry(a: PeerMap, k: Key)
    requires k in a
    ensures (a - {k}).Keys == a.Keys - {k} && |a - {k}| == |a| - 1
  {
    assert (a - {k}).Keys == a.Keys - {k};
    assert |(a - {k}).Keys| == |a.Keys| - 1;
  }

  lemma AddEntry(b: PeerMap, k: Key, v: Peer)
    requires k !in b
    ensures b[k := v].Keys == b.Keys + {k} && |b[k := v]| == |b| + 1
  {
    assert b[k := v].Keys == b.Keys + {k};
    assert |b[k := v].Keys| == |b.Keys| + 1;
  }

  lemma MoveEntry(a: PeerMap, b: PeerMap, k: Key, v: Peer)
    requires k in a && k !in b
    ensures |a - {k}| + |b[k := v]| == |a| + |b|
    ensures (a - {k}).Keys == a.Keys - {k} && b[k := v].Keys == b.Keys + {k}
  {
    RemoveEntry(a, k);
    AddEntry(b, k, v);
  }

  lemma SameEntry(a: PeerMap, k: Key, v: Peer)
    requires k in a
    ensures |a[k := v]| == |a| && a[k := v].Keys == a.Keys
  {
    assert a[k := v].Keys == a.Keys;
  }

  /** No entry is lost or added. */
  ghost predicate Conserved(s: State, s': State) {
    && Total(s') == Total(s)
    && forall k :: k in s'.known || k in s'.pending <==> k in s.known || k in s.pending
  }

  lemma SetOperationalConserves(s: State, mac: Mac, sender: Sock, now: int)
    requires Consistent(s)
    ensures var k, s' := KeyOf(mac), SetOperational(s, mac, sender, now);
            && Conserved(s, s')
            && s'.known.Keys == (if k in s.pending then s.known.Keys + {k} else s.known.Keys)
            && k !in s'.pending
  {
    hide KeyOf;
    var k := KeyOf(mac);
    if k in s.pending {
      MoveEntry(s.pending, s.known, k, s.pending[k].(sock := sender, lastSeen := now));
    }
  }

  /** A REGISTER_ACK in the edge's community makes a pending peer a known one; apart from that nothing
      becomes known or is lost. */
  lemma PromotionConserves(c: Config, s: State, sender: Sock, m: Message, now: int)
    requires Consistent(s) && m.RegisterAckMsg?
    ensures var k, s' := KeyOf(m.srcMac), Receive(c, s, sender, c.community, m, now);
            && Conserved(s, s')
            && s'.known.Keys == (if k in s.pending then s.known.Keys + {k} else s.known.Keys)
            && k !in s'.pending
  {
    hide KeyOf, SetOperational, Conserved;
    SetOperationalConserves(s, m.srcMac, sender, now);
  }

  /** A packet from a known peer: nothing is lost, and the peer falls back to pending if and only if the
      packet came directly, from a socket that has changed. */
  lemma DemotionConserves(c: Config, s: State, sender: Sock, m: Message, now: int)
    requires Consistent(s) && m.Packet? && KeyOf(m.srcMac) in s.known
    ensures var k, s' := KeyOf(m.srcMac), Receive(c, s, sender, c.community, m, now);
            && Conserved(s, s')
            && (k in s'.pending <==>
                 !m.fromSupernode && !SockEqual(s.known[k].sock, sender)
                 && !EmptyAddress(sender) && m.srcMac != BROADCAST_MAC)
  {
    hide KeyOf, EmptyAddress, SockEqual;
    var k := KeyOf(m.srcMac);
    assert k !in s.pending;
    MoveEntry(s.known, s.pending, k, NewPending(s, m.srcMac, now));
    SameEntry(s.known, k, s.known[k].(lastSeen := now));
  }

  lemma FamilyStays(c: Config, s: State, e: Event, now: int)
    requires s.supernode.family == AF_INET
    ensures Step(c, s, e, now).supernode.family == AF_INET
  {
    hide KeyOf, Registers, SockEqual, EmptyAddress;
  }

  /** In every reachable state the supernode has an IPv4 address. */
  lemma {:induction false} SupernodeIsIPv4(c: Config, supernode: IPv4Sock, es: seq<Occurrence>)
    ensures Run(c, Initial(supernode), es).supernode.family == AF_INET
    decreases |es|
  {
    hide Step;
    if es != [] {
      SupernodeIsIPv4(c, supernode, es[..|es| - 1]);
      FamilyStays(c, Run(c, Initial(supernode), es[..|es| - 1]), es[|es| - 1].event, es[|es| - 1].now);
    }
  }

  /** In every reachable state, whatever the destination variable held before, a frame goes either directly to
      a socket that has acknowledged a registration of the addressed peer in the edge's community, or to the
      supernode. */
  lemma FramesReachPeerOrSupernode(
    c: Config, supernode: IPv4Sock, es: seq<Occurrence>, mac: Mac, leftover: Sock, now: int)
    ensures var s := Run(c, Initial(supernode), es);
            var d := FindDestination(s, mac, leftover, now).1;
            && (d.Direct? ==> exists i :: 0 <= i < |es| && Acknowledged(c, es, i, KeyOf(mac), d.sock))
            && (d.ViaSupernode? ==> SockEqual(d.sock, s.supernode))
  {
    hide Run, KeyOf, Acknowledged, SockEqual;
    KnownSocketsWereAcknowledged(c, supernode, es);
    SupernodeIsIPv4(c, supernode, es);
    PartialCopyReaches(Run(c, Initial(supernode), es).supernode, leftover);
  }
}
