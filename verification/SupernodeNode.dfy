/** The supernode as it runs: registrations in a hash table, updated in place. */
module SupernodeNode {
  import opened PeerTable
  import opened SupernodeProtocol

  class Supernode {
    const edges: Table
    var lastPurge: int
    var sent: seq<Reply>

    constructor ()
      ensures Valid() && fresh(Repr())
      ensures Abstract() == INITIAL
    {
      lastPurge, sent := 0, [];
      edges := new Table();
    }

    ghost function Repr(): set<object>
      reads this, edges
    {
      {this} + edges.Repr
    }

    ghost predicate Valid()
      reads this, edges, Repr()
    {
      && edges in edges.Repr && edges.buckets in edges.Repr && this !in edges.Repr
      && edges.Valid() && GoodEdges(edges.view)
    }

    ghost function Abstract(): State
      reads this, edges
    {
      State(edges.view, lastPurge, sent)
    }

    /** The first branch of update_edge. */
    method CreateEdge(sender: Sock, community: Community, m: Message, now: int)
      requires Valid() && m.RegisterSuper? && KeyOf(m.edgeMac) !in edges.view
      modifies Repr()
      ensures Valid() && fresh(Repr() - old(Repr()))
      ensures lastPurge == old(lastPurge) && sent == old(sent)
      ensures edges.view == UpdateEdge(old(edges.view), sender, community, m, now)
    {
      hide KeyOf, Table.Valid, UpdateEdge, GoodEdges;
      ghost var was := edges.view;
      var scan := new PeerInfo(m.edgeMac, sender);
      scan.community := community;
      scan.timeout := m.timeout;
      if m.localSock.Some? {
        scan.sockets := [scan.sock, m.localSock.value];
      } else {
        scan.sockets := [scan.sock];
      }
      scan.lastSeen := now;
      UpdateCreates(was, sender, community, m, now);
      edges.Add(scan);
    }

    /** The second branch of update_edge. */
    method RenewEdge(scan: PeerInfo, sender: Sock, community: Community, m: Message, now: int)
      requires Valid() && m.RegisterSuper? && edges.Has(scan) && KeyOf(scan.mac) == KeyOf(m.edgeMac)
      requires scan.Value() == edges.view[KeyOf(scan.mac)]
      modifies Repr()
      ensures Valid() && fresh(Repr() - old(Repr()))
      ensures lastPurge == old(lastPurge) && sent == old(sent)
      ensures edges.view == UpdateEdge(old(edges.view), sender, community, m, now)
    {
      hide KeyOf, Table.Valid, UpdateEdge, GoodEdges, SockEqual;
      UpdateRenews(edges.view, sender, community, m, now);
      var v := scan.Value().(timeout := m.timeout, community := community);
      if !SockEqual(sender, v.sock) {
        v := v.(sock := sender, sockets := v.sockets[0 := sender]);
      }
      if |v.sockets| == 1 {
        if m.localSock.Some? {
          v := v.(sockets := [v.sock, m.localSock.value]);
        }
      } else if m.localSock.Some? {
        if !SockEqual(m.localSock.value, v.sockets[1]) {
          v := v.(sockets := v.sockets[1 := m.localSock.value]);
        }
      } else {
        v := v.(sockets := [v.sock]);
      }
      edges.Assign(scan, v.(lastSeen := now));
    }

    /** update_edge. */
    method UpdateEdgeTable(sender: Sock, community: Community, m: Message, now: int)
      requires Valid() && m.RegisterSuper?
      modifies Repr()
      ensures Valid() && fresh(Repr() - old(Repr()))
      ensures lastPurge == old(lastPurge) && sent == old(sent)
      ensures edges.view == UpdateEdge(old(edges.view), sender, community, m, now)
    {
      hide KeyOf, Table.Valid, UpdateEdge, GoodEdges;
      var scan := edges.Find(m.edgeMac);
      if scan == null {
        CreateEdge(sender, community, m, now);
      } else {
        RenewEdge(scan, sender, community, m, now);
      }
    }

    /** The QUERY_PEER case of process_udp. */
    method AnswerQuery(sender: Sock, community: Community, target: Mac)
      requires Valid()
      modifies this`sent
      ensures Valid() && Repr() == old(Repr())
      ensures Abstract() == old(Abstract()).(sent := old(sent) + Answer(old(edges.view), sender, community, target))
    {
      hide KeyOf, Table.Valid, GoodEdges;
      var scan := edges.Find(target);
      if scan != null && scan.community == community {
        sent := sent + [PeerInfoReply(sender, community, target, scan.timeout, scan.sockets)];
      }
    }

    /** try_forward. */
    method TryForward(dstMac: Mac)
      requires Valid()
      modifies this`sent
      ensures Valid() && Repr() == old(Repr())
      ensures Abstract() == old(Abstract()).(sent := old(sent) + Forward(old(edges.view), dstMac))
    {
      hide KeyOf, Table.Valid, GoodEdges;
      var scan := edges.Find(dstMac);
      if scan != null && scan.sock.family == AF_INET {
        sent := sent + [Forwarded(scan.sock)];
      }
    }

    /** The targets among the first n elements. */
    ghost predicate TargetsAmong(
      list: seq<PeerInfo>, n: nat, targets: map<Key, Sock>, community: Community, srcMac: Mac)
      reads this, edges, list
      requires n <= |list|
    {
      && (forall j :: 0 <= j < n && IsTarget(list[j].Value(), community, srcMac) ==> KeyOf(list[j].mac) in targets)
      && (forall k :: k in targets ==>
           k in edges.view && targets[k] == edges.view[k].sock && IsTarget(edges.view[k], community, srcMac))
    }

    lemma AllTargets(list: seq<PeerInfo>, targets: map<Key, Sock>, community: Community, srcMac: Mac)
      requires TargetsAmong(list, |list|, targets, community, srcMac)
      requires forall i :: 0 <= i < |list| ==> edges.Has(list[i]) && list[i].Value() == edges.view[KeyOf(list[i].mac)]
      requires forall k :: k in edges.view ==> exists i :: 0 <= i < |list| && KeyOf(list[i].mac) == k
      ensures targets == Targets(edges.view, community, srcMac)
    {
      hide KeyOf, IsTarget;
    }

    /** The walk of try_broadcast over the table. */
    method CollectTargets(community: Community, srcMac: Mac) returns (targets: map<Key, Sock>)
      requires Valid()
      ensures targets == Targets(edges.view, community, srcMac)
    {
      hide KeyOf, Table.Valid, GoodEdges, IsTarget, Targets;
      var list := edges.Elements();
      targets := map[];
      var i: nat := 0;
      while i < |list|
        invariant i <= |list| && TargetsAmong(list, i, targets, community, srcMac)
      {
        var ll := list[i];
        if IsTarget(ll.Value(), community, srcMac) {
          targets := targets[KeyOf(ll.mac) := ll.sock];
        }
        i := i + 1;
      }
      AllTargets(list, targets, community, srcMac);
    }

    /** try_broadcast. */
    method TryBroadcast(community: Community, srcMac: Mac)
      requires Valid()
      modifies this`sent
      ensures Valid() && Repr() == old(Repr())
      ensures var to := Targets(old(edges.view), community, srcMac);
              Abstract() == old(Abstract()).(sent := old(sent) + [Broadcast(to)])
    {
      hide KeyOf, Table.Valid, GoodEdges, Targets;
      var targets := CollectTargets(community, srcMac);
      sent := sent + [Broadcast(targets)];
    }

    /** process_udp, from the decoded message on. */
    method ProcessUdp(sender: Sock, community: Community, ttl: nat, m: Message, now: int)
      requires Valid()
      modifies Repr()
      ensures Valid() && fresh(Repr() - old(Repr()))
      ensures Abstract() == Receive(old(Abstract()), sender, community, ttl, m, now)
    {
      hide KeyOf, Table.Valid, UpdateEdge, GoodEdges, Answer, Forward, Targets, IsMultiBroadcast;
      if ttl < 1 { return; }
      match m
      case Packet(srcMac, dstMac) =>
        if IsMultiBroadcast(dstMac) { TryBroadcast(community, srcMac); } else { TryForward(dstMac); }
      case Register(dstMac) =>
        if !IsMultiBroadcast(dstMac) { TryForward(dstMac); }
      case RegisterSuper(cookie, edgeMac, _, _) =>
        UpdateEdgeTable(sender, community, m, now);
        sent := sent + [RegisterSuperAck(sender, community, cookie, edgeMac, REG_LIFETIME)];
      case QueryPeer(_, targetMac) => AnswerQuery(sender, community, targetMac);
      case Other =>
    }

    /** The purge in run_loop. */
    method PurgeExpired(now: int)
      requires Valid()
      modifies Repr()
      ensures Valid() && fresh(Repr() - old(Repr()))
      ensures Abstract() == PurgeTimer(old(Abstract()), now)
    {
      hide KeyOf, Table.Valid;
      if now - lastPurge >= PURGE_REGISTRATION_FREQUENCY {
        var n := edges.Purge(now - REGISTRATION_TIMEOUT);
        lastPurge := now;
      }
    }

    /** One turn of the event loop. */
    method Turn(e: Event, now: int)
      requires Valid()
      modifies Repr()
      ensures Valid() && fresh(Repr() - old(Repr()))
      ensures Abstract() == Step(old(Abstract()), e, now)
    {
      hide KeyOf, Table.Valid, Receive, PurgeTimer, GoodEdges;
      match e
      case Datagram(sender, community, ttl, m) => ProcessUdp(sender, community, ttl, m, now);
      case Timer => PurgeExpired(now);
    }
  }

  lemma UpdateCreates(edges: PeerMap, sender: Sock, community: Community, m: Message, now: int)
    requires GoodEdges(edges) && m.RegisterSuper? && KeyOf(m.edgeMac) !in edges
    ensures var p := Peer(m.edgeMac, community, sender, Sockets(sender, m.localSock), now, 0, m.timeout);
            UpdateEdge(edges, sender, community, m, now) == edges[KeyOf(m.edgeMac) := p]
  {
  }

  lemma UpdateRenews(edges: PeerMap, sender: Sock, community: Community, m: Message, now: int)
    requires GoodEdges(edges) && m.RegisterSuper? && KeyOf(m.edgeMac) in edges
    ensures var k := KeyOf(m.edgeMac);
            && GoodEntry(edges[k])
            && UpdateEdge(edges, sender, community, m, now) == edges[k := Renewed(edges[k], sender, community, m, now)]
  {
  }
}
