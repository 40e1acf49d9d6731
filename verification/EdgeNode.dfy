/** The edge as it runs: peer structures in two hash tables, updated in place. */
module EdgeNode {
  import opened PeerTable
  import opened EdgeProtocol

  class Edge {
    const config: Config
    const known: Table
    const pending: Table
    var supernode: Sock
    var lastPurge: int
    var sent: seq<Send>

    constructor (config: Config, supernode: IPv4Sock)
      ensures Valid() && fresh(Repr())
      ensures Abstract() == Initial(supernode)
    {
      this.config, this.supernode := config, supernode;
      lastPurge, sent := 0, [];
      known := new Table();
      pending := new Table();
    }

    ghost function Repr(): set<object>
      reads this, known, pending
    {
      {this} + known.Repr + pending.Repr
    }

    ghost predicate Valid()
      reads this, known, pending, Repr()
    {
      && known in known.Repr && pending in pending.Repr
      && known.buckets in known.Repr && pending.buckets in pending.Repr
      && known.Valid() && pending.Valid()
      && known.Repr !! pending.Repr && this !in known.Repr && this !in pending.Repr
      && known.view.Keys !! pending.view.Keys
    }

    ghost function Abstract(): State
      reads this, known, pending
    {
      State(supernode, known.view, pending.view, lastPurge, sent)
    }

    /** establish_connection. */
    method EstablishConnection(mac: Mac, now: int)
      requires Valid() && KeyOf(mac) !in known.view
      modifies Repr()
      ensures Valid() && fresh(Repr() - old(Repr()))
      ensures Abstract() == Establish(old(Abstract()), mac, now)
    {
      hide KeyOf, Table.Valid;
      var scan := pending.Find(mac);
      if scan == null {
        scan := new PeerInfo(mac, supernode);
        scan.lastSeen := now;
        pending.Add(scan);
        sent := sent + [QueryPeer(supernode, scan.mac)];
        pending.Assign(scan, scan.Value().(lastSentQuery := now));
      }
    }

    /** The structure itself moves from one table to the other. */
    method MoveToKnown(scan: PeerInfo)
      requires Valid() && pending.Has(scan) && scan.Value() == pending.view[KeyOf(scan.mac)]
      modifies known, known.buckets, pending, pending.buckets
      ensures Valid() && Repr() == old(Repr()) && known.Has(scan)
      ensures scan.Value() == old(scan.Value()) == known.view[KeyOf(scan.mac)]
      ensures known.view == old(known.view)[KeyOf(scan.mac) := old(scan.Value())]
      ensures pending.view == old(pending.view) - {KeyOf(scan.mac)}
    {
      hide KeyOf, Table.Valid;
      pending.Delete(scan);
      known.Add(scan);
    }

    /** set_peer_operational. */
    method SetPeerOperational(mac: Mac, peer: Sock, now: int)
      requires Valid()
      modifies Repr()
      ensures Valid() && fresh(Repr() - old(Repr()))
      ensures Abstract() == SetOperational(old(Abstract()), mac, peer, now)
    {
      hide KeyOf, Table.Valid;
      var scan := pending.Find(mac);
      if scan != null {
        MoveToKnown(scan);
        known.Assign(scan, scan.Value().(sock := peer, lastSeen := now));
      }
    }

    /** update_peer_address. */
    method UpdatePeerAddress(fromSupernode: bool, mac: Mac, peer: Sock, now: int)
      requires Valid()
      modifies Repr()
      ensures Valid() && fresh(Repr() - old(Repr()))
      ensures Abstract() == UpdateAddress(old(Abstract()), fromSupernode, mac, peer, now)
    {
      hide KeyOf, Table.Valid, EmptyAddress, SockEqual;
      if EmptyAddress(peer) || mac == BROADCAST_MAC { return; }
      var scan := known.Find(mac);
      if scan == null { return; }
      if !SockEqual(scan.sock, peer) {
        if !fromSupernode {
          known.Delete(scan);
          EstablishConnection(mac, now);
        } else {
          sent := sent + [Register(scan.sock, scan.mac)];
        }
      } else if !fromSupernode {
        known.Assign(scan, scan.Value().(lastSeen := now));
      }
    }

    /** check_peer. */
    method CheckPeer(fromSupernode: bool, mac: Mac, peer: Sock, now: int)
      requires Valid()
      modifies Repr()
      ensures Valid() && fresh(Repr() - old(Repr()))
      ensures Abstract() == EdgeProtocol.CheckPeer(old(Abstract()), fromSupernode, mac, peer, now)
    {
      hide KeyOf, Table.Valid, Establish, UpdateAddress;
      var scan := known.Find(mac);
      if scan == null {
        EstablishConnection(mac, now);
      } else {
        UpdatePeerAddress(fromSupernode, mac, peer, now);
      }
    }

    /** One REGISTER to each socket of a peer. */
    method SendRegisters(socks: seq<Sock>, mac: Mac)
      modifies this`sent
      ensures sent == old(sent) + Registers(socks, mac)
    {
      var j: nat := 0;
      while j < |socks|
        invariant j <= |socks| && sent == old(sent) + Registers(socks[..j], mac)
      {
        assert socks[..j + 1][..j] == socks[..j];
        sent := sent + [Register(socks[j], mac)];
        j := j + 1;
      }
      assert socks[..j] == socks;
    }

    /** The part of find_peer_destination for a peer without a registered socket. */
    method Retry(mac: Mac, now: int)
      requires Valid()
      modifies Repr()
      ensures Valid() && fresh(Repr() - old(Repr()))
      ensures Abstract() == RetryPending(old(Abstract()), KeyOf(mac), now)
    {
      hide KeyOf, Table.Valid, Registers;
      var tryscan := pending.Find(mac);
      if tryscan != null {
        if |tryscan.sockets| == 0 {
          if now - tryscan.lastSentQuery > RETRY_INTERVAL {
            sent := sent + [QueryPeer(supernode, tryscan.mac)];
            pending.Assign(tryscan, tryscan.Value().(lastSentQuery := now));
          }
        } else if now - tryscan.lastSeen > RETRY_INTERVAL {
          SendRegisters(tryscan.sockets, tryscan.mac);
          pending.Assign(tryscan, tryscan.Value().(lastSeen := now));
        }
      }
    }

    /** find_peer_destination. */
    method FindPeerDestination(mac: Mac, leftover: Sock, now: int) returns (destination: Destination)
      requires Valid()
      modifies Repr()
      ensures Valid() && fresh(Repr() - old(Repr()))
      ensures (Abstract(), destination) == FindDestination(old(Abstract()), mac, leftover, now)
    {
      hide KeyOf, Table.Valid, Establish, RetryPending;
      var scan := known.Find(mac);
      if scan != null {
        if TimedOut(scan.Value(), now) {
          known.Delete(scan);
          EstablishConnection(scan.mac, now);
        } else if scan.lastSeen > 0 {
          return Direct(scan.sock);
        }
      }
      Retry(mac, now);
      return ViaSupernode(PartialCopy(supernode, leftover));
    }

    /** The PEER_INFO case of readFromIPSocket. */
    method ReadPeerInfo(m: Message)
      requires Valid() && m.PeerInfoMsg?
      modifies Repr()
      ensures Valid() && fresh(Repr() - old(Repr()))
      ensures Abstract() == ReceivePeerInfo(old(Abstract()), m)
    {
      hide KeyOf, Table.Valid, Registers;
      var scan := pending.Find(m.mac);
      if scan != null {
        var socks := if m.hasLocal then [m.sockets0, m.sockets1] else [m.sockets0];
        pending.Assign(scan, scan.Value().(timeout := m.timeout, sockets := socks));
        SendRegisters(scan.sockets, scan.mac);
      }
    }

    /** The REGISTER case of readFromIPSocket. */
    method ReadRegister(m: Message, sender: Sock)
      requires Valid() && m.RegisterMsg?
      modifies this`sent
      ensures Valid() && Repr() == old(Repr())
      ensures Abstract() == ReceiveRegister(config, old(Abstract()), m, sender)
    {
      hide KeyOf, Table.Valid;
      if m.dstMac == config.mac {
        var scan := pending.Find(m.srcMac);
        if scan != null {
          sent := sent + [RegisterBlank(sender)];
        }
      }
      sent := sent + [RegisterAck(sender, m.srcMac)];
    }

    /** readFromIPSocket, from the decoded message on. */
    method ReadFromIPSocket(sender: Sock, community: Community, m: Message, now: int)
      requires Valid()
      modifies Repr()
      ensures Valid() && fresh(Repr() - old(Repr()))
      ensures Abstract() == Receive(config, old(Abstract()), sender, community, m, now)
    {
      hide KeyOf, Table.Valid, EdgeProtocol.CheckPeer, ReceivePeerInfo, ReceiveRegister, SetOperational;
      if community != config.community { return; }
      match m
      case Packet(fromSupernode, srcMac) => CheckPeer(fromSupernode, srcMac, sender, now);
      case PeerInfoMsg(_, _, _, _, _) => ReadPeerInfo(m);
      case RegisterMsg(_, _) => ReadRegister(m, sender);
      case RegisterAckMsg(srcMac) => SetPeerOperational(srcMac, sender, now);
      case Other =>
    }

    /** The purge in run_loop; numPurged is the number of entries that are gone. */
    method PurgeExpired(now: int) returns (numPurged: nat)
      requires Valid()
      modifies Repr()
      ensures Valid() && fresh(Repr() - old(Repr()))
      ensures Abstract() == PurgeTimer(old(Abstract()), now)
      ensures numPurged + Total(Abstract()) == Total(old(Abstract()))
    {
      hide KeyOf, Table.Valid;
      numPurged := 0;
      if now - lastPurge >= PURGE_REGISTRATION_FREQUENCY {
        var a := known.Purge(now - REGISTRATION_TIMEOUT);
        var b := pending.Purge(now - REGISTRATION_TIMEOUT);
        numPurged := a + b;
        lastPurge := now;
      }
    }

    /** One turn of the event loop. */
    method Turn(e: Event, now: int)
      requires Valid()
      modifies Repr()
      ensures Valid() && fresh(Repr() - old(Repr()))
      ensures Abstract() == Step(config, old(Abstract()), e, now)
    {
      hide KeyOf, Table.Valid, Receive, FindDestination, PurgeTimer;
      match e
      case Datagram(sender, community, msg) => ReadFromIPSocket(sender, community, msg, now);
      case TapRead(destMac, leftover) => var d := FindPeerDestination(destMac, leftover, now);
      case Timer => var n := PurgeExpired(now);
      case NewSupernode(sock) => supernode := sock;
    }
  }
}
