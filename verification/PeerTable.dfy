/** The hash table of peers: 53 buckets of lists, keyed by MAC address. */
module PeerTable {
  type octet = bv8

  const MAC_SIZE := 6
  const PEER_HASH_TAB_SIZE := 53

  type Mac = m: seq<octet> | |m| == MAC_SIZE witness [0, 0, 0, 0, 0, 0]

  type Community = seq<octet>

  const PURGE_REGISTRATION_FREQUENCY := 60
  const REGISTRATION_TIMEOUT := 120

  type Address = a: seq<octet> | |a| == 16 witness [0, 0, 0, 0, 0, 0, 0, 0, 0, 0, 0, 0, 0, 0, 0, 0]

  const AF_INET := 2
  const AF_INET6 := 10

  /** A transport address; an IPv4 address takes the first four bytes. */
  datatype Sock = Sock(family: nat, port: nat, addr: Address)

  type IPv4Sock = s: Sock | s.family == AF_INET
    witness Sock(AF_INET, 0, [0, 0, 0, 0, 0, 0, 0, 0, 0, 0, 0, 0, 0, 0, 0, 0])

  /** sock_equal: bytes behind an IPv4 address are not compared. */
  predicate SockEqual(a: Sock, b: Sock) {
    && a.port == b.port
    && a.family == b.family
    && if a.family == AF_INET then a.addr[..4] == b.addr[..4] else a.addr == b.addr
  }

  /** Sockets are equal when they have the same family, port and significant bytes: four for IPv4, sixteen for
      any other family. */
  lemma SockEqualIsSameEndpoint(a: Sock, b: Sock)
    ensures SockEqual(a, b)
       <==> a.family == b.family && a.port == b.port
            && forall i :: 0 <= i < (if a.family == 2 then 4 else 16) ==> a.addr[i] == b.addr[i]
  {
    if a.family == 2 {
      assert a.addr[..4] == [a.addr[0], a.addr[1], a.addr[2], a.addr[3]];
      assert b.addr[..4] == [b.addr[0], b.addr[1], b.addr[2], b.addr[3]];
    }
  }

  lemma SockEqualIsEquivalence(a: Sock, b: Sock, c: Sock)
    ensures SockEqual(a, a)
    ensures SockEqual(a, b) ==> SockEqual(b, a)
    ensures SockEqual(a, b) && SockEqual(b, c) ==> SockEqual(a, c)
  {
  }

  // ----- the key of the table

  /** peer_info_t_hash_function, reduced to a bucket. */
  function Bucket(m: Mac): (b: nat)
    ensures b < PEER_HASH_TAB_SIZE
  {
    Hash(m) as int % PEER_HASH_TAB_SIZE
  }

  function Hash(m: Mac): bv32 {
    (((m[0] ^ m[3]) as bv32) << 2) | (((m[1] ^ m[4]) as bv32) << 1) | ((m[2] ^ m[5]) as bv32)
  }

  /** The bytes of vendor and device number are combined one by one, so that equal ones cancel; the combined
      bytes weigh four, two and one, and overlap bit by bit. */
  lemma HashWeighs(m: Mac, x: octet, y: octet, z: octet)
    requires x == m[0] ^ m[3] && y == m[1] ^ m[4] && z == m[2] ^ m[5]
    ensures Hash(m) == FourTimes(x) | Twice(y) | (z as bv32)
    ensures Hash(m) == Hash([m[3], m[4], m[5], m[0], m[1], m[2]])
  {
    hide FourTimes, Twice;
    Weights(x);
    Weights(y);
  }

  function FourTimes(x: octet): bv32 { 4 * (x as bv32) }

  function Twice(x: octet): bv32 { 2 * (x as bv32) }

  lemma Weights(x: octet)
    ensures (x as bv32) << 2 == FourTimes(x) && (x as bv32) << 1 == Twice(x)
  {
  }

  /** PEER_INFO_COMPARATOR: strncmp over the six bytes stops at a common zero byte. */
  predicate StrEqual(a: Mac, b: Mac, i: nat)
    requires i <= MAC_SIZE
    decreases MAC_SIZE - i
  {
    i == MAC_SIZE || (a[i] == b[i] && (a[i] == 0 || StrEqual(a, b, i + 1)))
  }

  /** The bytes in front of the first zero. */
  function CString(m: Mac, i: nat): seq<octet>
    requires i <= MAC_SIZE
    decreases MAC_SIZE - i
  {
    if i == MAC_SIZE || m[i] == 0 then [] else [m[i]] + CString(m, i + 1)
  }

  /** What the table distinguishes: not the MAC address as such, but its bucket and its bytes in front of
      the first zero. */
  datatype Key = Key(bucket: nat, name: seq<octet>)

  function KeyOf(m: Mac): Key {
    Key(Bucket(m), CString(m, 0))
  }

  lemma {:induction false} StrEqualIsSameString(a: Mac, b: Mac, i: nat)
    requires i <= MAC_SIZE
    ensures StrEqual(a, b, i) <==> CString(a, i) == CString(b, i)
    decreases MAC_SIZE - i
  {
    if i < MAC_SIZE {
      StrEqualIsSameString(a, b, i + 1);
      if a[i] != 0 && b[i] != 0 {
        assert CString(a, i)[1..] == CString(a, i + 1) && CString(b, i)[1..] == CString(b, i + 1);
        assert CString(a, i)[0] == a[i] && CString(b, i)[0] == b[i];
      }
    }
  }

  /** The table's notion of the same peer is weaker than equality of the addresses: what follows a zero
      byte counts only through the hash. */
  lemma DifferentMacsCanShareAKey()
    ensures exists a: Mac, b: Mac :: a != b && KeyOf(a) == KeyOf(b)
  {
    var a: Mac := [0, 0, 1, 0, 0, 0];
    var b: Mac := [0, 0, 0, 0, 0, 1];
    assert a[2] != b[2];
    assert KeyOf(a) == KeyOf(b);
  }

  // ----- when a key stands for one address only

  /** No byte but the last is zero. */
  predicate Unambiguous(m: Mac) {
    forall i :: 0 <= i < MAC_SIZE - 1 ==> m[i] != 0
  }

  lemma {:induction false} CStringPrefix(a: Mac, b: Mac, i: nat, n: nat)
    requires i <= n <= MAC_SIZE && a[i..n] == b[i..n] && (exists z :: i <= z < n && a[z] == 0)
    ensures CString(a, i) == CString(b, i)
    decreases n - i
  {
    assert a[i..n][0] == b[i..n][0];
    if a[i] != 0 {
      assert a[i..n][1..] == a[i + 1..n] && b[i..n][1..] == b[i + 1..n];
      CStringPrefix(a, b, i + 1, n);
    }
  }

  /** Equal strings have equal bytes up to and including the first that is not zero everywhere before. */
  lemma {:induction false} CStringBytes(a: Mac, b: Mac, i: nat)
    requires i <= MAC_SIZE && CString(a, i) == CString(b, i)
    requires forall z :: i <= z < MAC_SIZE - 1 ==> a[z] != 0
    ensures a[i..] == b[i..]
    decreases MAC_SIZE - i
  {
    if i < MAC_SIZE && a[i] != 0 {
      assert CString(a, i)[0] == a[i] && CString(a, i)[1..] == CString(a, i + 1);
      assert b[i] != 0 && CString(b, i)[0] == b[i] && CString(b, i)[1..] == CString(b, i + 1);
      CStringBytes(a, b, i + 1);
      assert a[i..] == [a[i]] + a[i + 1..] && b[i..] == [b[i]] + b[i + 1..];
    } else if i < MAC_SIZE {
      assert a[i..] == [0] && b[i..] == [0];
    }
  }

  function High(m: Mac): bv32 { (((m[0] ^ m[3]) as bv32) << 2) | (((m[1] ^ m[4]) as bv32) << 1) }

  function Or(high: bv32, low: octet): bv32 { high | (low as bv32) }

  function Xor(x: octet, y: octet): octet { x ^ y }

  /** Another low byte that hashes to the same bucket: bits that are set anyway are flipped, or, when there
      are none among the lowest eight, the number of buckets is added or subtracted. */
  lemma OtherLow(high: bv32, y: octet) returns (z: octet)
    requires high < 1024
    ensures z != y && Or(high, z) as int % PEER_HASH_TAB_SIZE == Or(high, y) as int % PEER_HASH_TAB_SIZE
  {
    hide Or;
    if high & 0xff != 0 {
      z := FlippedBits(high, y);
    } else if y < 128 {
      z := Plus53(y);
      AddedBuckets(high, y, z);
      ModPlus(Or(high, y) as int, Or(high, z) as int);
    } else {
      z := Minus53(y);
      AddedBuckets(high, z, y);
      ModPlus(Or(high, z) as int, Or(high, y) as int);
    }
  }

  lemma FlippedBits(high: bv32, y: octet) returns (z: octet)
    requires high & 0xff != 0
    ensures z != y && Or(high, z) == Or(high, y)
  {
    z := y ^ ((high & 0xff) as octet);
  }

  lemma Plus53(y: octet) returns (z: octet)
    requires y < 128
    ensures z != y && z == y + 53
  {
    z := y + 53;
  }

  lemma Minus53(y: octet) returns (z: octet)
    requires 128 <= y
    ensures z != y && y == z + 53 && z < 203
  {
    z := y - 53;
  }

  lemma AddedBuckets(high: bv32, y: octet, z: octet)
    requires high < 1024 && high & 0xff == 0 && y < 203 && z == y + 53
    ensures Or(high, z) as int == Or(high, y) as int + 53
  {
  }

  lemma ModPlus(n: int, m: int)
    requires m == n + PEER_HASH_TAB_SIZE
    ensures m % PEER_HASH_TAB_SIZE == n % PEER_HASH_TAB_SIZE
  {
  }

  lemma HashParts(m: Mac)
    ensures High(m) < 1024 && Hash(m) == Or(High(m), Xor(m[2], m[5]))
  {
  }

  lemma XorBack(x: octet, y: octet)
    ensures Xor(x, Xor(x, y)) == y
  {
  }

  /** Another last byte with the same bucket. */
  lemma LastByteWithSameBucket(a: Mac) returns (c: octet)
    ensures c != a[5] && Bucket(a[5 := c]) == Bucket(a)
  {
    hide High, Or, Xor, Hash;
    HashParts(a);
    var z := OtherLow(High(a), Xor(a[2], a[5]));
    c := Xor(a[2], z);
    XorBack(a[2], z);
    HashParts(a[5 := c]);
    SameHigh(a, c);
  }

  lemma SameHigh(a: Mac, c: octet)
    ensures High(a[5 := c]) == High(a)
  {
  }

  /** Exactly when the table's key identifies an address: a lookup can only find the very address if and
      only if none of its first five bytes is zero. */
  lemma KeyDecides(a: Mac)
    ensures (forall b: Mac :: KeyOf(b) == KeyOf(a) ==> b == a) <==> Unambiguous(a)
  {
    if Unambiguous(a) {
      forall b: Mac | KeyOf(b) == KeyOf(a) ensures b == a {
        CStringBytes(a, b, 0);
        assert a == a[0..] && b == b[0..];
      }
    } else {
      var c := LastByteWithSameBucket(a);
      var b: Mac := a[5 := c];
      assert a[0..5] == b[0..5];
      CStringPrefix(a, b, 0, 5);
      assert KeyOf(b) == KeyOf(a) && b[5] != a[5];
    }
  }

  // ----- the table

  datatype Peer = Peer(mac: Mac, community: Community, sock: Sock, sockets: seq<Sock>,
                       lastSeen: int, lastSentQuery: int, timeout: nat)

  class PeerInfo {
    const mac: Mac
    var community: Community
    var sock: Sock
    var sockets: seq<Sock>       // num_sockets of them
    var lastSeen: int
    var lastSentQuery: int
    var timeout: nat

    constructor (mac: Mac, sock: Sock)
      ensures this.mac == mac && Value() == Peer(mac, [], sock, [], 0, 0, 0)
    {
      this.mac, this.sock := mac, sock;
      community, sockets, lastSeen, lastSentQuery, timeout := [], [], 0, 0, 0;
    }

    method Write(v: Peer)
      requires v.mac == mac
      modifies this
      ensures Value() == v
    {
      community, sock, sockets := v.community, v.sock, v.sockets;
      lastSeen, lastSentQuery, timeout := v.lastSeen, v.lastSentQuery, v.timeout;
    }

    function Value(): Peer
      reads this
    {
      Peer(mac, community, sock, sockets, lastSeen, lastSentQuery, timeout)
    }
  }

  type PeerMap = map<Key, Peer>

  class Table {
    const buckets: array<seq<PeerInfo>>
    ghost var peers: map<Key, PeerInfo>
    ghost var view: PeerMap              // the entries as values
    ghost var Repr: set<object>

    ghost predicate Valid()
      reads this, Repr
    {
      && this in Repr && buckets in Repr && (forall k :: k in peers ==> peers[k] in Repr)
      && Linked()
      && Shows(peers, view)
    }

    /** Every list element is registered under its key, and the other way round; no element is linked
        twice. */
    ghost predicate Linked()
      reads this`peers, buckets
    {
      && buckets.Length == PEER_HASH_TAB_SIZE
      && (forall b :: 0 <= b < PEER_HASH_TAB_SIZE ==> ValidBucket(b, buckets[b]))
      && (forall k :: k in peers ==>
           k.bucket < PEER_HASH_TAB_SIZE && KeyOf(peers[k].mac) == k && peers[k] in buckets[k.bucket])
    }

    ghost predicate ValidBucket(b: nat, list: seq<PeerInfo>)
      reads this`peers
    {
      && (forall i :: 0 <= i < |list| ==> Bucket(list[i].mac) == b && Registered(list[i]))
      && (forall i, j :: 0 <= i < j < |list| ==> list[i] != list[j])
    }

    ghost predicate Registered(p: PeerInfo)
      reads this`peers
    {
      KeyOf(p.mac) in peers && peers[KeyOf(p.mac)] == p
    }

    constructor ()
      ensures Valid() && view == map[] && fresh(Repr)
    {
      buckets := new seq<PeerInfo>[PEER_HASH_TAB_SIZE](_ => []);
      peers, view := map[], map[];
      Repr := {this, buckets};
    }

    /** This very structure is an element of the table. */
    ghost predicate Has(p: PeerInfo)
      reads this
    {
      KeyOf(p.mac) in view && Registered(p) && p in Repr
    }

    /** sglib add. */
    method Add(p: PeerInfo)
      requires Valid() && KeyOf(p.mac) !in view
      modifies this, buckets
      ensures Valid() && Has(p) && Repr == old(Repr) + {p}
      ensures view == old(view)[KeyOf(p.mac) := p.Value()]
    {
      hide KeyOf, Linked, Shows, PeerInfo.Value;
      ShowsMore(peers, view, p);
      Link(p);
      view, Repr := view[KeyOf(p.mac) := p.Value()], Repr + {p};
    }

    /** sglib delete. */
    method Delete(p: PeerInfo)
      requires Valid() && Has(p)
      modifies this, buckets
      ensures Valid() && Repr == old(Repr) - {p}
      ensures view == old(view) - {KeyOf(p.mac)}
    {
      hide KeyOf, Linked;
      Unlink(p);
      view, Repr := view - {KeyOf(p.mac)}, Repr - {p};
    }

    /** Writes the fields of an entry where it stands. */
    method Assign(p: PeerInfo, v: Peer)
      requires Valid() && Has(p) && v.mac == p.mac
      modifies this`view, p
      ensures Valid() && Has(p) && p.Value() == v
      ensures view == old(view)[KeyOf(p.mac) := v]
    {
      hide KeyOf, Linked, Shows, ShowsBut, PeerInfo.Value;
      ShowsOthers(peers, view, p);
      p.Write(v);
      ShowsOne(peers, view, p);
      view := view[KeyOf(p.mac) := v];
    }

    /** purge_hashed_peer_list_t: removes exactly the entries last seen before the given time, and returns
        how many they were. */
    method Purge(before: int) returns (count: nat)
      requires Valid()
      modifies this, buckets
      ensures Valid() && Repr == old(Repr)
      ensures view == Unexpired(old(view), before)
      ensures count + |view| == |old(view)|
    {
      hide KeyOf, Linked, PeerInfo.Value, Shows, Fresh, Unexpired;
      ViewOfFresh(peers, view, before);
      count := PurgeLists(before);
      view := Unexpired(view, before);
    }

    /** sglib find_member. */
    method Find(mac: Mac) returns (r: PeerInfo?)
      requires Valid()
      ensures r == null <==> KeyOf(mac) !in view
      ensures r != null ==> KeyOf(r.mac) == KeyOf(mac) && Has(r) && r.Value() == view[KeyOf(mac)]
      ensures r != null && Unambiguous(mac) ==> r.mac == mac
    {
      hide Bucket, CString;
      var b := Bucket(mac);
      var list := buckets[b];
      var i: nat := 0;
      while i < |list|
        invariant i <= |list|
        invariant forall j :: 0 <= j < i ==> KeyOf(list[j].mac) != KeyOf(mac)
      {
        assert Registered(list[i]);
        StrEqualIsSameString(list[i].mac, mac, 0);
        if StrEqual(list[i].mac, mac, 0) { return list[i]; }
        i := i + 1;
      }
      return null;
    }

    /** The elements in the order of the sglib iterator, bucket by bucket: every entry once. */
    method Elements() returns (s: seq<PeerInfo>)
      requires Valid()
      ensures forall i :: 0 <= i < |s| ==> Has(s[i]) && s[i].Value() == view[KeyOf(s[i].mac)]
      ensures forall k :: k in view ==> exists i :: 0 <= i < |s| && KeyOf(s[i].mac) == k
      ensures forall i, j :: 0 <= i < j < |s| ==> KeyOf(s[i].mac) != KeyOf(s[j].mac)
    {
      hide Linked, KeyOf;
      LinkedBuckets();
      s := [];
      var b: nat := 0;
      while b < PEER_HASH_TAB_SIZE
        invariant b <= PEER_HASH_TAB_SIZE && Listed(s, b)
      {
        BucketListed(s, b);
        s := s + buckets[b];
        b := b + 1;
      }
    }

    /** The elements of the first b buckets, each once. */
    ghost predicate Listed(s: seq<PeerInfo>, b: nat)
      reads this`peers
    {
      && (forall i :: 0 <= i < |s| ==> Registered(s[i]) && KeyOf(s[i].mac).bucket < b)
      && (forall k :: k in peers && k.bucket < b ==> peers[k] in s)
      && (forall i, j :: 0 <= i < j < |s| ==> s[i] != s[j])
    }

    lemma BucketListed(s: seq<PeerInfo>, b: nat)
      requires Linked() && b < PEER_HASH_TAB_SIZE && Listed(s, b)
      ensures Listed(s + buckets[b], b + 1)
    {
      hide Bucket, CString;
      var all := s + buckets[b];
      forall i, j | 0 <= i < j < |all| ensures all[i] != all[j] {
        if i < |s| <= j {
          assert KeyOf(all[i].mac).bucket < b && KeyOf(all[j].mac).bucket == b;
        }
      }
    }

    /** A new head of its bucket. */
    method Link(p: PeerInfo)
      requires Linked() && KeyOf(p.mac) !in peers
      modifies this`peers, buckets
      ensures Linked() && peers == old(peers)[KeyOf(p.mac) := p]
    {
      hide Bucket, CString;
      var b := Bucket(p.mac);
      ghost var list := buckets[b];
      assert forall i :: 0 <= i < |list| ==> list[i] != p by {
        forall i | 0 <= i < |list| ensures list[i] != p { assert Registered(list[i]); }
      }
      buckets[b] := [p] + buckets[b];
      peers := peers[KeyOf(p.mac) := p];
    }

    /** Unlinks the very element. */
    method Unlink(p: PeerInfo)
      requires Linked() && Registered(p)
      modifies this`peers, buckets
      ensures Linked() && peers == old(peers) - {KeyOf(p.mac)}
    {
      hide Bucket, CString;
      var b := Bucket(p.mac);
      var list := buckets[b];
      assert p in list;
      var i: nat := 0;
      while i < |list| && list[i] != p
        invariant i <= |list| && p !in list[..i]
      {
        i := i + 1;
      }
      buckets[b] := list[..i] + list[i + 1..];
      peers := peers - {KeyOf(p.mac)};
    }

    lemma LinkedBuckets()
      requires Linked()
      ensures buckets.Length == PEER_HASH_TAB_SIZE && Keyed(peers)
      ensures forall k :: k in peers ==> k.bucket < PEER_HASH_TAB_SIZE
      ensures forall b :: 0 <= b < PEER_HASH_TAB_SIZE ==> ValidBucket(b, buckets[b])
    {
    }

    lemma OthersStay(list: seq<PeerInfo>, i: nat)
      requires i < |list| && forall a, b :: 0 <= a < b < |list| ==> list[a] != list[b]
      requires forall j :: i <= j < |list| ==> Registered(list[j])
      ensures forall j :: i < j < |list| ==> KeyOf(list[j].mac) != KeyOf(list[i].mac)
    {
      hide KeyOf;
      assert Registered(list[i]);
    }

    method PurgeOne(ll: PeerInfo, before: int) returns (gone: bool)
      requires Linked() && Registered(ll)
      modifies this`peers, buckets
      ensures Linked() && gone == (ll.lastSeen < before)
      ensures peers == if gone then old(peers) - {KeyOf(ll.mac)} else old(peers)
      ensures |peers| + (if gone then 1 else 0) == |old(peers)|
    {
      hide KeyOf, Linked;
      gone := ll.lastSeen < before;
      if gone {
        OneLess(peers, KeyOf(ll.mac));
        Unlink(ll);
      }
    }

    /** One bucket of the purge.  The list is walked as it was: the iterator holds the next element
        before the current one is deleted. */
    method PurgeBucket(b: nat, before: int) returns (count: nat, ghost gone: set<PeerInfo>)
      requires Linked() && b < PEER_HASH_TAB_SIZE
      modifies this`peers, buckets
      ensures Linked() && peers == Except(old(peers), gone)
      ensures gone == Expired(old(buckets[b]), before)
      ensures count + |peers| == |old(peers)|
    {
      hide KeyOf, Except, Expired, Linked;
      LinkedBuckets();
      ghost var was := peers;
      var list := buckets[b];
      assert forall j :: 0 <= j < |list| ==> Registered(list[j]);
      var i: nat := 0;
      count, gone := 0, {};
      ExceptNothing(was, list, before);
      while i < |list|
        invariant i <= |list| && Linked()
        invariant count + |peers| == |was|
        invariant peers == Except(was, gone) && gone == Expired(list[..i], before)
        invariant forall j :: i <= j < |list| ==> Registered(list[j])
      {
        var ll := list[i];
        assert Registered(ll);
        ExceptOneMore(was, gone, ll);
        ExpiredOneMore(list, i, before);
        OthersStay(list, i);
        var removed := PurgeOne(ll, before);
        if removed {
          count, gone := count + 1, gone + {ll};
        }
        i := i + 1;
      }
      assert list[..i] == list;
    }

    method PurgeLists(before: int) returns (count: nat)
      requires Linked()
      modifies this`peers, buckets
      ensures Linked() && peers == Fresh(old(peers), before)
      ensures count + |peers| == |old(peers)|
    {
      hide KeyOf, Except, Linked, ExpiredBelow;
      LinkedBuckets();
      ghost var was := peers;
      ghost var gone: set<PeerInfo> := {};
      var b: nat := 0;
      count := 0;
      ExceptNothing(was, [], before);
      while b < PEER_HASH_TAB_SIZE
        invariant b <= PEER_HASH_TAB_SIZE && Linked()
        invariant count + |peers| == |was|
        invariant peers == Except(was, gone) && ExpiredBelow(was, gone, b, before)
      {
        ghost var list := buckets[b];
        BucketExpires(was, gone, b, before);
        var c, g := PurgeBucket(b, before);
        ExceptBoth(was, gone, g);
        gone := gone + g;
        count, b := count + c, b + 1;
      }
      ExceptExpired(was, gone, before);
    }

    lemma BucketExpires(was: map<Key, PeerInfo>, gone: set<PeerInfo>, b: nat, before: int)
      requires Linked() && b < PEER_HASH_TAB_SIZE && Keyed(was)
      requires peers == Except(was, gone) && ExpiredBelow(was, gone, b, before)
      ensures ExpiredBelow(was, gone + Expired(buckets[b], before), b + 1, before)
    {
      hide Bucket, CString;
      forall k | k in was
        ensures was[k] in gone + Expired(buckets[b], before) <==> k.bucket < b + 1 && was[k].lastSeen < before
      {
        if was[k] in buckets[b] {
          var i :| 0 <= i < |buckets[b]| && buckets[b][i] == was[k];
        }
      }
    }
  }

  /** The entries, as values, are those of view; each stands under its own key. */
  ghost predicate Shows(ps: map<Key, PeerInfo>, view: PeerMap)
    reads ps.Values
  {
    && ps.Keys == view.Keys
    && forall k :: k in ps ==> KeyOf(ps[k].mac) == k && ps[k].Value() == view[k]
  }

  /** All entries but that for k are those of view. */
  ghost predicate ShowsBut(ps: map<Key, PeerInfo>, view: PeerMap, k: Key)
    reads set j | j in ps && j != k :: ps[j]
  {
    && ps.Keys == view.Keys
    && forall j :: j in ps && j != k ==> KeyOf(ps[j].mac) == j && ps[j].Value() == view[j]
  }

  lemma ShowsOthers(ps: map<Key, PeerInfo>, view: PeerMap, p: PeerInfo)
    requires Shows(ps, view) && KeyOf(p.mac) in ps && ps[KeyOf(p.mac)] == p
    ensures ShowsBut(ps, view, KeyOf(p.mac))
    ensures forall k :: k in ps && k != KeyOf(p.mac) ==> ps[k] != p
  {
    hide KeyOf, PeerInfo.Value;
  }

  lemma ShowsOne(ps: map<Key, PeerInfo>, view: PeerMap, p: PeerInfo)
    requires KeyOf(p.mac) in ps && ps[KeyOf(p.mac)] == p && ShowsBut(ps, view, KeyOf(p.mac))
    ensures Shows(ps, view[KeyOf(p.mac) := p.Value()])
  {
    hide KeyOf, PeerInfo.Value;
  }

  lemma ShowsMore(ps: map<Key, PeerInfo>, view: PeerMap, p: PeerInfo)
    requires Shows(ps, view) && KeyOf(p.mac) !in view
    ensures KeyOf(p.mac) !in ps && Shows(ps[KeyOf(p.mac) := p], view[KeyOf(p.mac) := p.Value()])
  {
    hide KeyOf, PeerInfo.Value;
  }

  /** The entries that have been seen since the given time. */
  function Unexpired(m: PeerMap, before: int): PeerMap {
    map k | k in m && m[k].lastSeen >= before :: m[k]
  }

  lemma ViewOfFresh(ps: map<Key, PeerInfo>, view: PeerMap, before: int)
    requires Shows(ps, view)
    ensures Shows(Fresh(ps, before), Unexpired(view, before))
    ensures forall k :: k in Fresh(ps, before) ==> k in ps && Fresh(ps, before)[k] == ps[k]
    ensures |ps| == |view| && |Fresh(ps, before)| == |Unexpired(view, before)|
  {
    hide KeyOf;
    SameSize(ps, view);
    SameSize(Fresh(ps, before), Unexpired(view, before));
  }

  lemma OneLess<A>(a: map<Key, A>, k: Key)
    requires k in a
    ensures |a - {k}| == |a| - 1
  {
    assert (a - {k}).Keys == a.Keys - {k};
    assert |(a - {k}).Keys| == |a.Keys| - 1;
  }

  lemma SameSize<A, B>(a: map<Key, A>, b: map<Key, B>)
    requires a.Keys == b.Keys
    ensures |a| == |b|
  {
    assert |a| == |a.Keys| && |b| == |b.Keys|;
  }

  ghost predicate Keyed(ps: map<Key, PeerInfo>) {
    forall k :: k in ps ==> KeyOf(ps[k].mac) == k
  }

  ghost function Except(ps: map<Key, PeerInfo>, gone: set<PeerInfo>): map<Key, PeerInfo> {
    map k | k in ps && ps[k] !in gone :: ps[k]
  }

  ghost function Expired(list: seq<PeerInfo>, before: int): set<PeerInfo>
    reads list
  {
    set p | p in list && p.lastSeen < before
  }

  ghost function Fresh(ps: map<Key, PeerInfo>, before: int): map<Key, PeerInfo>
    reads ps.Values
  {
    map k | k in ps && ps[k].lastSeen >= before :: ps[k]
  }

  ghost predicate ExpiredBelow(ps: map<Key, PeerInfo>, gone: set<PeerInfo>, b: nat, before: int)
    reads ps.Values
  {
    forall k :: k in ps ==> (ps[k] in gone <==> k.bucket < b && ps[k].lastSeen < before)
  }

  lemma ExceptBoth(ps: map<Key, PeerInfo>, a: set<PeerInfo>, b: set<PeerInfo>)
    ensures Except(Except(ps, a), b) == Except(ps, a + b)
  {
  }

  lemma ExceptExpired(ps: map<Key, PeerInfo>, gone: set<PeerInfo>, before: int)
    requires ExpiredBelow(ps, gone, PEER_HASH_TAB_SIZE, before)
    requires forall k :: k in ps ==> k.bucket < PEER_HASH_TAB_SIZE
    ensures Except(ps, gone) == Fresh(ps, before)
  {
  }

  lemma ExceptNothing(ps: map<Key, PeerInfo>, list: seq<PeerInfo>, before: int)
    ensures Except(ps, {}) == ps && Expired(list[..0], before) == {}
    ensures ExpiredBelow(ps, {}, 0, before)
  {
  }

  lemma ExceptOneMore(ps: map<Key, PeerInfo>, gone: set<PeerInfo>, p: PeerInfo)
    requires Keyed(ps) && KeyOf(p.mac) in ps && ps[KeyOf(p.mac)] == p
    ensures Except(ps, gone + {p}) == Except(ps, gone) - {KeyOf(p.mac)}
  {
    hide KeyOf;
  }

  lemma ExpiredOneMore(list: seq<PeerInfo>, i: nat, before: int)
    requires i < |list|
    ensures Expired(list[..i + 1], before)
         == if list[i].lastSeen < before then Expired(list[..i], before) + {list[i]} else Expired(list[..i], before)
  {
    assert list[..i + 1] == list[..i] + [list[i]];
  }
}
