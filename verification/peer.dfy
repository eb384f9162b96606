/**
 A DHT peer (`DhtNode`): a public key and one liveness record per address
 family. Construction classifies the address it is learned from; queries pick
 the address to talk to.
 */
module Peer {
  import opened Wrappers
  import opened Net
  import Liveness

  type Instant = Liveness.Instant

  /** A peer's public key; the model never looks inside it. */
  datatype PublicKey = PublicKey(bytes: seq<u8>)

  /** A public key with one socket address, as it travels in DHT packets. */
  datatype PackedNode = PackedNode(saddr: SocketAddr, pk: PublicKey)

  datatype DhtNode = DhtNode(
    assoc4: Liveness.SockAndTime<SocketAddrV4>,
    assoc6: Liveness.SockAndTime<SocketAddrV6>,
    pk: PublicKey)

  /** Every stamp of both families was taken at or before `now`. */
  predicate ValidAt(n: DhtNode, now: Instant)
  {
    Liveness.ValidAt(n.assoc4, now) && Liveness.ValidAt(n.assoc6, now)
  }

  /** The address family slots a `PackedNode` address goes to. */
  function Classify(saddr: SocketAddr): (Option<SocketAddrV4>, Option<SocketAddrV6>)
  {
    match saddr
    case V4(v4) => (Some(v4), None)
    case V6(v6) =>
      match ToIpv4(v6.ip)
      case Some(ip4) => (Some(SocketAddrV4(ip4, v6.port)), None)
      case None => (None, Some(v6))
  }

  /**
   `DhtNode::new`: exactly one family receives the address; an IPv6 address
   that `to_ipv4` accepts lands in the IPv4 slot with the same port.
   */
  function New(pn: PackedNode, now: Instant): (n: DhtNode)
    ensures n.pk == pn.pk
    ensures n.assoc4.saddr.Some? != n.assoc6.saddr.Some?
    ensures pn.saddr.V4? ==> n.assoc4.saddr == Some(pn.saddr.v4)
    ensures pn.saddr.V6? && ToIpv4(pn.saddr.v6.ip).Some? ==>
              n.assoc4.saddr == Some(SocketAddrV4(ToIpv4(pn.saddr.v6.ip).value, pn.saddr.v6.port))
    ensures pn.saddr.V6? && ToIpv4(pn.saddr.v6.ip).None? ==> n.assoc6.saddr == Some(pn.saddr.v6)
    ensures n.assoc4 == Liveness.New(n.assoc4.saddr, now) && n.assoc6 == Liveness.New(n.assoc6.saddr, now)
    ensures ValidAt(n, now)
    ensures !IsBad(n, now)
  {
    var (v4, v6) := Classify(pn.saddr);
    DhtNode(Liveness.New(v4, now), Liveness.New(v6, now), pn.pk)
  }

  /** `is_bad`: bad on both families. */
  predicate IsBad(n: DhtNode, now: Instant)
  {
    Liveness.IsBad(n.assoc4, now) && Liveness.IsBad(n.assoc6, now)
  }

  /** `is_discarded`: discarded on both families. */
  predicate IsDiscarded(n: DhtNode, now: Instant)
  {
    Liveness.IsDiscarded(n.assoc4, now) && Liveness.IsDiscarded(n.assoc6, now)
  }

  /** `a` is an address of `n` in a family the caller accepts. */
  predicate Available(n: DhtNode, ipv6: bool, a: SocketAddr)
  {
    match a
    case V4(v4) => n.assoc4.saddr == Some(v4)
    case V6(v6) => ipv6 && n.assoc6.saddr == Some(v6)
  }

  function V4Of(v4: Option<SocketAddrV4>): seq<SocketAddr>
  {
    match v4
    case Some(a) => [V4(a)]
    case None => []
  }

  function V6Of(v6: Option<SocketAddrV6>): seq<SocketAddr>
  {
    match v6
    case Some(a) => [V6(a)]
    case None => []
  }

  /** `get_all_addrs`: the available addresses, IPv4 first, IPv6 only in IPv6 mode. */
  function GetAllAddrs(n: DhtNode, ipv6: bool): (r: seq<SocketAddr>)
    ensures |r| <= 2
    ensures forall a :: a in r <==> Available(n, ipv6, a)
    ensures |r| == 2 ==> r[0].V4? && r[1].V6?
  {
    if ipv6 then V4Of(n.assoc4.saddr) + V6Of(n.assoc6.saddr) else V4Of(n.assoc4.saddr)
  }

  /**
   `get_socket_addr`: one of the available addresses, absent only when there
   is none. With both families present the IPv4 one wins unless the IPv6 one
   answered strictly later (`None` counting as earliest).
   */
  function GetSocketAddr(n: DhtNode, ipv6: bool): (r: Option<SocketAddr>)
    ensures r.Some? ==> r.value in GetAllAddrs(n, ipv6)
    ensures r.None? <==> GetAllAddrs(n, ipv6) == []
    ensures ipv6 && n.assoc4.saddr.Some? && n.assoc6.saddr.Some? ==>
              (r == Some(V4(n.assoc4.saddr.value))
               <==> Liveness.OptionLe(n.assoc6.lastRespTime, n.assoc4.lastRespTime))
  {
    var v4 := match n.assoc4.saddr case Some(a) => Some(V4(a)) case None => None;
    if ipv6 then
      match n.assoc6.saddr
      case Some(a6) =>
        if v4.Some? && Liveness.OptionLe(n.assoc6.lastRespTime, n.assoc4.lastRespTime) then v4
        else Some(V6(a6))
      case None => v4
    else
      v4
  }

  /** `to_packed_node`: the chosen address with the node's key. */
  function ToPackedNode(n: DhtNode, ipv6: bool): (r: Option<PackedNode>)
    ensures r.None? <==> GetSocketAddr(n, ipv6).None?
    ensures r.Some? ==> r.value.pk == n.pk && GetSocketAddr(n, ipv6) == Some(r.value.saddr)
  {
    match GetSocketAddr(n, ipv6)
    case Some(a) => Some(PackedNode(a, n.pk))
    case None => None
  }

  /** `to_all_packed_nodes`: one packed node per available address, all with the node's key. */
  function ToAllPackedNodes(n: DhtNode, ipv6: bool): (r: seq<PackedNode>)
    ensures |r| == |GetAllAddrs(n, ipv6)|
    ensures forall p :: p in r <==> p.pk == n.pk && Available(n, ipv6, p.saddr)
    ensures |r| == 2 ==> r[0].saddr.V4? && r[1].saddr.V6?
  {
    var addrs := GetAllAddrs(n, ipv6);
    var r := seq(|addrs|, i requires 0 <= i < |addrs| => PackedNode(addrs[i], n.pk));
    assert forall p :: p in r ==> p.saddr in addrs;
    assert forall a :: a in addrs ==> PackedNode(a, n.pk) in r by {
      forall a | a in addrs ensures PackedNode(a, n.pk) in r {
        var i :| 0 <= i < |addrs| && addrs[i] == a;
        assert r[i] == PackedNode(a, n.pk);
      }
    }
    r
  }

  /** The liveness part of a record: everything but the returned address. */
  predicate SameLiveness<T(==)>(a: Liveness.SockAndTime<T>, b: Liveness.SockAndTime<T>)
  {
    a.saddr == b.saddr && a.lastRespTime == b.lastRespTime && a.lastPingReqTime == b.lastPingReqTime
  }

  /** `update_returned_addr`: records a third party's report in the matching family only. */
  function UpdateReturnedAddr(n: DhtNode, addr: SocketAddr, now: Instant): (r: DhtNode)
    ensures r.pk == n.pk
    ensures SameLiveness(r.assoc4, n.assoc4) && SameLiveness(r.assoc6, n.assoc6)
    ensures addr.V4? ==> r.assoc6 == n.assoc6
                         && r.assoc4.retSaddr == Some(addr.v4) && r.assoc4.retLastRespTime == Some(now)
    ensures addr.V6? ==> r.assoc4 == n.assoc4
                         && r.assoc6.retSaddr == Some(addr.v6) && r.assoc6.retLastRespTime == Some(now)
  {
    match addr
    case V4(v4) => n.(assoc4 := n.assoc4.(retSaddr := Some(v4), retLastRespTime := Some(now)))
    case V6(v6) => n.(assoc6 := n.assoc6.(retSaddr := Some(v6), retLastRespTime := Some(now)))
  }

  /** A node is discarded only after being bad; one that never answered is both. */
  lemma DiscardedNodeIsBad(n: DhtNode, now: Instant)
    ensures IsDiscarded(n, now) ==> IsBad(n, now)
    ensures n.assoc4.lastRespTime == None && n.assoc6.lastRespTime == None ==> IsDiscarded(n, now)
  {
    Liveness.DiscardedIsBad(n.assoc4, now);
    Liveness.DiscardedIsBad(n.assoc6, now);
  }

  /** A peer learned from an IPv4-mapped IPv6 address is an IPv4-only peer on the same port. */
  lemma NewFromMappedIsIpv4(ip: Ipv4Addr, port: u16, flowinfo: u32, scopeId: u32, pk: PublicKey, now: Instant)
    ensures var n := New(PackedNode(V6(SocketAddrV6(Ipv4Mapped(ip), port, flowinfo, scopeId)), pk), now);
            n.assoc4.saddr == Some(SocketAddrV4(ip, port)) && n.assoc6.saddr == None
  {
    Net.ToIpv4Inverse(Ipv4Mapped(ip), ip);
  }

  /** The IPv6 loopback `::1` is IPv4-compatible, so it becomes the IPv4 address 0.0.0.1. */
  lemma NewFromIpv6LoopbackIsIpv4(port: u16, pk: PublicKey, now: Instant)
    ensures var loopback := Ipv6Addr([0, 0, 0, 0, 0, 0, 0, 1]);
            var n := New(PackedNode(V6(SocketAddrV6(loopback, port, 0, 0)), pk), now);
            n.assoc4.saddr == Some(SocketAddrV4(Ipv4Addr(0, 0, 0, 1), port)) && n.assoc6.saddr == None
  {
    Net.ToIpv4Inverse(Ipv6Addr([0, 0, 0, 0, 0, 0, 0, 1]), Ipv4Addr(0, 0, 0, 1));
  }

  /**
   A freshly created node packs back to the packed node it came from, except
   that an address `to_ipv4` accepts comes back as IPv4, and an IPv6-only
   node has no address in IPv4 mode.
   */
  lemma NewThenToPackedNode(pn: PackedNode, ipv6: bool, now: Instant)
    ensures pn.saddr.V4? ==> ToPackedNode(New(pn, now), ipv6) == Some(pn)
    ensures pn.saddr.V6? && ToIpv4(pn.saddr.v6.ip).Some? ==>
              ToPackedNode(New(pn, now), ipv6)
              == Some(PackedNode(V4(SocketAddrV4(ToIpv4(pn.saddr.v6.ip).value, pn.saddr.v6.port)), pn.pk))
    ensures pn.saddr.V6? && ToIpv4(pn.saddr.v6.ip).None? ==>
              ToPackedNode(New(pn, now), ipv6) == (if ipv6 then Some(pn) else None)
  {
  }

  /** The single chosen packed node is one of all the packed nodes, and exists exactly when they do. */
  lemma ToPackedNodeAmongAll(n: DhtNode, ipv6: bool)
    ensures ToPackedNode(n, ipv6).Some? ==> ToPackedNode(n, ipv6).value in ToAllPackedNodes(n, ipv6)
    ensures ToPackedNode(n, ipv6).None? <==> ToAllPackedNodes(n, ipv6) == []
  {
  }

  /** A reported address changes neither health nor the addresses the node is reached on. */
  lemma UpdateReturnedAddrKeepsHealth(n: DhtNode, addr: SocketAddr, now: Instant, t: Instant, ipv6: bool)
    ensures var r := UpdateReturnedAddr(n, addr, now);
            IsBad(r, t) == IsBad(n, t) && IsDiscarded(r, t) == IsDiscarded(n, t)
            && GetSocketAddr(r, ipv6) == GetSocketAddr(n, ipv6)
            && GetAllAddrs(r, ipv6) == GetAllAddrs(n, ipv6)
    ensures ValidAt(n, now) ==> ValidAt(UpdateReturnedAddr(n, addr, now), now)
  {
  }

  /** Stamps valid now stay valid later. */
  lemma ValidAtLater(n: DhtNode, now: Instant, later: Instant)
    requires ValidAt(n, now) && now <= later
    ensures ValidAt(n, later)
  {
    Liveness.ValidAtLater(n.assoc4, now, later);
    Liveness.ValidAtLater(n.assoc6, now, later);
  }
}
