/**
 * The packet senders. Each is bound to one local interface and one peer
 * address and decides, from the source of a packet and subnet residency,
 * whether to transmit it. A transmission is returned as a value; the socket
 * call itself belongs to the external socket layer.
 */
module Senders {
  import opened Net
  import opened Speedwire

  /** SpeedwirePacketSender and its two subclasses, as a closed set of variants. */
  datatype SenderKind = Base | Multicast | Unicast

  /** The fields a sender is given at construction and never changes afterwards. */
  datatype Sender = Sender(
    kind: SenderKind,
    localInterfaceIp: string,
    peerIp: string,
    isIpv4: bool,
    isIpv6: bool,
    localInterfaceIn4: IPv4,
    localInterfaceIn6: IPv6,
    prefixLength: uint32)

  /**
   * The SpeedwirePacketSender constructor: the interface text is classified
   * as IPv4, else IPv6, else invalid (neither flag); the prefix length is the
   * host's for that interface.
   */
  function NewSender(kind: SenderKind, host: LocalHost, localInterfaceIp: string, peerIp: string): (s: Sender)
    ensures s.kind == kind && s.localInterfaceIp == localInterfaceIp && s.peerIp == peerIp
    ensures !(s.isIpv4 && s.isIpv6)
    ensures s.isIpv4 || s.isIpv6 <==> host.isIpv4(localInterfaceIp) || host.isIpv6(localInterfaceIp)
    ensures s.isIpv4 == host.isIpv4(localInterfaceIp)
    ensures s.isIpv6 == (!host.isIpv4(localInterfaceIp) && host.isIpv6(localInterfaceIp))
    ensures s.isIpv4 ==> s.localInterfaceIn4 == host.toInAddress(localInterfaceIp)
    ensures s.isIpv6 ==> s.localInterfaceIn6 == host.toIn6Address(localInterfaceIp)
    ensures s.prefixLength == host.interfacePrefixLength(localInterfaceIp)
  {
    var base := Sender(kind, localInterfaceIp, peerIp, false, false, IPV4_ZERO, IPV6_ZERO,
                       host.interfacePrefixLength(localInterfaceIp));
    if host.isIpv4(localInterfaceIp) then
      base.(localInterfaceIn4 := host.toInAddress(localInterfaceIp), isIpv4 := true)
    else if host.isIpv6(localInterfaceIp) then
      base.(localInterfaceIn6 := host.toIn6Address(localInterfaceIp), isIpv6 := true)
    else base
  }

  /**
   * MulticastPacketSender::send decides to forward when the source has the
   * interface's address family and does not reside on the interface's subnet.
   */
  predicate MulticastForwards(s: Sender, src: SockAddr)
  {
    match src
    case Inet(a, _) => s.isIpv4 && !ResideOnSameSubnet(a, s.localInterfaceIn4, s.prefixLength)
    case Inet6(a, _) => s.isIpv6 && !ResideOnSameSubnet(a, s.localInterfaceIn6, s.prefixLength)
    case OtherFamily(_) => false
  }

  /**
   * UnicastPacketSender::send decides by the source family alone, ignoring the
   * interface flags: forward when the source does not reside on the peer's
   * subnet under the interface's prefix length.
   */
  predicate UnicastForwards(s: Sender, host: LocalHost, src: SockAddr)
  {
    match src
    case Inet(a, _) => !ResideOnSameSubnet(a, host.toInAddress(s.peerIp), s.prefixLength)
    case Inet6(a, _) => !ResideOnSameSubnet(a, host.toIn6Address(s.peerIp), s.prefixLength)
    case OtherFamily(_) => false
  }

  /** Where a unicast sender transmits: the peer, at the speedwire port, in the source's family. */
  function UnicastDestination(s: Sender, host: LocalHost, src: SockAddr): SockAddr
  {
    if src.Inet6? then Inet6(host.toIn6Address(s.peerIp), SPEEDWIRE_PORT)
    else Inet(host.toInAddress(s.peerIp), SPEEDWIRE_PORT)
  }

  /** send: the transmissions one call makes. A short write is logged, never retried. */
  function Send(s: Sender, host: LocalHost, packet: PacketBytes, src: SockAddr): (sent: seq<Transmission>)
    ensures |sent| <= 1
    ensures s.kind == Base ==> sent == []
    ensures s.kind == Multicast ==> (sent != [] <==> MulticastForwards(s, src))
    ensures s.kind == Unicast ==> (sent != [] <==> UnicastForwards(s, host, src))
    ensures forall t :: t in sent ==> t.packet == packet && t.via == s.localInterfaceIp
    ensures forall t :: t in sent ==>
      t.destination == if s.kind == Multicast then SocketDefault else ToAddress(UnicastDestination(s, host, src))
  {
    match s.kind
    case Base => []
    case Multicast =>
      if MulticastForwards(s, src) then [Transmission(s.localInterfaceIp, SocketDefault, packet)] else []
    case Unicast =>
      if UnicastForwards(s, host, src) then [Transmission(s.localInterfaceIp, ToAddress(UnicastDestination(s, host, src)), packet)] else []
  }

  /**
   * The multicast anti-loop rule: a packet whose source resides on the
   * interface's subnet, the interface's own address included, is never
   * re-emitted there; nor is one of the other family, nor any packet at all
   * when the interface address was invalid.
   */
  lemma {:induction false} MulticastNeverEchoes(s: Sender, host: LocalHost, packet: PacketBytes, src: SockAddr)
    requires s.kind == Multicast
    requires || (src.Inet? && (!s.isIpv4 || ResideOnSameSubnet(src.addr, s.localInterfaceIn4, s.prefixLength)))
             || (src.Inet6? && (!s.isIpv6 || ResideOnSameSubnet(src.addr6, s.localInterfaceIn6, s.prefixLength)))
             || src.OtherFamily?
             || (!s.isIpv4 && !s.isIpv6)
    ensures Send(s, host, packet, src) == []
  {
  }

  /** A sender whose interface text is no address never transmits, whatever the source. */
  lemma {:induction false} InvalidInterfaceIsInert(host: LocalHost, localInterfaceIp: string, peerIp: string, packet: PacketBytes, src: SockAddr)
    requires !host.isIpv4(localInterfaceIp) && !host.isIpv6(localInterfaceIp)
    ensures Send(NewSender(Multicast, host, localInterfaceIp, peerIp), host, packet, src) == []
  {
  }

  /**
   * A unicast transmission goes to the peer at port 9522 and never back to the
   * source: the source is off the peer's subnet, so it is not the peer.
   */
  lemma {:induction false} UnicastNeverReturnsToSource(s: Sender, host: LocalHost, packet: PacketBytes, src: SockAddr)
    requires s.kind == Unicast && Send(s, host, packet, src) != []
    ensures var d := Send(s, host, packet, src)[0].destination;
      && d.ToAddress?
      && (src.Inet? ==> d.addr == Inet(host.toInAddress(s.peerIp), SPEEDWIRE_PORT) && src.addr != d.addr.addr)
      && (src.Inet6? ==> d.addr == Inet6(host.toIn6Address(s.peerIp), SPEEDWIRE_PORT) && src.addr6 != d.addr.addr6)
  {
  }

  /**
   * A multicast sender on 10.0.0.1/24 keeps a packet from 10.0.0.5 off the
   * wire and forwards one from 10.0.1.5.
   */
  lemma {:induction false} SubnetExclusionExample(host: LocalHost, ip: string, peerIp: string, packet: PacketBytes, port: uint16)
    requires host.isIpv4(ip) && host.toInAddress(ip) == Ipv4(10, 0, 0, 1) && host.interfacePrefixLength(ip) == 24
    ensures Send(NewSender(Multicast, host, ip, peerIp), host, packet, Inet(Ipv4(10, 0, 0, 5), port)) == []
    ensures |Send(NewSender(Multicast, host, ip, peerIp), host, packet, Inet(Ipv4(10, 0, 1, 5), port))| == 1
  {
    var s := NewSender(Multicast, host, ip, peerIp);
    var net := OctetBits(10) + OctetBits(0) + OctetBits(0);
    assert Ipv4(10, 0, 0, 1)[..24] == net;
    assert Ipv4(10, 0, 0, 5)[..24] == net;
    forall i | 0 <= i < 24
      ensures Ipv4(10, 0, 0, 5)[i] == s.localInterfaceIn4[i]
    {
      assert Ipv4(10, 0, 0, 5)[..24][i] == Ipv4(10, 0, 0, 1)[..24][i];
    }
    assert Ipv4(10, 0, 1, 5)[23] == OctetBits(1)[7];
    assert Ipv4(10, 0, 0, 1)[23] == OctetBits(0)[7];
  }

  /** The inner `for sender : senders` loop: every sender's transmissions, in vector order. */
  function SendToAll(senders: seq<Sender>, host: LocalHost, packet: PacketBytes, src: SockAddr): (sent: seq<Transmission>)
    ensures |sent| <= |senders|
    decreases |senders|
  {
    if senders == [] then []
    else
      var k := |senders| - 1;
      SendToAll(senders[..k], host, packet, src) + Send(senders[k], host, packet, src)
  }

  /** A transmission of the fan-out is exactly one made by one of the senders. */
  lemma {:induction false} SendToAllMembership(senders: seq<Sender>, host: LocalHost, packet: PacketBytes, src: SockAddr, t: Transmission)
    ensures t in SendToAll(senders, host, packet, src) <==>
      exists s :: s in senders && t in Send(s, host, packet, src)
  {
    if senders != [] {
      var k := |senders| - 1;
      var init := senders[..k];
      SendToAllMembership(init, host, packet, src, t);
      assert senders == init + [senders[k]];
      if s :| s in senders && t in Send(s, host, packet, src) {
        assert s in init || s == senders[k];
      }
    }
  }
}
