/**
 * The wiring of the relay: which senders exist (one multicast sender per
 * local IPv4 interface, one unicast sender per device that no interface
 * reaches by multicast), and how one received datagram travels from the
 * receivers to the senders.
 */
module Relay {
  import opened Net
  import opened Speedwire
  import opened Bounce
  import opened Patching
  import opened Senders
  import opened Receivers

  /** A discovered device: its address and the local interface it was found through. */
  datatype Device = Device(peerIpAddress: string, interfaceIpAddress: string)

  /** The text of the speedwire multicast group address, the peer of every multicast sender. */
  const SPEEDWIRE_MULTICAST_GROUP: string := "239.12.255.254"

  /** The peer resides on the subnet of local interface `addr`, under that interface's prefix length. */
  predicate PeerOnInterfaceSubnet(host: LocalHost, peerIp: string, addr: string)
  {
    ResideOnSameSubnet(host.toInAddress(peerIp), host.toInAddress(addr), host.interfacePrefixLength(addr))
  }

  /** Some local IPv4 interface shares the peer's subnet. */
  predicate ReachableByMulticast(host: LocalHost, peerIp: string)
  {
    exists addr :: addr in host.localIPv4Addresses && PeerOnInterfaceSubnet(host, peerIp, addr)
  }

  /** The first loop: a multicast sender per interface address, in enumeration order. */
  function MulticastSenders(host: LocalHost, addrs: seq<string>): seq<Sender>
    decreases |addrs|
  {
    if addrs == [] then []
    else
      var k := |addrs| - 1;
      MulticastSenders(host, addrs[..k]) + [NewSender(Multicast, host, addrs[k], SPEEDWIRE_MULTICAST_GROUP)]
  }

  /** The second loop: a unicast sender per device no interface reaches, in device order. */
  function UnicastSenders(host: LocalHost, devices: seq<Device>): seq<Sender>
    decreases |devices|
  {
    if devices == [] then []
    else
      var k := |devices| - 1;
      var d := devices[k];
      UnicastSenders(host, devices[..k]) +
      (if ReachableByMulticast(host, d.peerIpAddress) then []
       else [NewSender(Unicast, host, d.interfaceIpAddress, d.peerIpAddress)])
  }

  /** The sender vector main builds: the multicast senders first, then the unicast ones. */
  function ConfiguredSenders(host: LocalHost, devices: seq<Device>): seq<Sender>
  {
    MulticastSenders(host, host.localIPv4Addresses) + UnicastSenders(host, devices)
  }

  /** Exactly one multicast sender per interface address, the i-th bound to the i-th address. */
  lemma {:induction false} MulticastSenderPerInterface(host: LocalHost, addrs: seq<string>)
    ensures var senders := MulticastSenders(host, addrs);
      && |senders| == |addrs|
      && forall i :: 0 <= i < |addrs| ==>
           senders[i] == NewSender(Multicast, host, addrs[i], SPEEDWIRE_MULTICAST_GROUP)
  {
    if addrs != [] {
      var k := |addrs| - 1;
      MulticastSenderPerInterface(host, addrs[..k]);
      var senders := MulticastSenders(host, addrs);
      forall i | 0 <= i < |addrs|
        ensures senders[i] == NewSender(Multicast, host, addrs[i], SPEEDWIRE_MULTICAST_GROUP)
      {
        if i < k {
          assert addrs[..k][i] == addrs[i];
        }
      }
    }
  }

  /**
   * A unicast sender exists exactly for a device whose peer address lies on
   * no local interface's subnet; it is bound to the device's interface and
   * addresses the device.
   */
  lemma {:induction false} UnicastSenderIffUnreachable(host: LocalHost, devices: seq<Device>, s: Sender)
    ensures s in UnicastSenders(host, devices) <==>
      exists d :: d in devices && !ReachableByMulticast(host, d.peerIpAddress) &&
        s == NewSender(Unicast, host, d.interfaceIpAddress, d.peerIpAddress)
  {
    if devices != [] {
      var k := |devices| - 1;
      var before := devices[..k];
      UnicastSenderIffUnreachable(host, before, s);
      assert devices == before + [devices[k]];
      if d :| d in devices && !ReachableByMulticast(host, d.peerIpAddress) &&
              s == NewSender(Unicast, host, d.interfaceIpAddress, d.peerIpAddress) {
        assert d in before || d == devices[k];
      }
    }
  }

  /** A device on the subnet of some interface gets no unicast sender: multicast reaches it. */
  lemma {:induction false} ReachableDeviceGetsNoUnicastSender(host: LocalHost, devices: seq<Device>, d: Device)
    requires d in devices && ReachableByMulticast(host, d.peerIpAddress)
    ensures NewSender(Unicast, host, d.interfaceIpAddress, d.peerIpAddress) !in UnicastSenders(host, devices)
  {
    var s := NewSender(Unicast, host, d.interfaceIpAddress, d.peerIpAddress);
    UnicastSenderIffUnreachable(host, devices, s);
  }

  /** The search of main's inner loop: scan the interfaces, stopping at the first that shares the peer's subnet. */
  method IsReachableByMulticast(host: LocalHost, peerIp: string) returns (reachable: bool)
    ensures reachable <==> ReachableByMulticast(host, peerIp)
  {
    var addrs := host.localIPv4Addresses;
    reachable := false;
    var j := 0;
    while j < |addrs|
      invariant 0 <= j <= |addrs|
      invariant forall m :: 0 <= m < j ==> !PeerOnInterfaceSubnet(host, peerIp, addrs[m])
    {
      if PeerOnInterfaceSubnet(host, peerIp, addrs[j]) {
        reachable := true;
        return;
      }
      j := j + 1;
    }
  }

  /**
   * The sender-list construction of main: push a multicast sender per
   * address, then for each device search the interfaces for one sharing its
   * subnet, stopping at the first, and push a unicast sender when none does.
   */
  method ConfigureSenders(host: LocalHost, devices: seq<Device>) returns (senders: seq<Sender>)
    ensures senders == ConfiguredSenders(host, devices)
  {
    var addrs := host.localIPv4Addresses;
    senders := [];
    var i := 0;
    while i < |addrs|
      invariant 0 <= i <= |addrs|
      invariant senders == MulticastSenders(host, addrs[..i])
    {
      assert addrs[..i + 1][..i] == addrs[..i];
      senders := senders + [NewSender(Multicast, host, addrs[i], SPEEDWIRE_MULTICAST_GROUP)];
      i := i + 1;
    }
    assert addrs[..i] == addrs;
    ghost var multicast := senders;
    var n := 0;
    while n < |devices|
      invariant 0 <= n <= |devices|
      invariant senders == multicast + UnicastSenders(host, devices[..n])
    {
      var peerIp := devices[n].peerIpAddress;
      var reachable := IsReachableByMulticast(host, peerIp);
      assert devices[..n + 1][..n] == devices[..n];
      if !reachable {
        senders := senders + [NewSender(Unicast, host, devices[n].interfaceIpAddress, peerIp)];
      }
      n := n + 1;
    }
    assert devices[..n] == devices;
  }

  /** The inner `for sender : senders` loop: every sender's send, in vector order. */
  method ForwardToSenders(senders: seq<Sender>, host: LocalHost, packet: PacketBytes, src: SockAddr) returns (sent: seq<Transmission>)
    ensures sent == SendToAll(senders, host, packet, src)
  {
    sent := [];
    var i := 0;
    while i < |senders|
      invariant 0 <= i <= |senders|
      invariant sent == SendToAll(senders[..i], host, packet, src)
    {
      assert senders[..i + 1][..i] == senders[..i];
      sent := sent + Send(senders[i], host, packet, src);
      i := i + 1;
    }
    assert senders[..i] == senders;
  }

  /** What the senders emit for a receiver's status: the whole fan-out on FORWARD, nothing otherwise. */
  function Fanout(status: PacketStatus, senders: seq<Sender>, host: LocalHost, packet: PacketBytes, src: SockAddr): seq<Transmission>
  {
    if status == Forward then SendToAll(senders, host, packet, src) else []
  }

  /**
   * The emeter receiver patches before the inverter receiver sees the
   * datagram: the bytes both fan-outs carry.
   */
  function BytesAfterEmeter(v: Verdict, packet: PacketBytes): PacketBytes
  {
    if v.Accepted? then PatchedPacket(packet, MaxNegativeActivePowerTotal()) else packet
  }

  /**
   * The relay: the host services, the two registered receivers (emeter first,
   * then inverter) and the sender vector.
   */
  class Router {
    const host: LocalHost
    const emeterReceiver: EmeterPacketReceiver
    const inverterReceiver: InverterPacketReceiver
    const senders: seq<Sender>

    /** Both receivers are well formed and own separate detectors. */
    ghost predicate Valid()
      reads this, emeterReceiver, inverterReceiver
      reads emeterReceiver.bounceDetector, emeterReceiver.bounceDetector.history
      reads inverterReceiver.bounceDetector, inverterReceiver.bounceDetector.history
    {
      emeterReceiver.Valid() && inverterReceiver.Valid() &&
      emeterReceiver.bounceDetector != inverterReceiver.bounceDetector &&
      emeterReceiver.bounceDetector.history != inverterReceiver.bounceDetector.history
    }

    /** Set up as main does: two fresh receivers and the configured senders. */
    constructor (host: LocalHost, devices: seq<Device>, fingerprintHeader: HeaderFingerprinter)
      ensures Valid()
      ensures this.host == host && senders == ConfiguredSenders(host, devices)
      ensures emeterReceiver.bounceDetector.received == [] && inverterReceiver.bounceDetector.received == []
      ensures inverterReceiver.fingerprintHeader == fingerprintHeader
      ensures fresh(emeterReceiver.bounceDetector) && fresh(emeterReceiver.bounceDetector.history)
      ensures fresh(inverterReceiver.bounceDetector) && fresh(inverterReceiver.bounceDetector.history)
    {
      var configured := ConfigureSenders(host, devices);
      this.host := host;
      emeterReceiver := new EmeterPacketReceiver();
      inverterReceiver := new InverterPacketReceiver(fingerprintHeader);
      senders := configured;
    }

    /**
     * The routing of one received datagram: a datagram failing the header
     * check reaches no receiver; otherwise each receiver in turn gets it, and
     * each FORWARD status sends it through every sender in order.
     */
    method Dispatch(packet: Datagram, src: SockAddr, now: uint32) returns (trace: seq<Transmission>)
      requires Valid()
      modifies emeterReceiver.bounceDetector, emeterReceiver.bounceDetector.history
      modifies inverterReceiver.bounceDetector, inverterReceiver.bounceDetector.history
      modifies packet.elements
      ensures Valid()
      ensures !packet.header.checkHeader ==>
        && trace == []
        && packet.Bytes() == old(packet.Bytes())
        && emeterReceiver.bounceDetector.received == old(emeterReceiver.bounceDetector.received)
        && inverterReceiver.bounceDetector.received == old(inverterReceiver.bounceDetector.received)
      ensures packet.header.checkHeader ==>
        var v1 := EmeterVerdict(old(emeterReceiver.bounceDetector.GetHistory()), packet.header, src, now);
        var v2 := InverterVerdict(old(inverterReceiver.bounceDetector.GetHistory()), packet.header, src, now, inverterReceiver.fingerprintHeader);
        var bytes := BytesAfterEmeter(v1, old(packet.Bytes()));
        && packet.Bytes() == bytes
        && emeterReceiver.bounceDetector.received == old(emeterReceiver.bounceDetector.received) + Recorded(v1)
        && inverterReceiver.bounceDetector.received == old(inverterReceiver.bounceDetector.received) + Recorded(v2)
        && trace == Fanout(StatusOf(v1), senders, host, bytes, src) + Fanout(StatusOf(v2), senders, host, bytes, src)
      ensures |trace| <= |senders|
    {
      trace := [];
      if !packet.header.checkHeader {
        return;
      }
      ghost var h1 := emeterReceiver.bounceDetector.GetHistory();
      ghost var h2 := inverterReceiver.bounceDetector.GetHistory();
      ghost var v1 := EmeterVerdict(h1, packet.header, src, now);
      ghost var v2 := InverterVerdict(h2, packet.header, src, now, inverterReceiver.fingerprintHeader);
      ghost var bytes := BytesAfterEmeter(v1, packet.Bytes());
      ReceiversAreDisjoint(h1, h2, packet.header, src, now, inverterReceiver.fingerprintHeader);
      var status := emeterReceiver.Receive(packet, src, now);
      assert status == StatusOf(v1) && packet.Bytes() == bytes;
      if status == Forward {
        var sent := ForwardToSenders(senders, host, packet.Bytes(), src);
        trace := trace + sent;
      }
      assert trace == Fanout(StatusOf(v1), senders, host, bytes, src);
      status := inverterReceiver.Receive(packet, src, now);
      assert status == StatusOf(v2) && packet.Bytes() == bytes;
      if status == Forward {
        var sent := ForwardToSenders(senders, host, packet.Bytes(), src);
        trace := trace + sent;
      }
    }
  }

  /**
   * The verdicts behind an echo: on fresh detectors an emeter packet with a
   * non-zero time is accepted by the emeter receiver and ignored by the
   * inverter receiver; once its fingerprint is recorded, the same packet from
   * any source at any time is a bounce.
   */
  lemma {:induction false} EchoVerdicts(h: Header, src: SockAddr, now: uint32, echoSrc: SockAddr, later: uint32, fingerprintHeader: HeaderFingerprinter)
    requires IsEmeterPacket(h) && h.emeter.time != 0
    ensures var fp := EmeterFingerprint(h.emeter, src, now);
      && EmeterVerdict(RingAfter([]), h, src, now) == Accepted(Some(fp))
      && EmeterVerdict(RingAfter([fp]), h, echoSrc, later) == Bounced
    ensures InverterVerdict(RingAfter([]), h, src, now, fingerprintHeader) == NotMine
    ensures InverterVerdict(RingAfter([]), h, echoSrc, later, fingerprintHeader) == NotMine
  {
    var fp := EmeterFingerprint(h.emeter, src, now);
    forall j | 0 <= j < HISTORY_SIZE
      ensures !SameIdentity(RingAfter([])[j], fp)
    {
      RingPrefill([], j);
    }
    ReceivedThenBounced([], fp, EmeterFingerprint(h.emeter, echoSrc, later));
    assert [] + [fp] == [fp];
  }

  /**
   * An emeter packet relayed once comes back (from any address, at any time)
   * and is dropped: the first dispatch sends the patched packet through every
   * sender, the second sends nothing.
   */
  method EmeterEchoIsDropped(host: LocalHost, devices: seq<Device>, fingerprintHeader: HeaderFingerprinter,
                             bytes: PacketBytes, src: SockAddr, now: uint32, echoSrc: SockAddr, later: uint32)
    returns (first: seq<Transmission>, second: seq<Transmission>)
    requires bytes.header.checkHeader && IsEmeterPacket(bytes.header)
    requires bytes.header.emeter.time != 0
    ensures first == SendToAll(ConfiguredSenders(host, devices), host, PatchedPacket(bytes, MaxNegativeActivePowerTotal()), src)
    ensures second == []
  {
    EchoVerdicts(bytes.header, src, now, echoSrc, later, fingerprintHeader);
    var router := new Router(host, devices, fingerprintHeader);
    var packet := new Datagram(bytes.header, bytes.elements);
    first := router.Dispatch(packet, src, now);
    second := router.Dispatch(packet, echoSrc, later);
  }
}
