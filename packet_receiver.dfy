/**
 * The protocol receivers. Each owns a bounce detector and a patcher, and
 * handles one datagram as: classify, duplicate check, record, patch, report
 * a status. FORWARD asks the caller to hand the (patched) datagram to every
 * sender. The discovery receiver also answers a response by unicasting it to
 * every recent requester through each interface that shares its subnet.
 */
module Receivers {
  import opened Net
  import opened Speedwire
  import opened Bounce
  import opened Patching

  /** SpeedwirePacketReceiver::PacketStatus. */
  datatype PacketStatus = Ignored | Drop | Forward

  /** The enum values: IGNORED = 0, DROP = 1, FORWARD = 2. */
  function PacketStatusCode(s: PacketStatus): (code: uint8)
    ensures code <= 2
    ensures code == 0 <==> s == Ignored
    ensures code == 2 <==> s == Forward
  {
    match s
    case Ignored => 0
    case Drop => 1
    case Forward => 2
  }

  /**
   * The fingerprint derivation for packets that reach the detector as a plain
   * header (encryption and discovery packets); None means not applicable.
   */
  type HeaderFingerprinter = (Header, SockAddr, uint32) -> Option<Fingerprint>

  /** What a receiver decided about one datagram. */
  datatype Verdict =
    | NotMine                                    // other protocol, or not a valid packet
    | Bounced                                    // its fingerprint is in the history
    | Accepted(fingerprint: Option<Fingerprint>) // recorded (when derivable) and passed on

  /** The duplicate check: a derived fingerprint found in the history is a bounce. */
  function CheckBounce(history: seq<Fingerprint>, fp: Option<Fingerprint>): Verdict
  {
    if fp.Some? && InHistory(history, fp.value) then Bounced else Accepted(fp)
  }

  /** The fingerprints an accepted datagram adds to the history. */
  function Recorded(v: Verdict): seq<Fingerprint>
  {
    if v.Accepted? && v.fingerprint.Some? then [v.fingerprint.value] else []
  }

  /** The status of the emeter and inverter receivers. */
  function StatusOf(v: Verdict): PacketStatus
  {
    match v
    case NotMine => Ignored
    case Bounced => Drop
    case Accepted(_) => Forward
  }

  /** EmeterPacketReceiver accepts valid data2 packets with the emeter or the extended emeter id. */
  predicate IsEmeterPacket(h: Header)
  {
    h.isValidData2Packet &&
    (h.protocolId == SMA_EMETER_PROTOCOL_ID || h.protocolId == SMA_EXTENDED_EMETER_PROTOCOL_ID)
  }

  function EmeterVerdict(history: seq<Fingerprint>, h: Header, src: SockAddr, now: uint32): Verdict
  {
    if IsEmeterPacket(h) then CheckBounce(history, Some(EmeterFingerprint(h.emeter, src, now)))
    else NotMine
  }

  /** InverterPacketReceiver: an inverter branch and an encryption branch, one detector. */
  function InverterVerdict(history: seq<Fingerprint>, h: Header, src: SockAddr, now: uint32, fingerprintHeader: HeaderFingerprinter): Verdict
  {
    if !h.isValidData2Packet then NotMine
    else if h.protocolId == SMA_INVERTER_PROTOCOL_ID then
      CheckBounce(history, Some(InverterFingerprint(h.inverter, src, now)))
    else if h.protocolId == SMA_ENCRYPTION_PROTOCOL_ID then
      CheckBounce(history, fingerprintHeader(h, src, now))
    else NotMine
  }

  function DiscoveryVerdict(history: seq<Fingerprint>, h: Header, src: SockAddr, now: uint32, fingerprintHeader: HeaderFingerprinter): Verdict
  {
    if h.isValidDiscoveryPacket then CheckBounce(history, fingerprintHeader(h, src, now)) else NotMine
  }

  /** Only an accepted discovery request is forwarded to the senders; responses never are. */
  function DiscoveryStatus(v: Verdict, h: Header): PacketStatus
  {
    if v.NotMine? then Ignored
    else if v.Accepted? && h.isMulticastRequest then Forward
    else Drop
  }

  /** A datagram is never accepted by both the emeter and the inverter receiver. */
  lemma {:induction false} ReceiversAreDisjoint(h1: seq<Fingerprint>, h2: seq<Fingerprint>, h: Header, src: SockAddr, now: uint32, fingerprintHeader: HeaderFingerprinter)
    ensures EmeterVerdict(h1, h, src, now) == NotMine || InverterVerdict(h2, h, src, now, fingerprintHeader) == NotMine
  {
  }

  /**
   * A datagram the emeter receiver accepted is dropped when it comes again,
   * from any source and at any time, as long as fewer than 16 other packets
   * were recorded in between.
   */
  lemma {:induction false} EmeterReinjectionDropped(received: seq<Fingerprint>, h: Header, src: SockAddr, now: uint32,
                                 later: seq<Fingerprint>, src2: SockAddr, now2: uint32)
    requires EmeterVerdict(RingAfter(received), h, src, now).Accepted?
    requires |later| < HISTORY_SIZE
    ensures var v := EmeterVerdict(RingAfter(received), h, src, now);
      EmeterVerdict(RingAfter(received + Recorded(v) + later), h, src2, now2) == Bounced
  {
    var fp := EmeterFingerprint(h.emeter, src, now);
    BouncedWhileInWindow(received, fp, later, EmeterFingerprint(h.emeter, src2, now2));
  }

  /** The same for an inverter packet, through the inverter branch. */
  lemma {:induction false} InverterReinjectionDropped(received: seq<Fingerprint>, h: Header, src: SockAddr, now: uint32, fingerprintHeader: HeaderFingerprinter,
                                   later: seq<Fingerprint>, src2: SockAddr, now2: uint32)
    requires h.protocolId == SMA_INVERTER_PROTOCOL_ID
    requires InverterVerdict(RingAfter(received), h, src, now, fingerprintHeader).Accepted?
    requires |later| < HISTORY_SIZE
    ensures var v := InverterVerdict(RingAfter(received), h, src, now, fingerprintHeader);
      InverterVerdict(RingAfter(received + Recorded(v) + later), h, src2, now2, fingerprintHeader) == Bounced
  {
    var fp := InverterFingerprint(h.inverter, src, now);
    BouncedWhileInWindow(received, fp, later, InverterFingerprint(h.inverter, src2, now2));
  }

  /** The correlation window, in milliseconds. */
  const DISCOVERY_WINDOW_MS: nat := 1000

  /** A history entry that is a discovery request created at most 1000 ms from now. */
  predicate RecentRequest(e: Fingerprint, now: uint32)
  {
    e.packetType == DiscoveryRequest && AbsTimeDifference(e.createTime, now) <= DISCOVERY_WINDOW_MS
  }

  /** A request recorded at time 0 is recent at 999 ms and no longer at 1001 ms. */
  lemma {:induction false} DiscoveryWindowExample(src: SockAddr)
    ensures RecentRequest(TypedFingerprint(src, DiscoveryRequest, 0), 999)
    ensures !RecentRequest(TypedFingerprint(src, DiscoveryRequest, 0), 1001)
  {
  }

  /** The request's source resides on the subnet of the local interface `ip`. */
  predicate OnInterfaceSubnet(e: Fingerprint, host: LocalHost, ip: string)
  {
    ResideOnSameSubnet(SinAddr(e.srcIp), host.toInAddress(ip), host.interfacePrefixLength(ip))
  }

  /** The unicast that answers request `e` through interface `ip`. */
  function Answer(e: Fingerprint, ip: string, packet: PacketBytes): Transmission
  {
    Transmission(ip, ToAddress(e.srcIp), packet)
  }

  /** The inner loop: one unicast per local interface sharing the requester's subnet, in enumeration order. */
  function InterfaceAnswers(e: Fingerprint, ips: seq<string>, host: LocalHost, packet: PacketBytes): seq<Transmission>
    decreases |ips|
  {
    if ips == [] then []
    else
      var k := |ips| - 1;
      InterfaceAnswers(e, ips[..k], host, packet) + (if OnInterfaceSubnet(e, host, ips[k]) then [Answer(e, ips[k], packet)] else [])
  }

  /** The outer loop over the history slots. */
  function CorrelationTrace(history: seq<Fingerprint>, now: uint32, host: LocalHost, packet: PacketBytes): seq<Transmission>
    decreases |history|
  {
    if history == [] then []
    else
      var k := |history| - 1;
      CorrelationTrace(history[..k], now, host, packet) +
      (if RecentRequest(history[k], now) then InterfaceAnswers(history[k], host.localIPv4Addresses, host, packet) else [])
  }

  lemma {:induction false} InterfaceAnswersMembership(e: Fingerprint, ips: seq<string>, host: LocalHost, packet: PacketBytes, t: Transmission)
    ensures t in InterfaceAnswers(e, ips, host, packet) <==>
      exists ip :: ip in ips && OnInterfaceSubnet(e, host, ip) && t == Answer(e, ip, packet)
  {
    if ips != [] {
      var k := |ips| - 1;
      InterfaceAnswersMembership(e, ips[..k], host, packet, t);
      assert ips == ips[..k] + [ips[k]];
      if ip :| ip in ips && OnInterfaceSubnet(e, host, ip) && t == Answer(e, ip, packet) {
        assert ip in ips[..k] || ip == ips[k];
      }
    }
  }

  /** Every unicast of the trace answers a recent request in the history through an interface on its subnet. */
  lemma {:induction false} CorrelationSound(history: seq<Fingerprint>, now: uint32, host: LocalHost, packet: PacketBytes, t: Transmission)
    requires t in CorrelationTrace(history, now, host, packet)
    ensures exists e, ip ::
      e in history && ip in host.localIPv4Addresses &&
      RecentRequest(e, now) && OnInterfaceSubnet(e, host, ip) && t == Answer(e, ip, packet)
  {
    var ips := host.localIPv4Addresses;
    var k := |history| - 1;
    var before := history[..k];
    if t in CorrelationTrace(before, now, host, packet) {
      CorrelationSound(before, now, host, packet, t);
      var e, ip :| e in before && ip in ips && RecentRequest(e, now) && OnInterfaceSubnet(e, host, ip) && t == Answer(e, ip, packet);
      assert e in history;
    } else {
      InterfaceAnswersMembership(history[k], ips, host, packet, t);
      assert history[k] in history;
    }
  }

  /** Every recent request in the history is answered through every interface on its subnet. */
  lemma {:induction false} CorrelationComplete(history: seq<Fingerprint>, now: uint32, host: LocalHost, packet: PacketBytes, e: Fingerprint, ip: string)
    requires e in history && ip in host.localIPv4Addresses
    requires RecentRequest(e, now) && OnInterfaceSubnet(e, host, ip)
    ensures Answer(e, ip, packet) in CorrelationTrace(history, now, host, packet)
  {
    var k := |history| - 1;
    var before := history[..k];
    assert history == before + [history[k]];
    if e == history[k] {
      InterfaceAnswersMembership(e, host.localIPv4Addresses, host, packet, Answer(e, ip, packet));
    } else {
      CorrelationComplete(before, now, host, packet, e, ip);
    }
  }

  /**
   * A response is unicast to exactly the pairs of a recent request in the
   * history and a local interface sharing that request's subnet: the whole
   * packet, to the request's source address, via that interface.
   */
  lemma {:induction false} CorrelationMembership(history: seq<Fingerprint>, now: uint32, host: LocalHost, packet: PacketBytes, t: Transmission)
    ensures t in CorrelationTrace(history, now, host, packet) <==>
      exists e, ip :: e in history && ip in host.localIPv4Addresses &&
        RecentRequest(e, now) && OnInterfaceSubnet(e, host, ip) && t == Answer(e, ip, packet)
  {
    if t in CorrelationTrace(history, now, host, packet) {
      CorrelationSound(history, now, host, packet, t);
    }
    if e, ip :| e in history && ip in host.localIPv4Addresses && RecentRequest(e, now) && OnInterfaceSubnet(e, host, ip) && t == Answer(e, ip, packet) {
      CorrelationComplete(history, now, host, packet, e, ip);
    }
  }

  /** Over the first n history slots, only slot i can contribute, and it contributes its interface answers. */
  lemma {:induction false} CorrelationOfPrefix(history: seq<Fingerprint>, now: uint32, host: LocalHost, packet: PacketBytes, i: nat, n: nat)
    requires i < |history| && n <= |history|
    requires RecentRequest(history[i], now)
    requires forall k :: 0 <= k < |history| && k != i ==> !RecentRequest(history[k], now)
    ensures CorrelationTrace(history[..n], now, host, packet) ==
      if n <= i then [] else InterfaceAnswers(history[i], host.localIPv4Addresses, host, packet)
  {
    if n > 0 {
      assert history[..n][..n - 1] == history[..n - 1];
      assert history[..n][n - 1] == history[n - 1];
      CorrelationOfPrefix(history, now, host, packet, i, n - 1);
    }
  }

  /** Over the first n interfaces, only interface j can contribute, and it contributes one answer. */
  lemma {:induction false} AnswersOfPrefix(e: Fingerprint, ips: seq<string>, host: LocalHost, packet: PacketBytes, j: nat, n: nat)
    requires j < |ips| && n <= |ips|
    requires OnInterfaceSubnet(e, host, ips[j])
    requires forall m :: 0 <= m < |ips| && m != j ==> !OnInterfaceSubnet(e, host, ips[m])
    ensures InterfaceAnswers(e, ips[..n], host, packet) == if n <= j then [] else [Answer(e, ips[j], packet)]
  {
    if n > 0 {
      assert ips[..n][..n - 1] == ips[..n - 1];
      AnswersOfPrefix(e, ips, host, packet, j, n - 1);
    }
  }

  /**
   * One recent request in the history and one local interface on its subnet
   * give exactly one unicast: to the requester, via that interface.
   */
  lemma {:induction false} SingleRequesterSingleAnswer(history: seq<Fingerprint>, now: uint32, host: LocalHost, packet: PacketBytes, i: nat, j: nat)
    requires i < |history| && j < |host.localIPv4Addresses|
    requires RecentRequest(history[i], now)
    requires forall k :: 0 <= k < |history| && k != i ==> !RecentRequest(history[k], now)
    requires OnInterfaceSubnet(history[i], host, host.localIPv4Addresses[j])
    requires forall m :: 0 <= m < |host.localIPv4Addresses| && m != j ==> !OnInterfaceSubnet(history[i], host, host.localIPv4Addresses[m])
    ensures CorrelationTrace(history, now, host, packet) == [Answer(history[i], host.localIPv4Addresses[j], packet)]
  {
    var ips := host.localIPv4Addresses;
    CorrelationOfPrefix(history, now, host, packet, i, |history|);
    assert history[..|history|] == history;
    AnswersOfPrefix(history[i], ips, host, packet, j, |ips|);
    assert ips[..|ips|] == ips;
  }

  /** The correlation step: a nested loop over history slots and local IPv4 interfaces. */
  method AnswerResponse(history: seq<Fingerprint>, now: uint32, host: LocalHost, packet: PacketBytes) returns (unicasts: seq<Transmission>)
    ensures unicasts == CorrelationTrace(history, now, host, packet)
  {
    unicasts := [];
    var i := 0;
    while i < |history|
      invariant 0 <= i <= |history|
      invariant unicasts == CorrelationTrace(history[..i], now, host, packet)
    {
      var entry := history[i];
      assert history[..i + 1][..i] == history[..i];
      if RecentRequest(entry, now) {
        var ips := host.localIPv4Addresses;
        ghost var before := unicasts;
        var j := 0;
        while j < |ips|
          invariant 0 <= j <= |ips|
          invariant unicasts == before + InterfaceAnswers(entry, ips[..j], host, packet)
        {
          assert ips[..j + 1][..j] == ips[..j];
          if OnInterfaceSubnet(entry, host, ips[j]) {
            unicasts := unicasts + [Answer(entry, ips[j], packet)];
          }
          j := j + 1;
        }
        assert ips[..j] == ips;
      }
      i := i + 1;
    }
    assert history[..i] == history;
  }

  /** EmeterPacketReceiver. */
  class EmeterPacketReceiver {
    const protocolId: uint16
    const bounceDetector: BounceDetector
    const packetPatcher: PacketPatcher

    ghost predicate Valid()
      reads this, bounceDetector, bounceDetector.history
    {
      bounceDetector.Valid() && packetPatcher.Valid() && protocolId == SMA_EMETER_PROTOCOL_ID
    }

    constructor ()
      ensures Valid() && fresh(bounceDetector) && fresh(bounceDetector.history)
      ensures bounceDetector.received == []
    {
      protocolId := SMA_EMETER_PROTOCOL_ID;
      bounceDetector := new BounceDetector();
      packetPatcher := new PacketPatcher();
    }

    /** receive: classify, check for a bounce, record, patch; FORWARD sends the patched bytes on. */
    method Receive(packet: Datagram, src: SockAddr, now: uint32) returns (status: PacketStatus)
      requires Valid()
      modifies bounceDetector, bounceDetector.history, packet.elements
      ensures Valid()
      ensures var v := EmeterVerdict(old(bounceDetector.GetHistory()), packet.header, src, now);
        && status == StatusOf(v)
        && bounceDetector.received == old(bounceDetector.received) + Recorded(v)
        && packet.Bytes() == if v.Accepted? then PatchedPacket(old(packet.Bytes()), MaxNegativeActivePowerTotal()) else old(packet.Bytes())
    {
      if IsEmeterPacket(packet.header) {
        var fp := Some(EmeterFingerprint(packet.header.emeter, src, now));
        var bounced := bounceDetector.IsBouncedPacket(fp);
        if bounced {
          return Drop;
        }
        bounceDetector.Receive(fp);
        packetPatcher.Patch(packet, src);
        return Forward;
      }
      return Ignored;
    }
  }

  /**
   * InverterPacketReceiver: inverter and encryption packets share its one
   * detector. Both branches call the patcher, which leaves their bytes alone:
   * neither id is the plain emeter one.
   */
  class InverterPacketReceiver {
    const protocolId: uint16
    const bounceDetector: BounceDetector
    const packetPatcher: PacketPatcher
    const fingerprintHeader: HeaderFingerprinter

    ghost predicate Valid()
      reads this, bounceDetector, bounceDetector.history
    {
      bounceDetector.Valid() && packetPatcher.Valid() && protocolId == SMA_INVERTER_PROTOCOL_ID
    }

    constructor (fingerprintHeader: HeaderFingerprinter)
      ensures Valid() && fresh(bounceDetector) && fresh(bounceDetector.history)
      ensures bounceDetector.received == [] && this.fingerprintHeader == fingerprintHeader
    {
      protocolId := SMA_INVERTER_PROTOCOL_ID;
      bounceDetector := new BounceDetector();
      packetPatcher := new PacketPatcher();
      this.fingerprintHeader := fingerprintHeader;
    }

    method Receive(packet: Datagram, src: SockAddr, now: uint32) returns (status: PacketStatus)
      requires Valid()
      modifies bounceDetector, bounceDetector.history, packet.elements
      ensures Valid()
      ensures var v := InverterVerdict(old(bounceDetector.GetHistory()), packet.header, src, now, fingerprintHeader);
        && status == StatusOf(v)
        && bounceDetector.received == old(bounceDetector.received) + Recorded(v)
        && packet.Bytes() == old(packet.Bytes())
    {
      var h := packet.header;
      if h.isValidData2Packet {
        if h.protocolId == SMA_INVERTER_PROTOCOL_ID {
          var fp := Some(InverterFingerprint(h.inverter, src, now));
          var bounced := bounceDetector.IsBouncedPacket(fp);
          if bounced {
            return Drop;
          }
          bounceDetector.Receive(fp);
          packetPatcher.Patch(packet, src);
          return Forward;
        } else if h.protocolId == SMA_ENCRYPTION_PROTOCOL_ID {
          var fp := fingerprintHeader(h, src, now);
          var bounced := bounceDetector.IsBouncedPacket(fp);
          if bounced {
            return Drop;
          }
          bounceDetector.Receive(fp);
          packetPatcher.Patch(packet, src);
          return Forward;
        }
      }
      return Ignored;
    }
  }

  /** DiscoveryPacketReceiver: forwards requests, answers responses by correlation. */
  class DiscoveryPacketReceiver {
    const protocolId: uint16
    const bounceDetector: BounceDetector
    const packetPatcher: PacketPatcher
    const fingerprintHeader: HeaderFingerprinter

    ghost predicate Valid()
      reads this, bounceDetector, bounceDetector.history
    {
      bounceDetector.Valid() && packetPatcher.Valid() && protocolId == 0x0000
    }

    constructor (fingerprintHeader: HeaderFingerprinter)
      ensures Valid() && fresh(bounceDetector) && fresh(bounceDetector.history)
      ensures bounceDetector.received == [] && this.fingerprintHeader == fingerprintHeader
    {
      protocolId := 0x0000;
      bounceDetector := new BounceDetector();
      packetPatcher := new PacketPatcher();
      this.fingerprintHeader := fingerprintHeader;
    }

    /**
     * receive: after the duplicate check and the record, a request is
     * reported FORWARD (unpatched) and a response is unicast to its
     * requesters, judged against the history that now includes it.
     */
    method Receive(packet: Datagram, src: SockAddr, now: uint32, host: LocalHost) returns (status: PacketStatus, unicasts: seq<Transmission>)
      requires Valid()
      modifies bounceDetector, bounceDetector.history
      ensures Valid()
      ensures var v := DiscoveryVerdict(old(bounceDetector.GetHistory()), packet.header, src, now, fingerprintHeader);
        && status == DiscoveryStatus(v, packet.header)
        && bounceDetector.received == old(bounceDetector.received) + Recorded(v)
        && unicasts == if v.Accepted? && packet.header.isMulticastResponse
                       then CorrelationTrace(bounceDetector.GetHistory(), now, host, packet.Bytes())
                       else []
    {
      unicasts := [];
      var h := packet.header;
      if !h.isValidDiscoveryPacket {
        return Ignored, [];
      }
      var fp := fingerprintHeader(h, src, now);
      var bounced := bounceDetector.IsBouncedPacket(fp);
      if bounced {
        return Drop, [];
      }
      bounceDetector.Receive(fp);
      status := if h.isMulticastRequest then Forward else Drop;
      if h.isMulticastResponse {
        unicasts := AnswerResponse(bounceDetector.GetHistory(), now, host, packet.Bytes());
      }
    }
  }
}
