/**
 * The bounce detector: a fixed ring of 16 packet fingerprints. A packet whose
 * fingerprint matches a slot is taken for a bounce, a copy of a packet the
 * relay has already seen that routing looped back to it.
 */
module Bounce {
  import opened Net
  import opened Speedwire

  /** BounceDetector::PacketType, a closed set of five tags. */
  datatype PacketType = Unknown | Emeter | Inverter | DiscoveryRequest | DiscoveryResponse

  /** The uint8_t value behind each tag. */
  function PacketTypeCode(t: PacketType): (code: uint8)
    ensures code < 5
    ensures code == 0 <==> t == Unknown
  {
    match t
    case Unknown => 0
    case Emeter => 1
    case Inverter => 2
    case DiscoveryRequest => 3
    case DiscoveryResponse => 4
  }

  /** No two tags share a value. */
  lemma {:induction false} PacketTypeCodesDistinct(s: PacketType, t: PacketType)
    ensures PacketTypeCode(s) == PacketTypeCode(t) <==> s == t
  {
  }

  /** BounceDetector::Fingerprint, the identity record kept per received packet. */
  datatype Fingerprint = Fingerprint(
    srcIp: SockAddr,            // every packet type
    packetType: PacketType,
    createTime: uint32,
    srcSusyId: uint16,          // emeter and inverter
    srcSerial: uint32,          // emeter and inverter
    srcTimer: uint32,           // emeter
    srcPacketId: uint16,        // inverter
    srcIpAddr: IPv4)            // discovery response

  /** Fingerprint(void). */
  function DefaultFingerprint(): Fingerprint
  {
    Fingerprint(ZERO_SOCKADDR, Unknown, 0, 0, 0, 0, 0, IPV4_ZERO)
  }

  /** Fingerprint(srcip, packettype, createtime). */
  function TypedFingerprint(src: SockAddr, packetType: PacketType, createTime: uint32): Fingerprint
  {
    Fingerprint(src, packetType, createTime, 0, 0, 0, 0, IPV4_ZERO)
  }

  /** The default record is the typed one for an unknown packet from the zeroed address at time 0. */
  lemma {:induction false} DefaultIsZeroedTyped()
    ensures DefaultFingerprint() == TypedFingerprint(ZERO_SOCKADDR, Unknown, 0)
    ensures PacketTypeCode(DefaultFingerprint().packetType) == 0
  {
  }

  /**
   * The emeter fingerprint: the meter's susy id, serial number and own timer
   * fill the identity, packet id 0; the record also carries the source, the
   * EMETER tag and the time of receipt.
   */
  function EmeterFingerprint(packet: EmeterFields, src: SockAddr, now: uint32): (fp: Fingerprint)
    ensures fp.srcSusyId == packet.susyId && fp.srcSerial == packet.serialNumber
    ensures fp.srcTimer == packet.time && fp.srcPacketId == 0
    ensures fp.srcIp == src && fp.packetType == Emeter && fp.createTime == now && fp.srcIpAddr == IPV4_ZERO
  {
    TypedFingerprint(src, Emeter, now).(
      srcSusyId := packet.susyId, srcSerial := packet.serialNumber, srcTimer := packet.time)
  }

  /**
   * The inverter fingerprint: the sender's susy id, serial number and packet
   * id fill the identity, timer 0; the record also carries the source, the
   * INVERTER tag and the time of receipt.
   */
  function InverterFingerprint(packet: InverterFields, src: SockAddr, now: uint32): (fp: Fingerprint)
    ensures fp.srcSusyId == packet.srcSusyId && fp.srcSerial == packet.srcSerialNumber
    ensures fp.srcTimer == 0 && fp.srcPacketId == packet.packetId
    ensures fp.srcIp == src && fp.packetType == Inverter && fp.createTime == now && fp.srcIpAddr == IPV4_ZERO
  {
    TypedFingerprint(src, Inverter, now).(
      srcSusyId := packet.srcSusyId, srcSerial := packet.srcSerialNumber, srcPacketId := packet.packetId)
  }

  /**
   * The identity the history scan compares: susy id, serial number, timer and
   * packet id. Two records have the same identity exactly when they become
   * equal once the source address, the type tag, the creation time and the
   * discovery address of one are copied into the other: none of those take part.
   */
  function SameIdentity(a: Fingerprint, b: Fingerprint): (same: bool)
    ensures same <==> a.(srcIp := b.srcIp, packetType := b.packetType, createTime := b.createTime, srcIpAddr := b.srcIpAddr) == b
  {
    a.srcSusyId == b.srcSusyId && a.srcSerial == b.srcSerial &&
    a.srcTimer == b.srcTimer && a.srcPacketId == b.srcPacketId
  }

  /** Two emeter fingerprints match exactly when the meter fields match, whatever the source and time. */
  lemma {:induction false} EmeterIdentityIsMeterFields(p: EmeterFields, q: EmeterFields, src1: SockAddr, src2: SockAddr, t1: uint32, t2: uint32)
    ensures SameIdentity(EmeterFingerprint(p, src1, t1), EmeterFingerprint(q, src2, t2)) <==> p == q
  {
  }

  /** Two inverter fingerprints match exactly when the inverter fields match, whatever the source and time. */
  lemma {:induction false} InverterIdentityIsInverterFields(p: InverterFields, q: InverterFields, src1: SockAddr, src2: SockAddr, t1: uint32, t2: uint32)
    ensures SameIdentity(InverterFingerprint(p, src1, t1), InverterFingerprint(q, src2, t2)) <==> p == q
  {
  }

  /**
   * Without a type tag in the comparison, an emeter packet with timer 0 and an
   * inverter packet with packet id 0 match when susy id and serial agree.
   */
  lemma {:induction false} EmeterInverterCollide(e: EmeterFields, v: InverterFields, src1: SockAddr, src2: SockAddr, t1: uint32, t2: uint32)
    requires e.time == 0 && v.packetId == 0
    requires e.susyId == v.srcSusyId && e.serialNumber == v.srcSerialNumber
    ensures SameIdentity(EmeterFingerprint(e, src1, t1), InverterFingerprint(v, src2, t2))
  {
  }

  /** A table holds a fingerprint when some slot matches it. */
  predicate InHistory(history: seq<Fingerprint>, fp: Fingerprint)
  {
    exists i :: 0 <= i < |history| && SameIdentity(history[i], fp)
  }

  /** BounceDetector::History is a std::array of this many fingerprints. */
  const HISTORY_SIZE: nat := 16

  /**
   * The table after the given fingerprints were received in order, starting
   * from the pre-filled one: the k-th fingerprint goes to slot k mod 16.
   */
  function RingAfter(received: seq<Fingerprint>): (ring: seq<Fingerprint>)
    ensures |ring| == HISTORY_SIZE
    decreases |received|
  {
    if received == [] then seq(HISTORY_SIZE, _ => DefaultFingerprint())
    else
      var k := |received| - 1;
      RingAfter(received[..k])[k % HISTORY_SIZE := received[k]]
  }

  lemma {:induction false} SlotsDiffer(p: nat, k: nat)
    requires p < k < p + HISTORY_SIZE
    ensures p % HISTORY_SIZE != k % HISTORY_SIZE
  {
  }

  /** The slot after position n's is position n + 1's, wrapping from 15 to 0. */
  lemma {:induction false} NextSlot(n: nat)
    ensures (n + 1) % HISTORY_SIZE == if n % HISTORY_SIZE + 1 >= HISTORY_SIZE then 0 else n % HISTORY_SIZE + 1
  {
  }

  /** A position in the window before step k that does not share k's slot is still in the window after it. */
  lemma {:induction false} StaysInWindow(p: nat, k: nat)
    requires p < k <= p + HISTORY_SIZE && p % HISTORY_SIZE != k % HISTORY_SIZE
    ensures p < k < p + HISTORY_SIZE
  {
  }

  /** Each of the last 16 fingerprints received is still in its slot. */
  lemma {:induction false} RingKeepsRecent(received: seq<Fingerprint>, p: nat)
    requires p < |received| <= p + HISTORY_SIZE
    ensures RingAfter(received)[p % HISTORY_SIZE] == received[p]
  {
    var k := |received| - 1;
    if p < k {
      RingKeepsRecent(received[..k], p);
      SlotsDiffer(p, k);
    }
  }

  /** A slot no fingerprint has reached yet still holds the pre-fill. */
  lemma {:induction false} RingPrefill(received: seq<Fingerprint>, j: nat)
    requires |received| <= j < HISTORY_SIZE
    ensures RingAfter(received)[j] == DefaultFingerprint()
  {
    if received != [] {
      RingPrefill(received[..|received| - 1], j);
    }
  }

  /**
   * Every slot a fingerprint has reached holds one of the last 16 received,
   * the one whose position is the slot number modulo 16. Older fingerprints
   * are gone.
   */
  lemma {:induction false} RingSlot(received: seq<Fingerprint>, j: nat)
    requires j < HISTORY_SIZE && j < |received|
    ensures exists p :: 0 <= p < |received| && |received| - HISTORY_SIZE <= p && p % HISTORY_SIZE == j && RingAfter(received)[j] == received[p]
  {
    var k := |received| - 1;
    var before := received[..k];
    if k % HISTORY_SIZE == j {
      assert RingAfter(received)[j] == received[k];
    } else {
      RingSlot(before, j);
      var p :| 0 <= p < k && k - HISTORY_SIZE <= p && p % HISTORY_SIZE == j && RingAfter(before)[j] == before[p];
      StaysInWindow(p, k);
      assert received[p] == before[p];
    }
  }

  /** A match in a slot some fingerprint has reached is a match with one of the last 16 received. */
  lemma {:induction false} MatchInReachedSlot(received: seq<Fingerprint>, fp: Fingerprint, j: nat)
    requires j < HISTORY_SIZE && j < |received| && SameIdentity(RingAfter(received)[j], fp)
    ensures exists p :: 0 <= p < |received| && |received| - HISTORY_SIZE <= p && SameIdentity(received[p], fp)
  {
    RingSlot(received, j);
  }

  /** A detected fingerprint matches one of the last 16 received, or the pre-fill while fewer than 16 were received. */
  lemma {:induction false} DetectedOnlyFromWindow(received: seq<Fingerprint>, fp: Fingerprint, j: nat)
    requires j < HISTORY_SIZE && SameIdentity(RingAfter(received)[j], fp)
    ensures (exists p :: 0 <= p < |received| && |received| - HISTORY_SIZE <= p && SameIdentity(received[p], fp))
      || (|received| < HISTORY_SIZE && SameIdentity(DefaultFingerprint(), fp))
  {
    if j < |received| {
      MatchInReachedSlot(received, fp, j);
    } else {
      RingPrefill(received, j);
      assert |received| < HISTORY_SIZE && SameIdentity(DefaultFingerprint(), fp);
    }
  }

  /** One of the last 16 received is detected. */
  lemma {:induction false} DetectedFromWindow(received: seq<Fingerprint>, fp: Fingerprint, p: nat)
    requires p < |received| && |received| - HISTORY_SIZE <= p && SameIdentity(received[p], fp)
    ensures InHistory(RingAfter(received), fp)
  {
    RingKeepsRecent(received, p);
    assert SameIdentity(RingAfter(received)[p % HISTORY_SIZE], fp);
  }

  /** While fewer than 16 were received, the pre-fill is detected in the last slot. */
  lemma {:induction false} DetectedFromPrefill(received: seq<Fingerprint>, fp: Fingerprint)
    requires |received| < HISTORY_SIZE && SameIdentity(DefaultFingerprint(), fp)
    ensures InHistory(RingAfter(received), fp)
  {
    RingPrefill(received, HISTORY_SIZE - 1);
    assert SameIdentity(RingAfter(received)[HISTORY_SIZE - 1], fp);
  }

  /**
   * A fingerprint is detected exactly when one of the last 16 received matches
   * it, or, while fewer than 16 were received, when it matches the pre-fill.
   */
  lemma {:induction false} HistoryWindow(received: seq<Fingerprint>, fp: Fingerprint)
    ensures InHistory(RingAfter(received), fp) <==>
      (exists p :: 0 <= p < |received| && |received| - HISTORY_SIZE <= p && SameIdentity(received[p], fp))
      || (|received| < HISTORY_SIZE && SameIdentity(DefaultFingerprint(), fp))
  {
    if InHistory(RingAfter(received), fp) {
      var j :| 0 <= j < HISTORY_SIZE && SameIdentity(RingAfter(received)[j], fp);
      DetectedOnlyFromWindow(received, fp, j);
    }
    if p :| 0 <= p < |received| && |received| - HISTORY_SIZE <= p && SameIdentity(received[p], fp) {
      DetectedFromWindow(received, fp, p);
    }
    if |received| < HISTORY_SIZE && SameIdentity(DefaultFingerprint(), fp) {
      DetectedFromPrefill(received, fp);
    }
  }

  /** Right after a fingerprint is received, any packet with the same identity is a bounce. */
  lemma {:induction false} ReceivedThenBounced(received: seq<Fingerprint>, fp: Fingerprint, probe: Fingerprint)
    requires SameIdentity(fp, probe)
    ensures InHistory(RingAfter(received + [fp]), probe)
  {
    DetectedFromWindow(received + [fp], probe, |received|);
  }

  /** It stays a bounce while fewer than 16 other fingerprints follow it. */
  lemma {:induction false} BouncedWhileInWindow(received: seq<Fingerprint>, fp: Fingerprint, later: seq<Fingerprint>, probe: Fingerprint)
    requires SameIdentity(fp, probe) && |later| < HISTORY_SIZE
    ensures InHistory(RingAfter(received + [fp] + later), probe)
  {
    var all := received + [fp] + later;
    assert all[|received|] == fp;
    DetectedFromWindow(all, probe, |received|);
  }

  /** After 16 more receptions of other identities, a fingerprint is no longer detected. */
  lemma {:induction false} ForgottenAfterSixteen(received: seq<Fingerprint>, later: seq<Fingerprint>, probe: Fingerprint)
    requires |later| >= HISTORY_SIZE
    requires forall q :: 0 <= q < |later| ==> !SameIdentity(later[q], probe)
    ensures !InHistory(RingAfter(received + later), probe)
  {
    var all := received + later;
    forall p | 0 <= p < |all| && |all| - HISTORY_SIZE <= p
      ensures !SameIdentity(all[p], probe)
    {
      assert all[p] == later[p - |received|];
    }
    forall j | 0 <= j < HISTORY_SIZE
      ensures !SameIdentity(RingAfter(all)[j], probe)
    {
      if SameIdentity(RingAfter(all)[j], probe) {
        DetectedOnlyFromWindow(all, probe, j);
      }
    }
  }

  /** On a fresh detector a packet whose four identity fields are all zero matches the pre-fill. */
  lemma {:induction false} FreshDetectorFlagsZeroIdentity(fp: Fingerprint)
    requires fp.srcSusyId == 0 && fp.srcSerial == 0 && fp.srcTimer == 0 && fp.srcPacketId == 0
    ensures InHistory(RingAfter([]), fp)
  {
    assert SameIdentity(RingAfter([])[0], fp);
  }

  /**
   * Any fingerprint the typed constructor builds, with no type-specific field
   * filled in, is reported as bounced on a fresh detector.
   */
  lemma {:induction false} FreshDetectorFlagsTypedFingerprint(src: SockAddr, packetType: PacketType, createTime: uint32)
    ensures InHistory(RingAfter([]), TypedFingerprint(src, packetType, createTime))
  {
    FreshDetectorFlagsZeroIdentity(TypedFingerprint(src, packetType, createTime));
  }

  /** class BounceDetector: the ring, the index of the slot to overwrite next. */
  class BounceDetector {
    const history: array<Fingerprint>
    var replaceIndex: int
    /** Every fingerprint received since construction, oldest first. */
    ghost var received: seq<Fingerprint>

    ghost predicate Valid()
      reads this, history
    {
      history.Length == HISTORY_SIZE &&
      0 <= replaceIndex < HISTORY_SIZE &&
      replaceIndex == |received| % HISTORY_SIZE &&
      history[..] == RingAfter(received)
    }

    /** Every slot holds the zeroed fingerprint; the index starts at 0. */
    constructor ()
      ensures Valid() && fresh(history)
      ensures received == [] && replaceIndex == 0
      ensures forall j :: 0 <= j < history.Length ==> history[j] == DefaultFingerprint()
    {
      history := new Fingerprint[HISTORY_SIZE](_ => DefaultFingerprint());
      replaceIndex := 0;
      received := [];
    }

    /**
     * receive: store the derived fingerprint (None when the packet shape has
     * no fingerprint) in the slot at the index, and advance the index.
     */
    method Receive(fp: Option<Fingerprint>)
      requires Valid()
      modifies this, history
      ensures Valid()
      ensures received == old(received) + (if fp.Some? then [fp.value] else [])
      ensures fp.Some? ==> history[old(replaceIndex)] == fp.value
      ensures forall j :: 0 <= j < history.Length && (fp.None? || j != old(replaceIndex)) ==> history[j] == old(history[j])
      ensures replaceIndex == if fp.Some? then (old(replaceIndex) + 1) % HISTORY_SIZE else old(replaceIndex)
    {
      if fp.Some? {
        ghost var extended := received + [fp.value];
        assert extended[..|received|] == received;
        NextSlot(|received|);
        history[replaceIndex] := fp.value;
        replaceIndex := replaceIndex + 1;
        if replaceIndex >= history.Length {
          replaceIndex := 0;
        }
        received := extended;
      }
    }

    /** isBouncedPacket: scan every slot for one matching the derived fingerprint. */
    method IsBouncedPacket(fp: Option<Fingerprint>) returns (bounced: bool)
      requires Valid()
      ensures bounced <==> fp.Some? && InHistory(GetHistory(), fp.value)
    {
      if fp.None? {
        return false;
      }
      var i := 0;
      while i < history.Length
        invariant 0 <= i <= history.Length
        invariant forall j :: 0 <= j < i ==> !SameIdentity(history[j], fp.value)
      {
        if SameIdentity(history[i], fp.value) {
          return true;
        }
        i := i + 1;
      }
      return false;
    }

    /** getHistory: a read-only view of the same 16 slots. */
    function GetHistory(): (h: seq<Fingerprint>)
      reads this, history
      requires Valid()
      ensures |h| == HISTORY_SIZE && h == RingAfter(received)
    {
      history[..]
    }
  }
}
