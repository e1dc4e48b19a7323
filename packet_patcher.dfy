/**
 * The packet patcher: before an emeter packet is forwarded, every negative
 * active power total measurement above a fixed maximum is overwritten, in
 * place, with an element carrying that maximum.
 */
module Patching {
  import opened Net
  import opened Speedwire

  /** The measurement class of ObisData::NegativeActivePowerTotal (OBIS 1-0:2.4.0). */
  const NEGATIVE_ACTIVE_POWER_TOTAL: ObisElement := ObisElement(0, 2, 4, 0, 0)

  /** The literal the constructor encodes. */
  const NEGATIVE_ACTIVE_POWER_TOTAL_LIMIT: uint32 := 3480

  /** An element of the negative active power total class: channel, index, type and tariff all agree. */
  predicate IsNegativeActivePowerTotal(e: ObisElement)
  {
    e.channel == NEGATIVE_ACTIVE_POWER_TOTAL.channel && e.index == NEGATIVE_ACTIVE_POWER_TOTAL.index &&
    e.obisType == NEGATIVE_ACTIVE_POWER_TOTAL.obisType && e.tariff == NEGATIVE_ACTIVE_POWER_TOTAL.tariff
  }

  /** The cached element: the negative active power total class carrying the limit. */
  function MaxNegativeActivePowerTotal(): (clamp: ObisElement)
    ensures IsNegativeActivePowerTotal(clamp) && clamp.value == NEGATIVE_ACTIVE_POWER_TOTAL_LIMIT
  {
    NEGATIVE_ACTIVE_POWER_TOTAL.(value := NEGATIVE_ACTIVE_POWER_TOTAL_LIMIT)
  }

  /** One step of the walk: a candidate above the clamp's value becomes the clamp element. */
  function PatchElement(e: ObisElement, clamp: ObisElement): ObisElement
  {
    if IsNegativeActivePowerTotal(e) && e.value > clamp.value then clamp else e
  }

  /** The element list after the whole walk, built from the end so a forward loop extends it step by step. */
  function PatchedElements(elements: seq<ObisElement>, clamp: ObisElement): (patched: seq<ObisElement>)
    ensures |patched| == |elements|
    decreases |elements|
  {
    if elements == [] then []
    else PatchedElements(elements[..|elements| - 1], clamp) + [PatchElement(elements[|elements| - 1], clamp)]
  }

  /** patch: only packets with the plain emeter protocol id are walked. */
  function PatchedPacket(packet: PacketBytes, clamp: ObisElement): PacketBytes
  {
    if packet.header.protocolId == SMA_EMETER_PROTOCOL_ID then
      packet.(elements := PatchedElements(packet.elements, clamp))
    else packet
  }

  /** The walk visits each element once: element i of the result is element i patched on its own. */
  lemma {:induction false} PatchedElementsAt(elements: seq<ObisElement>, clamp: ObisElement, i: nat)
    requires i < |elements|
    ensures PatchedElements(elements, clamp)[i] == PatchElement(elements[i], clamp)
  {
    var k := |elements| - 1;
    if i < k {
      PatchedElementsAt(elements[..k], clamp, i);
    }
  }

  /**
   * What patching changes: the header and the length stay; an element is
   * replaced by the cached element exactly when the packet is an emeter
   * packet and the element is a negative active power total above the limit;
   * every other element is left as it was.
   */
  lemma {:induction false} PatchChangesOnlyCandidatesAboveLimit(packet: PacketBytes, i: nat)
    requires i < |packet.elements|
    ensures var patched := PatchedPacket(packet, MaxNegativeActivePowerTotal());
      && patched.header == packet.header
      && |patched.elements| == |packet.elements|
      && var e := packet.elements[i];
      if packet.header.protocolId == SMA_EMETER_PROTOCOL_ID && IsNegativeActivePowerTotal(e) && e.value > NEGATIVE_ACTIVE_POWER_TOTAL_LIMIT
      then patched.elements[i] == MaxNegativeActivePowerTotal()
      else patched.elements[i] == e
  {
    if packet.header.protocolId == SMA_EMETER_PROTOCOL_ID {
      PatchedElementsAt(packet.elements, MaxNegativeActivePowerTotal(), i);
    }
  }

  /** After patching an emeter packet, no negative active power total exceeds the limit. */
  lemma {:induction false} PatchBoundsNegativeActivePower(packet: PacketBytes)
    requires packet.header.protocolId == SMA_EMETER_PROTOCOL_ID
    ensures var patched := PatchedPacket(packet, MaxNegativeActivePowerTotal()).elements;
      forall i :: 0 <= i < |patched| && IsNegativeActivePowerTotal(patched[i]) ==> patched[i].value <= NEGATIVE_ACTIVE_POWER_TOTAL_LIMIT
  {
    var patched := PatchedPacket(packet, MaxNegativeActivePowerTotal()).elements;
    forall i | 0 <= i < |patched| && IsNegativeActivePowerTotal(patched[i])
      ensures patched[i].value <= NEGATIVE_ACTIVE_POWER_TOTAL_LIMIT
    {
      PatchChangesOnlyCandidatesAboveLimit(packet, i);
    }
  }

  /** Patching twice gives the same bytes as patching once. */
  lemma {:induction false} PatchIsIdempotent(packet: PacketBytes)
    ensures var once := PatchedPacket(packet, MaxNegativeActivePowerTotal());
      PatchedPacket(once, MaxNegativeActivePowerTotal()) == once
  {
    var clamp := MaxNegativeActivePowerTotal();
    var once := PatchedPacket(packet, clamp);
    if packet.header.protocolId == SMA_EMETER_PROTOCOL_ID {
      var twice := PatchedElements(once.elements, clamp);
      forall i | 0 <= i < |twice|
        ensures twice[i] == once.elements[i]
      {
        PatchedElementsAt(once.elements, clamp, i);
        PatchedElementsAt(packet.elements, clamp, i);
      }
    }
  }

  /** Packets of any other protocol, the extended emeter one included, pass unchanged. */
  lemma {:induction false} PatchLeavesOtherProtocols(packet: PacketBytes)
    requires packet.header.protocolId != SMA_EMETER_PROTOCOL_ID
    ensures PatchedPacket(packet, MaxNegativeActivePowerTotal()) == packet
    ensures SMA_EXTENDED_EMETER_PROTOCOL_ID != SMA_EMETER_PROTOCOL_ID
  {
  }

  /** class PacketPatcher: its only state is the clamp element, encoded once. */
  class PacketPatcher {
    const maxNegativeActivePowerTotalBytes: ObisElement

    predicate Valid()
    {
      maxNegativeActivePowerTotalBytes == MaxNegativeActivePowerTotal()
    }

    constructor ()
      ensures Valid()
    {
      maxNegativeActivePowerTotalBytes := MaxNegativeActivePowerTotal();
    }

    /** patch: rewrite the packet in the caller's buffer; `src` plays no part. */
    method Patch(packet: Datagram, src: SockAddr)
      requires Valid()
      modifies packet.elements
      ensures packet.Bytes() == PatchedPacket(old(packet.Bytes()), MaxNegativeActivePowerTotal())
    {
      if packet.header.protocolId == SMA_EMETER_PROTOCOL_ID {
        ghost var original := packet.elements[..];
        var i := 0;
        while i < packet.elements.Length
          invariant 0 <= i <= packet.elements.Length
          invariant packet.elements[..i] == PatchedElements(original[..i], maxNegativeActivePowerTotalBytes)
          invariant forall k :: i <= k < packet.elements.Length ==> packet.elements[k] == original[k]
        {
          var e := packet.elements[i];
          var maxValue := maxNegativeActivePowerTotalBytes.value;
          ghost var done := packet.elements[..i];
          if IsNegativeActivePowerTotal(e) && e.value > maxValue {
            packet.elements[i] := maxNegativeActivePowerTotalBytes;
          }
          assert packet.elements[..i] == done;
          assert original[..i + 1][..i] == original[..i];
          assert packet.elements[..i + 1] == done + [PatchElement(original[i], maxNegativeActivePowerTotalBytes)];
          i := i + 1;
        }
        assert original[..packet.elements.Length] == original;
      }
    }
  }
}
