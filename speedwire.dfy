/**
 * The parts of a speedwire datagram the relay looks at. Decoding is done by
 * an external protocol library; here its answers are fields of a header
 * value, and the payload that the patcher may rewrite is a mutable array of
 * OBIS measurement elements.
 */
module Speedwire {
  import opened Net

  const SMA_EMETER_PROTOCOL_ID: uint16 := 0x6069
  const SMA_EXTENDED_EMETER_PROTOCOL_ID: uint16 := 0x6081
  const SMA_INVERTER_PROTOCOL_ID: uint16 := 0x6065
  const SMA_ENCRYPTION_PROTOCOL_ID: uint16 := 0x6075

  /** The well-known speedwire UDP port. */
  const SPEEDWIRE_PORT: uint16 := 9522

  /** What the emeter protocol view reports. */
  datatype EmeterFields = EmeterFields(susyId: uint16, serialNumber: uint32, time: uint32)

  /** What the inverter protocol view reports. */
  datatype InverterFields = InverterFields(srcSusyId: uint16, srcSerialNumber: uint32, packetId: uint16)

  /** The decoded, immutable part of a datagram: the external decoder's answers. */
  datatype Header = Header(
    checkHeader: bool,              // SpeedwireHeader::checkHeader
    isValidData2Packet: bool,
    protocolId: uint16,
    isValidDiscoveryPacket: bool,
    isMulticastRequest: bool,       // discovery view
    isMulticastResponse: bool,      // discovery view
    emeter: EmeterFields,
    inverter: InverterFields)

  /** One OBIS measurement element: channel, index, type, tariff and its 4-byte value. */
  datatype ObisElement = ObisElement(channel: uint8, index: uint8, obisType: uint8, tariff: uint8, value: uint32)

  /** The content of a datagram at one moment: what a transmission carries. */
  datatype PacketBytes = PacketBytes(header: Header, elements: seq<ObisElement>)

  /**
   * A received datagram. Its length never changes; the elements the
   * first/next walk of the emeter view visits can be rewritten in place.
   */
  class Datagram {
    const header: Header
    const elements: array<ObisElement>

    constructor (header: Header, elements: seq<ObisElement>)
      ensures this.header == header && this.elements[..] == elements
      ensures fresh(this.elements)
    {
      this.header := header;
      this.elements := new ObisElement[|elements|](i requires 0 <= i < |elements| => elements[i]);
    }

    function Bytes(): PacketBytes
      reads elements
    {
      PacketBytes(header, elements[..])
    }
  }

  /** Where a transmission goes: the send socket's own destination, or an explicit address. */
  datatype Destination = SocketDefault | ToAddress(addr: SockAddr)

  /** One call of the socket send primitive: via which local interface, to where, which bytes. */
  datatype Transmission = Transmission(via: string, destination: Destination, packet: PacketBytes)
}
