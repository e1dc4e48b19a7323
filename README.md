# speedwire-router, modelled in Dafny

speedwire-router relays SMA speedwire UDP traffic between subnets. Speedwire
is the multicast protocol that SMA energy meters and inverters use on port
9522, with group 239.12.255.254.

For each datagram that passes the speedwire header check, the router does the
following:

- It hands the datagram to every registered protocol receiver: first the
  emeter receiver, then the inverter receiver.
- Each receiver classifies the datagram by protocol id. It then asks its own
  bounce detector whether it has seen the datagram before.
- A bounced datagram is dropped.
- A new datagram has its fingerprint recorded and is handed to the patcher.
  The patcher rewrites only packets with the plain emeter protocol id
  (0x6069): in those, every negative active power total above 3480 is
  clamped to 3480 in place. Extended emeter, inverter and encryption packets
  pass through the patcher unchanged. The receiver reports FORWARD.
- On FORWARD, the router hands the datagram to every sender in vector order.
  The senders are:
  - one multicast sender per local IPv4 interface;
  - one unicast sender per known device that no interface reaches by
    multicast.
- A multicast sender transmits only when the packet's source has the
  interface's address family and does not lie on the interface's subnet.
  This is the anti-loop rule.
- A unicast sender transmits only when the packet's source does not lie on
  the peer's subnet, measured with the interface's prefix length. It sends
  to the peer at port 9522.

The discovery receiver forwards discovery requests. It answers a discovery
response by unicasting it to every requester recorded in the last second,
through each local interface that shares that requester's subnet.

Modules, one file each:

- `Net` (`net.dfy`): fixed-width integers, socket addresses as bit sequences,
  the subnet-residency test, the wrap-safe millisecond clock difference, and
  the host services as a value (`LocalHost`).
- `Speedwire` (`speedwire.dfy`): the decoded header, OBIS elements, the
  mutable `Datagram` and the `Transmission` a socket call makes.
- `Bounce` (`bounce_detector.dfy`): fingerprints and the class
  `BounceDetector` over a 16-slot array. Its ghost field `received` holds every
  fingerprint recorded so far, and `RingAfter(received)` is the table it must
  equal. The lemmas characterise detection exactly: the last 16 recorded
  fingerprints, plus the zeroed pre-fill while fewer than 16 were recorded.
- `Patching` (`packet_patcher.dfy`): the class `PacketPatcher`, whose in-place
  loop is proved equal to `PatchedPacket`. The lemmas prove four things about
  `PatchedPacket`: a bound, a frame, idempotence, and that other protocols are
  left alone.
- `Senders` (`packet_sender.dfy`): the sender decision as a function returning
  the transmissions one `send` makes, and the fan-out over a sender vector.
- `Receivers` (`packet_receiver.dfy`): the three receiver classes, their
  verdict functions, and the discovery correlation as a function.
  `AnswerResponse` is the nested loop proved equal to that function.
- `Relay` (`relay.dfy`): the sender-list construction of `main`, the class
  `Router` with its dispatch of one datagram, and an end-to-end echo scenario.

Two modelling choices follow the source files directly:

- The bounce comparison follows `src/BounceDetector.cpp:43-44`. It looks at
  susy id, serial number, timer and packet id only. It does not compare the
  packet type tag, the source address or the creation time.
- The receiver header declares `receive` as returning a status
  (`include/SpeedwirePacketReceiver.hpp:34`). The implementation instead
  calls the senders itself. The model returns the status, and the router is
  the single place that calls the senders on FORWARD
  (`src/main.cpp:167-174`). The transmissions are the same either way.

## Model

| member | source | states |
|---|---|---|
| Net.FullPrefixIsEquality | src/SpeedwirePacketSender.cpp:55-60 | with a prefix as long as the address, residing on the same subnet is address equality |
| Net.SubnetIsEquivalence | src/SpeedwirePacketSender.cpp:55-60 | for a fixed prefix, subnet residency is reflexive, symmetric and transitive |
| Net.TimeDifferenceWithoutWrap | src/SpeedwirePacketReceiver.cpp:262-263 | away from the 2^32 wrap, the clock difference is the ordinary absolute difference |
| Net.TimeDifferenceSymmetric | src/SpeedwirePacketReceiver.cpp:262-263 | the clock difference does not depend on argument order and never exceeds half the clock range |
| Bounce.PacketTypeCode | include/BounceDetector.hpp:28-34 | every packet type has a uint8 code below 5, and the code is 0 exactly for UNKNOWN |
| Bounce.PacketTypeCodesDistinct | include/BounceDetector.hpp:28-34 | two packet types share a code only when they are the same type |
| Bounce.DefaultIsZeroedTyped | include/BounceDetector.hpp:50-58 | the default fingerprint is the typed one for an UNKNOWN packet from the zeroed address at time 0, with code 0 |
| Bounce.EmeterFingerprint | src/BounceDetector.cpp:56-63 | the identity of an emeter record is the meter's susy id, serial number and own time, with packet id 0 |
| Bounce.InverterFingerprint | src/BounceDetector.cpp:69-75 | the identity of an inverter record is the sender's susy id, serial number and packet id, with timer 0 |
| Bounce.SameIdentity | src/BounceDetector.cpp:43-44 | two records match exactly when they agree on everything except the source address, the type tag, the creation time and the discovery address |
| Bounce.EmeterIdentityIsMeterFields | src/BounceDetector.cpp:56-63 | two emeter fingerprints match exactly when susy id, serial and meter time agree, whatever the source and time of receipt |
| Bounce.InverterIdentityIsInverterFields | src/BounceDetector.cpp:69-75 | two inverter fingerprints match exactly when susy id, serial and packet id agree, whatever the source and time of receipt |
| Bounce.EmeterInverterCollide | src/BounceDetector.cpp:43-44 | with no type tag in the comparison, an emeter packet with time 0 and an inverter packet with packet id 0 match when susy id and serial agree |
| Bounce.RingAfter | src/BounceDetector.cpp:27-34 | the history table always has 16 slots |
| Bounce.RingKeepsRecent | src/BounceDetector.cpp:27-34 | each of the last 16 recorded fingerprints is still in slot (position mod 16) |
| Bounce.RingPrefill | src/BounceDetector.cpp:13-22 | a slot no record has reached yet still holds the zeroed pre-fill |
| Bounce.RingSlot | src/BounceDetector.cpp:27-34 | every slot that a record has reached holds one of the last 16 recorded, namely the one whose position is congruent to the slot modulo 16 |
| Bounce.MatchInReachedSlot | src/BounceDetector.cpp:39-50 | a match in a reached slot is a match with one of the last 16 recorded |
| Bounce.DetectedOnlyFromWindow | src/BounceDetector.cpp:39-50 | a matching slot means a match with one of the last 16 recorded, or with the pre-fill while fewer than 16 were recorded |
| Bounce.DetectedFromWindow | src/BounceDetector.cpp:39-50 | a fingerprint matching one of the last 16 recorded is detected |
| Bounce.DetectedFromPrefill | src/BounceDetector.cpp:39-50 | while fewer than 16 were recorded, a fingerprint matching the zeroed pre-fill is detected |
| Bounce.HistoryWindow | src/BounceDetector.cpp:39-50 | detection holds if and only if the fingerprint matches one of the last 16 recorded, or matches the pre-fill while fewer than 16 were recorded |
| Bounce.ReceivedThenBounced | src/BounceDetector.cpp:27-50 | right after a fingerprint is recorded, any packet with the same identity is detected as a bounce |
| Bounce.BouncedWhileInWindow | src/BounceDetector.cpp:27-50 | it stays detected while fewer than 16 further records follow |
| Bounce.ForgottenAfterSixteen | src/BounceDetector.cpp:27-50 | after 16 or more records of other identities, it is no longer detected |
| Bounce.FreshDetectorFlagsZeroIdentity | src/BounceDetector.cpp:13-22 | on a fresh detector, a packet whose four identity fields are zero matches the pre-fill |
| Bounce.FreshDetectorFlagsTypedFingerprint | include/BounceDetector.hpp:55-58 | a fingerprint built by the typed constructor with no identity field filled in is flagged as bounced on a fresh detector |
| Bounce.BounceDetector.constructor | src/BounceDetector.cpp:13-22 | all 16 slots hold the zeroed fingerprint, the replace index is 0, and nothing is recorded yet |
| Bounce.BounceDetector.Receive | src/BounceDetector.cpp:27-34 | a derivable fingerprint is written to the slot at the replace index and the index advances, wrapping from 15 to 0; no other slot changes; a fingerprint that cannot be derived changes nothing; the table stays the ring of everything recorded |
| Bounce.BounceDetector.IsBouncedPacket | src/BounceDetector.cpp:39-50 | true if and only if a fingerprint can be derived and some slot matches it on the four identity fields |
| Bounce.BounceDetector.GetHistory | include/BounceDetector.hpp:75 | the 16 slots, equal to the ring of everything recorded |
| Patching.MaxNegativeActivePowerTotal | src/PacketPatcher.cpp:12-17 | the cached element has the negative active power total class and the value 3480 |
| Patching.PatchedElements | src/PacketPatcher.cpp:38-59 | the walk keeps the number of elements |
| Patching.PatchedElementsAt | src/PacketPatcher.cpp:38-59 | each element is visited once: element i of the result is element i patched on its own |
| Patching.PatchChangesOnlyCandidatesAboveLimit | src/PacketPatcher.cpp:31-55 | header and length are kept; an element becomes the clamp element exactly when the packet has the plain emeter id and the element is a negative active power total above 3480; every other element is unchanged |
| Patching.PatchBoundsNegativeActivePower | src/PacketPatcher.cpp:38-59 | after patching an emeter packet, no negative active power total exceeds 3480 |
| Patching.PatchIsIdempotent | src/PacketPatcher.cpp:49-55 | patching twice gives the same bytes as patching once |
| Patching.PatchLeavesOtherProtocols | src/PacketPatcher.cpp:31 | a packet with any other protocol id passes unchanged; the extended emeter id is such an id |
| Patching.PacketPatcher.constructor | src/PacketPatcher.cpp:12-17 | the clamp element is computed once, from 3480 |
| Patching.PacketPatcher.Patch | src/PacketPatcher.cpp:22-62 | the caller's buffer afterwards holds the patched packet of its old contents; the source address plays no part |
| Senders.NewSender | src/SpeedwirePacketSender.cpp:15-37 | the interface text is classified as IPv4 first, else IPv6, else invalid: the IPv4 flag is set exactly when the host calls it IPv4; the IPv6 flag exactly when it is not IPv4 but IPv6; never both; the converted address and the interface's prefix length are kept |
| Senders.Send | src/SpeedwirePacketSender.cpp:49-131 | at most one transmission; the base sender makes none; a multicast sender transmits exactly when the source is of the interface's family and off its subnet, to the socket's own destination; a unicast sender transmits exactly when the source is off the peer's subnet, to the peer; the whole packet is sent via the sender's interface |
| Senders.MulticastNeverEchoes | src/SpeedwirePacketSender.cpp:49-61 | a multicast sender never re-emits a packet from its own subnet, from the other family, from a non-IP family, or when its interface is invalid |
| Senders.InvalidInterfaceIsInert | src/SpeedwirePacketSender.cpp:21-35 | a multicast sender built on a non-address interface never transmits |
| Senders.UnicastNeverReturnsToSource | src/SpeedwirePacketSender.cpp:87-131 | a unicast transmission goes to the peer at port 9522, in the source's family, and never to the source's own address |
| Senders.SubnetExclusionExample | src/SpeedwirePacketSender.cpp:49-61 | on interface 10.0.0.1/24, a packet from 10.0.0.5 is kept off the wire and one from 10.0.1.5 is forwarded |
| Senders.SendToAll | src/main.cpp:170-172 | the fan-out makes at most one transmission per sender |
| Senders.SendToAllMembership | src/main.cpp:170-172 | a transmission is in the fan-out if and only if some sender of the vector makes it |
| Receivers.PacketStatusCode | include/SpeedwirePacketReceiver.hpp:23-27 | IGNORED is 0, FORWARD is 2, DROP is the remaining value, and no code exceeds 2 |
| Receivers.ReceiversAreDisjoint | src/SpeedwirePacketReceiver.cpp:33-147 | whatever their histories, the emeter and inverter receivers never both claim the same datagram |
| Receivers.EmeterReinjectionDropped | src/SpeedwirePacketReceiver.cpp:51-55 | an emeter packet the receiver accepted is a bounce when it comes again, from any source and at any time, while fewer than 16 other packets were recorded in between |
| Receivers.InverterReinjectionDropped | src/SpeedwirePacketReceiver.cpp:108-112 | the same for an inverter packet through the inverter branch |
| Receivers.DiscoveryWindowExample | src/SpeedwirePacketReceiver.cpp:262-263 | a request recorded at time 0 is recent at 999 ms and no longer recent at 1001 ms |
| Receivers.InterfaceAnswersMembership | src/SpeedwirePacketReceiver.cpp:267-281 | for one request, a unicast is made if and only if it goes via a local interface whose subnet holds the requester, to the requester |
| Receivers.CorrelationSound | src/SpeedwirePacketReceiver.cpp:259-284 | every correlation unicast answers a recent discovery request in the history, via an interface on the requester's subnet |
| Receivers.CorrelationComplete | src/SpeedwirePacketReceiver.cpp:259-284 | every recent request in the history is answered via every local interface on its subnet |
| Receivers.CorrelationMembership | src/SpeedwirePacketReceiver.cpp:259-284 | the unicasts are exactly the pairs of a recent request and an interface on its subnet: the whole packet, to the request's source, via that interface |
| Receivers.CorrelationOfPrefix | src/SpeedwirePacketReceiver.cpp:261-283 | when one history slot holds the only recent request, the outer loop over any prefix yields that slot's answers, or nothing before it |
| Receivers.AnswersOfPrefix | src/SpeedwirePacketReceiver.cpp:268-281 | when one interface is the only one on the requester's subnet, the inner loop over any prefix yields that single answer, or nothing before it |
| Receivers.SingleRequesterSingleAnswer | src/SpeedwirePacketReceiver.cpp:259-284 | one recent requester and one interface on its subnet give exactly one unicast: to the requester, via that interface |
| Receivers.AnswerResponse | src/SpeedwirePacketReceiver.cpp:259-284 | the nested loop over history slots and local interfaces produces exactly the correlation trace |
| Receivers.EmeterPacketReceiver.constructor | src/SpeedwirePacketReceiver.cpp:22-28 | the protocol id is the emeter one, and the detector is its own and fresh |
| Receivers.EmeterPacketReceiver.Receive | src/SpeedwirePacketReceiver.cpp:33-72 | not a valid data2 packet with the emeter or extended emeter id: IGNORED, nothing changes; bounced: DROP, nothing changes; otherwise the fingerprint is recorded, the buffer is patched and the status is FORWARD |
| Receivers.InverterPacketReceiver.constructor | src/SpeedwirePacketReceiver.cpp:78-85 | the protocol id is the inverter one, and the detector is its own and fresh |
| Receivers.InverterPacketReceiver.Receive | src/SpeedwirePacketReceiver.cpp:90-213 | inverter and encryption packets share the one detector: a bounce gives DROP with no change; otherwise the derived fingerprint is recorded and the status is FORWARD; other packets give IGNORED; the patcher leaves both kinds' bytes unchanged |
| Receivers.DiscoveryPacketReceiver.constructor | src/SpeedwirePacketReceiver.cpp:219-226 | the protocol id is 0x0000, and the detector is its own and fresh |
| Receivers.DiscoveryPacketReceiver.Receive | src/SpeedwirePacketReceiver.cpp:231-286 | an invalid discovery packet gives IGNORED with no change; a bounce gives DROP with no change; otherwise the packet is recorded. A request gives FORWARD, unpatched. A response gives DROP and is unicast along the correlation trace of the history that now includes it. A packet that is neither request nor response is recorded and sent nowhere |
| Relay.MulticastSenderPerInterface | src/main.cpp:89-93 | exactly one multicast sender per local IPv4 address; the i-th is bound to the i-th address, with the multicast group as peer |
| Relay.UnicastSenderIffUnreachable | src/main.cpp:96-109 | a unicast sender exists if and only if a device's peer lies on no local interface's subnet; it is bound to that device's interface and peer |
| Relay.ReachableDeviceGetsNoUnicastSender | src/main.cpp:96-109 | a device reachable by multicast gets no unicast sender, whatever else the device list holds |
| Relay.IsReachableByMulticast | src/main.cpp:98-104 | the early-exit scan answers true exactly when some local interface's subnet holds the peer |
| Relay.ConfigureSenders | src/main.cpp:87-109 | the built vector is every multicast sender, in address order, followed by the unicast senders of unreachable devices, in device order |
| Relay.ForwardToSenders | src/main.cpp:170-172 | the sender loop makes exactly the fan-out's transmissions, in vector order |
| Relay.Router.constructor | src/main.cpp:80-109 | emeter receiver first, then inverter receiver, each with its own fresh detector; the senders are the configured vector |
| Relay.Router.Dispatch | src/main.cpp:162-175 | a datagram failing the header check changes nothing and sends nothing. Otherwise each receiver records per its verdict, the buffer ends patched when the emeter receiver accepted, and each FORWARD sends the current bytes through every sender in order. At most one receiver forwards |
| Relay.EchoVerdicts | src/SpeedwirePacketReceiver.cpp:43-55 | on fresh detectors, an emeter packet with non-zero time is accepted by the emeter receiver and ignored by the inverter receiver; once recorded, the same packet from any source at any time is a bounce |
| Relay.EmeterEchoIsDropped | src/main.cpp:162-175 | an emeter packet relayed once goes out patched through every configured sender; when it comes back, it is dropped and nothing is sent |

## Left out

- The poll loop, `recvfrom`, socket creation and the socket factory are not modelled. The model starts from one received datagram and its source address.
- Sending returns the `Transmission`s as values. The socket call, its byte count and the error log on a short send are not modelled. As in the source, there is no retry.
- Which interface's socket a datagram arrived on, and the round structure of `poll`, are not modelled.
- Logging, `toString`, `hexdump` and the `#if 0` / commented-out blocks are not modelled. This includes the broadcast re-send and the fake encryption response.
- Device discovery and the command line are not modelled. The device list is a parameter of the router.
- Speedwire header parsing (`checkHeader`, data2 and discovery validity, protocol ids, the emeter, inverter and discovery field accessors) belongs to an external protocol library. It is modelled as the fields of `Header`.
- The byte layout of OBIS elements and the first/next walk are not modelled. The payload is a sequence of decoded elements.
- The clamp element's encoding (`ObisData::toByteArray`) is not modelled. Its value field is taken to be 3480.
- Bounce.EmeterFingerprint and Bounce.InverterFingerprint also set the source address, the type tag and the creation time, following the record shape of `include/BounceDetector.hpp:36-58`. The `insertFingerprint` overloads in `src/BounceDetector.cpp:56-75` write only the four identity fields into the slot, so there the slot keeps its earlier values for the other fields. The emeter and inverter receivers never read those fields, so no verdict differs.
- The fingerprint derivation for encryption and discovery packets (the `SpeedwireHeader` overload of `setFingerprint`) is not part of this model. It is a parameter, `HeaderFingerprinter`, that may answer "no fingerprint". In that case the packet is neither detected nor recorded.
- `Receivers.RecentRequest` reads the clock once per receive call, as `now`. The source reads it again for each history slot.
- `Net.AbsTimeDifference` is the distance the shorter way round the 32-bit wrap. `SpeedwireTime::calculateAbsTimeDifference` is not part of this model, so its definition is an assumption.
- `Net.SinAddr` gives the zero address for a non-IPv4 source. The source reinterprets the bytes of such a sockaddr as an IPv4 one.
- `AddressConversion::resideOnSameSubnet` is not part of this model. It is taken to compare the first prefix-length bits. A prefix longer than the address compares every bit.
- The discovery receiver is modelled, but the router registers only the emeter and inverter receivers, as `main` does.
- The receiver implementation sends to its own sender vector; the model reports the status to the router, which sends instead.
- A multicast sender calls `send` without an address on the socket the external socket factory hands it. The model records the destination as `SocketDefault`: whatever default that socket has, which the factory decides.
