/**
 * Fixed-width integers, socket addresses, the subnet-residency test, the
 * wrap-safe clock difference and the host services (interface enumeration,
 * prefix lengths, address conversion) that the relay consumes but does not own.
 */
module Net {

  newtype uint8 = x: int | 0 <= x < 0x100
  newtype uint16 = x: int | 0 <= x < 0x1_0000
  newtype uint32 = x: int | 0 <= x < 0x1_0000_0000

  datatype Option<+T> = None | Some(value: T)

  function Min(a: int, b: int): int { if a < b then a else b }

  /** n zero bits. */
  function Zeros(n: nat): (bits: seq<bool>)
    ensures |bits| == n && forall i :: 0 <= i < n ==> !bits[i]
  {
    if n == 0 then [] else Zeros(n - 1) + [false]
  }

  /** An IPv4 address (struct in_addr) as its 32 bits, most significant first. */
  type IPv4 = a: seq<bool> | |a| == 32 witness Zeros(32)

  /** An IPv6 address (struct in6_addr) as its 128 bits, most significant first. */
  type IPv6 = a: seq<bool> | |a| == 128 witness Zeros(128)

  const IPV4_ZERO: IPv4 := Zeros(32)
  const IPV6_ZERO: IPv6 := Zeros(128)

  /** A struct sockaddr, by address family. */
  datatype SockAddr =
    | Inet(addr: IPv4, port: uint16)        // AF_INET
    | Inet6(addr6: IPv6, port6: uint16)     // AF_INET6
    | OtherFamily(family: uint16)           // any other family, AF_UNSPEC (0) included

  /** The sockaddr that memset(0) leaves behind. */
  const ZERO_SOCKADDR: SockAddr := OtherFamily(0)

  /** The sin_addr of a sockaddr read as a sockaddr_in. */
  function SinAddr(s: SockAddr): IPv4
  {
    if s.Inet? then s.addr else IPV4_ZERO
  }

  /**
   * resideOnSameSubnet: the two addresses agree on their first `prefix` bits
   * (section 3.1 of RFC 4632, section 2.3 of RFC 4291). A prefix longer than
   * the address compares every bit.
   */
  predicate ResideOnSameSubnet(a: seq<bool>, b: seq<bool>, prefix: uint32)
    requires |a| == |b|
  {
    forall i :: 0 <= i < Min(prefix as int, |a|) ==> a[i] == b[i]
  }

  /** With a full-length prefix, residing on the same subnet is address equality. */
  lemma {:induction false} FullPrefixIsEquality(a: seq<bool>, b: seq<bool>, prefix: uint32)
    requires |a| == |b| <= prefix as int
    ensures ResideOnSameSubnet(a, b, prefix) <==> a == b
  {
  }

  /** Residing on the same subnet is an equivalence relation for a fixed prefix. */
  lemma {:induction false} SubnetIsEquivalence(a: seq<bool>, b: seq<bool>, c: seq<bool>, prefix: uint32)
    requires |a| == |b| == |c|
    ensures ResideOnSameSubnet(a, a, prefix)
    ensures ResideOnSameSubnet(a, b, prefix) ==> ResideOnSameSubnet(b, a, prefix)
    ensures ResideOnSameSubnet(a, b, prefix) && ResideOnSameSubnet(b, c, prefix) ==> ResideOnSameSubnet(a, c, prefix)
  {
  }

  function Pow2(n: nat): (p: nat)
    ensures p > 0
  {
    if n == 0 then 1 else 2 * Pow2(n - 1)
  }

  /** The eight bits of an octet, most significant first. */
  function OctetBits(x: uint8): (bits: seq<bool>)
    ensures |bits| == 8
  {
    seq(8, i requires 0 <= i < 8 => (x as int / Pow2(7 - i)) % 2 == 1)
  }

  /** The dotted-quad address a.b.c.d. */
  function Ipv4(a: uint8, b: uint8, c: uint8, d: uint8): IPv4
  {
    OctetBits(a) + OctetBits(b) + OctetBits(c) + OctetBits(d)
  }

  const CLOCK_MODULUS: int := 0x1_0000_0000

  /**
   * SpeedwireTime::calculateAbsTimeDifference on the 32-bit millisecond clock:
   * the distance between two readings the shorter way round the wrap.
   */
  function AbsTimeDifference(a: uint32, b: uint32): nat
  {
    var forward := (a as int - b as int) % CLOCK_MODULUS;
    if forward <= CLOCK_MODULUS / 2 then forward else CLOCK_MODULUS - forward
  }

  /** Away from the wrap, the difference is the ordinary absolute difference. */
  lemma {:induction false} TimeDifferenceWithoutWrap(a: uint32, b: uint32)
    requires -(CLOCK_MODULUS / 2) <= a as int - b as int <= CLOCK_MODULUS / 2
    ensures AbsTimeDifference(a, b) == if a >= b then a as int - b as int else b as int - a as int
  {
  }

  /** The difference does not depend on the order of the two readings, and never exceeds half the clock. */
  lemma {:induction false} TimeDifferenceSymmetric(a: uint32, b: uint32)
    ensures AbsTimeDifference(a, b) == AbsTimeDifference(b, a) <= CLOCK_MODULUS / 2
  {
  }

  /**
   * The host services of the external host and address-conversion layer, as
   * values: the local IPv4 addresses in enumeration order
   * (getLocalIPv4Addresses), the prefix length of an interface
   * (getInterfacePrefixLength) and the text-to-address conversions.
   */
  datatype LocalHost = LocalHost(
    localIPv4Addresses: seq<string>,
    interfacePrefixLength: string -> uint32,
    isIpv4: string -> bool,
    isIpv6: string -> bool,
    toInAddress: string -> IPv4,
    toIn6Address: string -> IPv6)
}
