/** The resolved socket address: a tagged endpoint instead of the C
    `sockaddr_storage` reinterpreted as `sockaddr_in` or `sockaddr_in6`. */
module NetAddr {

  type byte = x: int | 0 <= x < 256

  /** The four bytes of `sin_addr`, most significant first. */
  type Addr4 = a: seq<byte> | |a| == 4 witness [0, 0, 0, 0]

  /** The sixteen bytes of `sin6_addr`, most significant first. */
  type Addr16 = a: seq<byte> | |a| == 16 witness seq(16, _ => 0)

  /** `INADDR_ANY`. */
  const AnyAddr4: Addr4 := [0, 0, 0, 0]

  /** The IPv6 unspecified address `::`, written by the `memset` at line 183. */
  const AnyAddr16: Addr16 := [0, 0, 0, 0, 0, 0, 0, 0, 0, 0, 0, 0, 0, 0, 0, 0]

  /** A port number as stored in `sin_port`/`sin6_port`: two bytes in network
      (big-endian) order, whatever the host's byte order. */
  datatype Be16 = Be16(high: byte, low: byte)

  const MaxPort: nat := 0xFFFF

  /** `htons`: the network-order bytes of a 16-bit port number. */
  function Htons(v: nat): (p: Be16)
    requires v <= MaxPort
    ensures Ntohs(p) == v
  {
    Be16(v / 256, v % 256)
  }

  /** `ntohs`: the number whose network-order bytes are `p`. */
  function Ntohs(p: Be16): (v: nat)
    ensures v <= MaxPort
  {
    p.high as nat * 256 + p.low
  }

  /** Decoding then encoding a stored port gives the same two bytes. */
  lemma HtonsNtohs(p: Be16)
    ensures Htons(Ntohs(p)) == p
  {
  }

  /** Two ports with the same number are stored identically. */
  lemma HtonsInjective(v: nat, w: nat)
    requires v <= MaxPort && w <= MaxPort
    ensures Htons(v) == Htons(w) <==> v == w
  {
  }

  /** A resolved endpoint: family, address and network-order port. */
  datatype Endpoint =
    | V4(addr4: Addr4, port: Be16)
    | V6(addr16: Addr16, port: Be16)
}
