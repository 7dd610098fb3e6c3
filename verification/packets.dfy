/**
 * The decoded packets the analyzers read.
 *
 * A captured packet is a chain of protocol layers.  The analyzers ask of a
 * packet only whether it carries a layer of a given kind and, if so, read a few
 * of that layer's fields; each such layer is therefore an optional header
 * here.  The chain itself is kept as the linked list of layers that the parser
 * walks through `.payload`, so that the names of the layers (and only the
 * names) are available in order.
 */
module Packets {
  import opened Collections
  import opened Utf8

  /** A layer and the rest of the chain; `NoPayload` is the falsy end of every chain. */
  datatype LayerChain = NoPayload | Layer(name: string, payload: LayerChain)

  datatype IPHeader = IPHeader(src: string, dst: string)
  datatype ARPHeader = ARPHeader(psrc: string, pdst: string)
  datatype TCPHeader = TCPHeader(sport: int, dport: int, flags: bv8)
  datatype UDPHeader = UDPHeader(sport: int, dport: int)
  /** `qr` is 0 for a query and 1 for a response; `qname` is absent when there is no question section. */
  datatype DNSHeader = DNSHeader(qr: int, qname: Option<seq<byte>>)

  /**
   * A captured packet: arrival time, length in bytes, its layer chain and the
   * headers of the layers the analyzers consult.  `malformed` marks a packet
   * on which reading those fields raises an exception.
   */
  datatype Packet = Packet(
    time: real,
    length: nat,
    chain: LayerChain,
    ip: Option<IPHeader>,
    arp: Option<ARPHeader>,
    tcp: Option<TCPHeader>,
    udp: Option<UDPHeader>,
    icmp: bool,
    dns: Option<DNSHeader>,
    raw: Option<seq<byte>>,
    malformed: bool)

  /** TCP flag bits, and the mask the connection tracker uses for "SYN-ACK". */
  const FinBit: bv8 := 0x01
  const SynBit: bv8 := 0x02
  const RstBit: bv8 := 0x04
  const AckBit: bv8 := 0x10
  const SynAckMask: bv8 := 0x12

  function LayerNames(chain: LayerChain): seq<string>
  {
    match chain
    case NoPayload => []
    case Layer(name, payload) => [name] + LayerNames(payload)
  }
}
