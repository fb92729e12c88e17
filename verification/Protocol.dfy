/** Commands, address types, addresses and the request shared by the inbound and outbound sides. */
module Protocol {
  import opened Bytes

  datatype Option<+T> = None | Some(value: T)

  const CR: byte := 0x0D
  const LF: byte := 0x0A
  const CRLF: bytes := [CR, LF]

  datatype Command = Connect | Bind | Udp

  function CommandByte(c: Command): byte {
    match c
    case Connect => 1
    case Bind => 2
    case Udp => 3
  }

  function CommandFrom(b: byte): Option<Command> {
    if b == 1 then Some(Connect)
    else if b == 2 then Some(Bind)
    else if b == 3 then Some(Udp)
    else None
  }

  datatype Atype = IPv4 | IPv6 | DomainName

  function AtypeByte(t: Atype): byte {
    match t
    case IPv4 => 1
    case IPv6 => 4
    case DomainName => 3
  }

  /** The inherent, fallible `Atype::from`; it shadows the trait method that falls back to IPv4. */
  function AtypeFrom(b: byte): Option<Atype> {
    if b == 1 then Some(IPv4)
    else if b == 4 then Some(IPv6)
    else if b == 3 then Some(DomainName)
    else None
  }

  datatype Address =
    | V4(v4: u32)
    | V6(v6: u128)
    | Domain(name: bytes)

  function AtypeOf(a: Address): Atype {
    match a
    case V4(_) => IPv4
    case V6(_) => IPv6
    case Domain(_) => DomainName
  }

  /** `octets()` of an IP address, or the bytes of a name without any length. */
  function RawAddress(a: Address): bytes {
    match a
    case V4(v) => ToBigEndian(4, v)
    case V6(v) => ToBigEndian(16, v)
    case Domain(name) => name
  }

  datatype Endpoint = Endpoint(addr: Address, port: u16)

  datatype TransportProtocol = TCP | UDP
  datatype ProxyProtocol = SOCKS | TROJAN | DIRECT

  function TransportFor(c: Command): TransportProtocol {
    if c.Udp? then UDP else TCP
  }

  datatype InboundRequest = InboundRequest(
    atype: Atype,
    addr: Address,
    port: u16,
    command: Command,
    transport: TransportProtocol,
    proxy: ProxyProtocol)

  /** What both parsers establish: the type byte names the variant, and a name fits its length byte. */
  predicate Consistent(r: InboundRequest) {
    && r.atype == AtypeOf(r.addr)
    && (r.addr.Domain? ==> |r.addr.name| < 256)
    && r.transport == TransportFor(r.command)
  }

  /** The bytes for commands and address types on the wire; every other byte stands for none. */
  lemma WireCodes(b: byte)
    ensures CommandFrom(b) == if b == 1 then Some(Connect) else if b == 2 then Some(Bind)
                              else if b == 3 then Some(Udp) else None
    ensures forall c :: CommandFrom(b) == Some(c) <==> b == CommandByte(c)
    ensures AtypeFrom(b).Some? <==> b == 1 || b == 3 || b == 4
    ensures forall t :: AtypeFrom(b) == Some(t) <==> b == AtypeByte(t)
  {
  }
}
