/**
 The parsers as read plans. A parser awaits one `read_exact` or `read_uN` after another, and which
 read it awaits depends only on the bytes it has acquired, so `Ask(g, acc)` says how many bytes the
 read in progress still misses, or that the parser returned.
 */
module Parsers {
  import opened Bytes
  import opened Protocol

  const HEX_SIZE := 56
  const BUF_SIZE := 4096
  const VERSION: byte := 5

  datatype Grammar =
    | Exactly(n: nat)                        // one `read_exact` of n bytes
    | TrojanHeader                           // trojan::parse
    | UdpHeader                              // parse_udp, before address resolution
    | UdpFrame(unresolvable: set<bytes>)     // one turn of a deframing loop; names that DNS refuses
    | Socks5Request                          // socks5::parse

  type pos = n: int | 0 < n witness 1

  datatype Fault = UnexpectedEof | BrokenPipe | Unsupported | DnsPanic | SizePanic

  datatype Want = More(n: pos) | Full | Refuse(e: Fault)

  /** `k` consecutive `read_u16` calls, the first at offset `i`. */
  function AskU16s(acc: bytes, i: nat, k: nat): Want
    requires i <= |acc|
  {
    if |acc| < i + 2 * k then More(2 - (|acc| - i) % 2) else Full
  }

  /** The address type at offset `i` and the address after it. `named` is false where the name's buffer
      has length zero, so that its `read_exact` reads nothing. */
  function AskAddress(acc: bytes, i: nat, named: bool): Want
    requires i <= |acc|
  {
    if |acc| == i then More(1)
    else match AtypeFrom(acc[i])
      case None => Refuse(Unsupported)
      case Some(IPv4) => if |acc| < i + 5 then More(i + 5 - |acc|) else Full
      case Some(IPv6) => if |acc| < i + 17 then More(i + 17 - |acc|) else Full
      case Some(DomainName) =>
        if |acc| < i + 2 then More(1)
        else if named && |acc| < i + 2 + acc[i + 1] then More(i + 2 + acc[i + 1] - |acc|)
        else Full
  }

  /** The offset just past the address. */
  function AddressEnd(acc: bytes, i: nat, named: bool): (e: nat)
    requires i <= |acc| && AskAddress(acc, i, named).Full?
    ensures i + 2 <= e <= |acc|
  {
    match AtypeFrom(acc[i])
    case Some(IPv4) => i + 5
    case Some(IPv6) => i + 17
    case Some(DomainName) => if named then i + 2 + acc[i + 1] else i + 2
  }

  function U16At(acc: bytes, i: nat): u16
    requires i + 2 <= |acc|
  {
    Widths();
    FromBigEndian(acc[i..i + 2])
  }

  function AddressAt(acc: bytes, i: nat, named: bool): (a: Address)
    requires i <= |acc| && AskAddress(acc, i, named).Full?
    ensures i < |acc| && AtypeFrom(acc[i]) == Some(AtypeOf(a)) && (a.Domain? ==> |a.name| < 256)
  {
    Widths();
    match AtypeFrom(acc[i])
    case Some(IPv4) => V4(FromBigEndian(acc[i + 1..i + 5]))
    case Some(IPv6) => V6(FromBigEndian(acc[i + 1..i + 17]))
    case Some(DomainName) => Domain(if named then acc[i + 2..i + 2 + acc[i + 1]] else [])
  }

  /** An address and then `k` two-byte fields, the port first. */
  function AskEndpoint(acc: bytes, i: nat, named: bool, k: nat): Want
    requires i <= |acc|
  {
    var a := AskAddress(acc, i, named);
    if a.Full? then AskU16s(acc, AddressEnd(acc, i, named), k) else a
  }

  function Ask(g: Grammar, acc: bytes): Want
  {
    match g
    case Exactly(n) => if |acc| < n then More(n - |acc|) else Full
    case TrojanHeader =>
      if |acc| < HEX_SIZE then More(HEX_SIZE - |acc|)
      else if |acc| < HEX_SIZE + 2 then More(HEX_SIZE + 2 - |acc|)
      else if |acc| < HEX_SIZE + 3 then More(1)
      else if CommandFrom(acc[HEX_SIZE + 2]).None? then Refuse(Unsupported)
      else AskEndpoint(acc, HEX_SIZE + 3, true, 2)
    case UdpHeader => AskEndpoint(acc, 0, true, 3)
    case UdpFrame(unresolvable) =>
      var a := AskEndpoint(acc, 0, true, 3);
      if !a.Full? then a
      else
        var h := ParseUdpHeader(acc);
        if h.addr.Domain? && h.addr.name in unresolvable then Refuse(DnsPanic)
        else if h.size > BUF_SIZE then Refuse(SizePanic)
        else if |acc| < h.end + h.size then More(h.end + h.size - |acc|)
        else Full
    case Socks5Request =>
      if |acc| < 1 then More(1)
      else if acc[0] != VERSION then Refuse(Unsupported)
      else if |acc| < 2 then More(1)
      else if CommandFrom(acc[1]).None? then Refuse(Unsupported)
      else if |acc| < 3 then More(1)
      else AskEndpoint(acc, 3, false, 1)
  }

  /** A parsed UDP header and the offset of the payload. */
  datatype UdpPacketHeader = UdpPacketHeader(addr: Address, port: u16, size: u16, end: nat)

  function ParseUdpHeader(acc: bytes): UdpPacketHeader
    requires AskEndpoint(acc, 0, true, 3).Full?
  {
    var e := AddressEnd(acc, 0, true);
    UdpPacketHeader(AddressAt(acc, 0, true), U16At(acc, e), U16At(acc, e + 2), e + 6)
  }

  datatype Datagram = Datagram(addr: Address, port: u16, payload: bytes)

  function ParseFrame(acc: bytes): Datagram
    requires Ask(UdpFrame({}), acc).Full?
  {
    var h := ParseUdpHeader(acc);
    Datagram(h.addr, h.port, acc[h.end..h.end + h.size])
  }

  datatype TrojanRequest = TrojanRequest(hex: bytes, command: Command, atype: Atype, addr: Address, port: u16)

  function ParseTrojan(acc: bytes): TrojanRequest
    requires Ask(TrojanHeader, acc).Full?
  {
    TrojanRequest(
      acc[..HEX_SIZE],
      CommandFrom(acc[HEX_SIZE + 2]).value,
      AtypeFrom(acc[HEX_SIZE + 3]).value,
      AddressAt(acc, HEX_SIZE + 3, true),
      U16At(acc, AddressEnd(acc, HEX_SIZE + 3, true)))
  }

  function TrojanInbound(t: TrojanRequest): InboundRequest {
    InboundRequest(t.atype, t.addr, t.port, t.command, TransportFor(t.command), TROJAN)
  }

  function ParseSocks5(acc: bytes): InboundRequest
    requires Ask(Socks5Request, acc).Full?
  {
    var c := CommandFrom(acc[1]).value;
    InboundRequest(
      AtypeFrom(acc[3]).value,
      AddressAt(acc, 3, false),
      U16At(acc, AddressEnd(acc, 3, false)),
      c, TransportFor(c), SOCKS)
  }

  /** A complete address is not affected by the bytes after it. */
  lemma AddressExtends(acc: bytes, b: bytes, i: nat, named: bool)
    requires i <= |acc| && AskAddress(acc, i, named).Full?
    ensures AskAddress(acc + b, i, named).Full?
    ensures AddressEnd(acc + b, i, named) == AddressEnd(acc, i, named)
    ensures AddressAt(acc + b, i, named) == AddressAt(acc, i, named)
  {
    var s := acc + b;
    assert s[i] == acc[i] && s[i + 1] == acc[i + 1];
    match AtypeFrom(acc[i])
    case Some(IPv4) => SliceExtends(acc, b, i + 1, i + 5);
    case Some(IPv6) => SliceExtends(acc, b, i + 1, i + 17);
    case Some(DomainName) => if named { SliceExtends(acc, b, i + 2, i + 2 + acc[i + 1]); }
  }

  lemma UdpHeaderExtends(acc: bytes, b: bytes)
    requires AskEndpoint(acc, 0, true, 3).Full?
    ensures AskEndpoint(acc + b, 0, true, 3).Full? && ParseUdpHeader(acc + b) == ParseUdpHeader(acc)
  {
    AddressExtends(acc, b, 0, true);
    var e := AddressEnd(acc, 0, true);
    SliceExtends(acc, b, e, e + 2);
    SliceExtends(acc, b, e + 2, e + 4);
  }

  lemma AddressGranular(acc: bytes, b: bytes, i: nat, named: bool)
    requires i <= |acc| && AskAddress(acc, i, named).More? && |b| < AskAddress(acc, i, named).n
    ensures AskAddress(acc + b, i, named) == More(AskAddress(acc, i, named).n - |b|)
  {
    if i < |acc| {
      assert (acc + b)[i] == acc[i];
      assert i + 1 < |acc| ==> (acc + b)[i + 1] == acc[i + 1];
    }
  }

  lemma EndpointGranular(acc: bytes, b: bytes, i: nat, named: bool, k: nat)
    requires i <= |acc| && AskEndpoint(acc, i, named, k).More? && |b| < AskEndpoint(acc, i, named, k).n
    ensures AskEndpoint(acc + b, i, named, k) == More(AskEndpoint(acc, i, named, k).n - |b|)
  {
    if AskAddress(acc, i, named).Full? {
      AddressExtends(acc, b, i, named);
    } else {
      AddressGranular(acc, b, i, named);
    }
  }

  /** A read that got only part of its bytes goes on missing exactly the others. */
  lemma Granular(g: Grammar, acc: bytes, b: bytes)
    requires Ask(g, acc).More? && |b| < Ask(g, acc).n
    ensures Ask(g, acc + b) == More(Ask(g, acc).n - |b|)
  {
    assert forall i :: 0 <= i < |acc| ==> (acc + b)[i] == acc[i];
    match g
    case Exactly(_) =>
    case TrojanHeader =>
      if HEX_SIZE + 3 <= |acc| { EndpointGranular(acc, b, HEX_SIZE + 3, true, 2); }
    case UdpHeader => EndpointGranular(acc, b, 0, true, 3);
    case UdpFrame(_) =>
      if AskEndpoint(acc, 0, true, 3).Full? { UdpHeaderExtends(acc, b); } else { EndpointGranular(acc, b, 0, true, 3); }
    case Socks5Request =>
      if 3 <= |acc| { EndpointGranular(acc, b, 3, false, 1); }
  }

  /** Every request either parser builds is consistent. */
  lemma ParsersBuildConsistentRequests(acc: bytes)
    ensures Ask(TrojanHeader, acc).Full? ==> Consistent(TrojanInbound(ParseTrojan(acc)))
    ensures Ask(Socks5Request, acc).Full? ==> Consistent(ParseSocks5(acc))
  {
  }
}
