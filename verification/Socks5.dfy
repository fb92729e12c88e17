/** The SOCKS5 request parser against section 4 of RFC 1928. */
module Socks5 {
  import opened Bytes
  import opened Protocol
  import opened Parsers
  import opened Reading
  import opened Framing
  import opened Handshake

  /** A request as RFC 1928 lays it out: VER CMD RSV ATYP DST.ADDR DST.PORT. */
  function Rfc1928Request(c: Command, rsv: byte, a: Address, port: u16): bytes {
    [VERSION, CommandByte(c), rsv, AtypeByte(AtypeOf(a))] + AddressField(a) + ToBigEndian(2, port)
  }

  function Meant(c: Command, a: Address, port: u16): InboundRequest {
    InboundRequest(AtypeOf(a), a, port, c, TransportFor(c), SOCKS)
  }

  /** Every request with an IP address is decoded exactly and wholly consumed. */
  lemma IpRequestDecodes(c: Command, rsv: byte, a: Address, port: u16, rest: bytes)
    requires !a.Domain?
    ensures var q := Rfc1928Request(c, rsv, a, port);
      Scan(Socks5Request, q + rest, 0) == Complete(q) && ParseSocks5(q) == Meant(c, a, port)
  {
    IpFields(c, rsv, a, port);
    hide Rfc1928Request, AskAddress, AddressEnd, AddressAt, U16At;
    var q := Rfc1928Request(c, rsv, a, port);
    assert Ask(Socks5Request, q).Full? && FullLength(Socks5Request, q) == |q|;
    ScanFull(Socks5Request, q, rest, 0);
  }

  /** The fields of a request with an IP address, where the parser looks for them. */
  lemma IpFields(c: Command, rsv: byte, a: Address, port: u16)
    requires !a.Domain?
    ensures var q := Rfc1928Request(c, rsv, a, port);
      && 3 < |q| && q[0] == VERSION && q[1] == CommandByte(c) && q[3] == AtypeByte(AtypeOf(a))
      && AskAddress(q, 3, false).Full? && AddressEnd(q, 3, false) + 2 == |q|
      && AddressAt(q, 3, false) == a && U16At(q, AddressEnd(q, 3, false)) == port
  {
    var q, pre := Rfc1928Request(c, rsv, a, port), [VERSION, CommandByte(c), rsv];
    RequestPieces(c, rsv, a, port);
    EndpointDecodes(pre, a, port, []);
    assert AtypeFrom(AtypeByte(AtypeOf(a))) != Some(DomainName);
    hide *;
    SameForIp(q);
  }

  lemma RequestPieces(c: Command, rsv: byte, a: Address, port: u16)
    ensures var q, pre := Rfc1928Request(c, rsv, a, port), [VERSION, CommandByte(c), rsv];
      && q == pre + [AtypeByte(AtypeOf(a))] + AddressField(a) + ToBigEndian(2, port) + []
      && 3 < |q| && q[0] == VERSION && q[1] == CommandByte(c) && q[3] == AtypeByte(AtypeOf(a))
      && |q| == 6 + |AddressField(a)| && |pre| == 3
  {
    hide AddressField, ToBigEndian;
  }

  /** Whether a name's bytes are read makes no difference to an IP address. */
  lemma SameForIp(s: bytes)
    requires 3 <= |s| && AskAddress(s, 3, true).Full? && AtypeFrom(s[3]) != Some(DomainName)
    ensures AskAddress(s, 3, false).Full? && AddressEnd(s, 3, false) == AddressEnd(s, 3, true)
    ensures AddressAt(s, 3, false) == AddressAt(s, 3, true)
  {
  }

  /** Every complete request with a name of n bytes is decoded as an empty name with the two bytes after
      the length for port, and leaves exactly n of its bytes unread; so it is decoded right only if n is
      zero. */
  lemma DomainRequestDecodes(c: Command, rsv: byte, name: bytes, port: u16, rest: bytes)
    requires |name| < 256
    ensures var q := Rfc1928Request(c, rsv, Domain(name), port);
      && |q| == 7 + |name|
      && Scan(Socks5Request, q + rest, 0) == Complete(q[..7])
      && Ask(Socks5Request, q[..7]).Full?
      && ParseSocks5(q[..7]) == Meant(c, Domain([]), U16At(q, 5))
      && (Scan(Socks5Request, q + rest, 0) == Complete(q) && ParseSocks5(q[..7]) == Meant(c, Domain(name), port)
          <==> name == [])
  {
    var q := Rfc1928Request(c, rsv, Domain(name), port);
    var p := q[..7];
    hide Rfc1928Request, Ask, FullLength, ParseSocks5, U16At, Scan;
    NamePrefix(c, rsv, name, port);
    assert q == p + q[7..];
    Reassociate(p, q[7..], rest);
    ScanFull(Socks5Request, p, q[7..] + rest, 0);
    if name == [] {
      EmptyName(c, rsv, port);
      assert q == p;
    }
  }

  lemma EmptyName(c: Command, rsv: byte, port: u16)
    ensures |Rfc1928Request(c, rsv, Domain([]), port)| == 7
    ensures U16At(Rfc1928Request(c, rsv, Domain([]), port), 5) == port
  {
    hide U16At, ToBigEndian;
    var q := Rfc1928Request(c, rsv, Domain([]), port);
    U16Decodes(q[..5], port, []);
    assert q == q[..5] + ToBigEndian(2, port) + [];
  }

  lemma NamePrefix(c: Command, rsv: byte, name: bytes, port: u16)
    requires |name| < 256
    ensures var q := Rfc1928Request(c, rsv, Domain(name), port);
      var p := q[..7];
      && |q| == 7 + |name|
      && Ask(Socks5Request, p).Full? && FullLength(Socks5Request, p) == 7
      && ParseSocks5(p) == Meant(c, Domain([]), U16At(q, 5))
  {
    var q := Rfc1928Request(c, rsv, Domain(name), port);
    var p := q[..7];
    hide ToBigEndian, FromBigEndian;
    assert p[0] == VERSION && p[1] == CommandByte(c) && p[3] == 3;
    assert p[5..7] == q[5..7];
  }

  /** So a name never reaches the Trojan side, and the header that is sent on for such a request is never
      one the server's parser stays in step with. */
  lemma DomainRequestsAreNeverAligned(acc: bytes)
    requires Ask(Socks5Request, acc).Full?
    ensures ParseSocks5(acc).addr.Domain? ==> ParseSocks5(acc).addr.name == [] && !Aligned(ParseSocks5(acc).addr)
  {
  }

  /** Three requests spelled out, one for each command. */
  lemma KnownRequests()
    ensures Rfc1928Request(Connect, 0, V4(0x7F000001), 80) == [5, 1, 0, 1, 127, 0, 0, 1, 0, 80]
    ensures Rfc1928Request(Bind, 0, Domain([97]), 80) == [5, 2, 0, 3, 1, 97, 0, 80]
    ensures Rfc1928Request(Udp, 0, Domain([]), 0x0102) == [5, 3, 0, 3, 0, 1, 2]
  {
    assert ToBigEndian(4, 0x7F000001) == [127, 0, 0, 1];
  }
}
