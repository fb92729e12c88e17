/**
 The formats on the wire, byte by byte and in numbers: what the encoders put at each place, and what the parsers
 make of the byte at each place.
 */
module WireFormat {
  import opened Bytes
  import opened Protocol
  import opened Parsers
  import opened Framing
  import opened Handshake

  // ---------------------------------------------------------------- encoders

  /** How many bytes an address takes without a length. */
  function OctetCount(a: Address): nat {
    match a
    case V4(_) => 4
    case V6(_) => 16
    case Domain(name) => |name|
  }

  /** Byte `i` of an address: the most significant one first, or a byte of the name. */
  function Octet(a: Address, i: nat): byte
    requires i < OctetCount(a)
  {
    match a
    case V4(v) => v / Pow256(3 - i) % 256
    case V6(v) => v / Pow256(15 - i) % 256
    case Domain(name) => name[i]
  }

  lemma RawOctets(a: Address)
    ensures |RawAddress(a)| == OctetCount(a)
    ensures forall i :: 0 <= i < OctetCount(a) ==> RawAddress(a)[i] == Octet(a, i)
  {
    hide ToBigEndian, Pow256;
    forall i | 0 <= i < OctetCount(a) ensures RawAddress(a)[i] == Octet(a, i) {
      match a
      case V4(v) => BigEndianDigit(4, v, i);
      case V6(v) => BigEndianDigit(16, v, i);
      case Domain(_) =>
    }
  }

  function CommandCode(c: Command): byte {
    if c.Connect? then 1 else if c.Bind? then 2 else 3
  }

  function TypeCode(t: Atype): byte {
    if t.IPv4? then 1 else if t.IPv6? then 4 else 3
  }

  /** Every byte of a written header, for every secret and request: the secret, CR LF, the command, the type, the
      address without a length, the port with its high byte first, CR LF. */
  lemma HeaderLayout(secret: bytes, r: InboundRequest)
    ensures var h, n, m := HandshakeBytes(secret, r), |secret|, OctetCount(r.addr);
      && |h| == n + 8 + m
      && h[..n] == secret && h[n] == 13 && h[n + 1] == 10
      && h[n + 2] == CommandCode(r.command) && h[n + 3] == TypeCode(r.atype)
      && (forall i :: 0 <= i < m ==> h[n + 4 + i] == Octet(r.addr, i))
      && h[n + 4 + m] == r.port / 256 && h[n + 5 + m] == r.port % 256
      && h[n + 6 + m] == 13 && h[n + 7 + m] == 10
  {
    var front := secret + [13, 10, CommandCode(r.command), TypeCode(r.atype)];
    var x, z := RawAddress(r.addr), [r.port / 256, r.port % 256, 13, 10];
    RawOctets(r.addr);
    HeaderPieces(secret, r);
    hide HandshakeBytes, RawAddress, Octet, OctetCount, CommandCode, TypeCode;
    Placed(front, x, z, []);
    NoTail(front + x + z, []);
  }

  lemma HeaderPieces(secret: bytes, r: InboundRequest)
    ensures HandshakeBytes(secret, r) == secret + [13, 10, CommandCode(r.command), TypeCode(r.atype)]
      + RawAddress(r.addr) + [r.port / 256, r.port % 256, 13, 10]
  {
    TwoBytes(r.port);
    hide ToBigEndian, RawAddress;
  }

  /** Every byte of a frame, for every datagram whose name fits a length byte and whose payload fits the size. */
  lemma FrameLayout(d: Datagram)
    requires Nameable(d.addr) && |d.payload| < 0x1_0000
    ensures var f, m, k := EncodeFrame(d), OctetCount(d.addr), if d.addr.Domain? then 2 else 1;
      && |f| == k + m + 6 + |d.payload|
      && f[0] == (if d.addr.V4? then 1 else if d.addr.V6? then 4 else 3)
      && (d.addr.Domain? ==> f[1] == |d.addr.name|)
      && (forall i :: 0 <= i < m ==> f[k + i] == Octet(d.addr, i))
      && f[k + m] == d.port / 256 && f[k + m + 1] == d.port % 256
      && f[k + m + 2] == |d.payload| / 256 && f[k + m + 3] == |d.payload| % 256
      && f[k + m + 4] == 13 && f[k + m + 5] == 10
      && f[k + m + 6..] == d.payload
  {
    var front := if d.addr.Domain? then [3, |d.addr.name|] else [AtypeByte(AtypeOf(d.addr))];
    var x, z := RawAddress(d.addr), [d.port / 256, d.port % 256, |d.payload| / 256, |d.payload| % 256, 13, 10];
    RawOctets(d.addr);
    FramePieces(d, front, x, z);
    hide EncodeFrame, RawAddress, Octet, OctetCount;
    Placed(front, x, z, d.payload);
  }

  lemma FramePieces(d: Datagram, front: bytes, x: bytes, z: bytes)
    requires Nameable(d.addr) && |d.payload| < 0x1_0000 && x == RawAddress(d.addr)
    requires front == if d.addr.Domain? then [3, |d.addr.name|] else [AtypeByte(AtypeOf(d.addr))]
    requires z == [d.port / 256, d.port % 256, |d.payload| / 256, |d.payload| % 256, 13, 10]
    ensures EncodeFrame(d) == front + x + z + d.payload
  {
    TwoBytes(d.port);
    TwoBytes(|d.payload|);
    assert |d.payload| % 0x1_0000 == |d.payload|;
    assert d.addr.Domain? ==> |d.addr.name| % 256 == |d.addr.name|;
    assert [AtypeByte(AtypeOf(d.addr))] + AddressField(d.addr) == front + x;
    hide ToBigEndian, AddressField, RawAddress;
  }

  /** Where the pieces of a concatenation are. */
  lemma Placed(a: bytes, x: bytes, z: bytes, p: bytes)
    ensures var f := a + x + z + p;
      && (forall i :: 0 <= i < |a| ==> f[i] == a[i])
      && (forall i :: 0 <= i < |x| ==> f[|a| + i] == x[i])
      && (forall i :: 0 <= i < |z| ==> f[|a| + |x| + i] == z[i])
      && f[|a| + |x| + |z|..] == p
  {
  }

  /** Three headers spelled out: a request to an IPv4 address, one to an IPv6 address, one to a name. */
  lemma KnownHeaders()
    ensures HandshakeBytes([97, 48], InboundRequest(IPv4, V4(0x7F000001), 80, Connect, TCP, SOCKS))
      == [97, 48, 13, 10, 1, 1, 127, 0, 0, 1, 0, 80, 13, 10]
    ensures HandshakeBytes([], InboundRequest(IPv6, V6(0x102), 443, Bind, TCP, SOCKS))
      == [13, 10, 2, 4, 0, 0, 0, 0, 0, 0, 0, 0, 0, 0, 0, 0, 0, 0, 1, 2, 1, 187, 13, 10]
    ensures HandshakeBytes([102], InboundRequest(DomainName, Domain([97, 46, 98]), 0x0C35, Udp, UDP, TROJAN))
      == [102, 13, 10, 3, 3, 97, 46, 98, 12, 53, 13, 10]
  {
    KnownV4Header();
    KnownV6Header();
    TwoBytes(0x0C35);
    hide ToBigEndian;
  }

  lemma KnownV4Header()
    ensures HandshakeBytes([97, 48], InboundRequest(IPv4, V4(0x7F000001), 80, Connect, TCP, SOCKS))
      == [97, 48, 13, 10, 1, 1, 127, 0, 0, 1, 0, 80, 13, 10]
  {
    assert ToBigEndian(4, 0x7F000001) == [127, 0, 0, 1];
    TwoBytes(80);
    hide ToBigEndian;
  }

  lemma {:induction false} LeadingZeros(n: nat)
    ensures ToBigEndian(n, 0) == seq(n, _ => 0)
  {
    if n > 0 { LeadingZeros(n - 1); }
  }

  lemma KnownV6Header()
    ensures HandshakeBytes([], InboundRequest(IPv6, V6(0x102), 443, Bind, TCP, SOCKS))
      == [13, 10, 2, 4, 0, 0, 0, 0, 0, 0, 0, 0, 0, 0, 0, 0, 0, 0, 1, 2, 1, 187, 13, 10]
  {
    LeadingZeros(14);
    assert ToBigEndian(15, 1) == ToBigEndian(14, 0) + [1];
    assert ToBigEndian(16, 0x102) == ToBigEndian(15, 1) + [2];
    assert seq<byte>(14, _ => 0) == [0, 0, 0, 0, 0, 0, 0, 0, 0, 0, 0, 0, 0, 0];
    TwoBytes(443);
    hide ToBigEndian;
  }

  // ---------------------------------------------------------------- parsers

  /** How many bytes an address takes in `s` from its type byte at `i` on; `named` says whether a name is read. */
  function AddressSize(s: bytes, i: nat, named: bool): nat
    requires i + 1 < |s|
  {
    if s[i] == 1 then 5 else if s[i] == 4 then 17 else if named then 2 + s[i + 1] as nat else 2
  }

  predicate UnknownType(s: bytes, i: nat)
    requires i < |s|
  {
    s[i] != 1 && s[i] != 3 && s[i] != 4
  }

  predicate UnknownCommand(s: bytes, i: nat)
    requires i < |s|
  {
    s[i] < 1 || 3 < s[i]
  }

  /** `trojan::parse` refuses exactly an unknown command byte at 58 or, once that is right, an unknown type byte at 59,
      each as soon as it is read, and otherwise returns exactly four bytes past the address. */
  lemma TrojanVerdict(s: bytes)
    ensures var w := Ask(TrojanHeader, s);
      && (w.Refuse? <==> 58 < |s| && (UnknownCommand(s, 58) || (59 < |s| && UnknownType(s, 59))))
      && (w.Refuse? ==> w.e == Unsupported)
      && (w.Full? <==> !w.Refuse? && 60 < |s| && 59 + AddressSize(s, 59, true) + 4 <= |s|)
      && (w.Full? ==> FullLength(TrojanHeader, s) == 59 + AddressSize(s, 59, true) + 4)
  {
  }

  /** What the request of a parsed header holds. */
  lemma TrojanFields(s: bytes)
    requires Ask(TrojanHeader, s).Full?
    ensures 60 < |s|
    ensures var t, q, e := ParseTrojan(s), TrojanInbound(ParseTrojan(s)), 59 + AddressSize(s, 59, true);
      && e + 4 <= |s|
      && t.hex == s[..56]
      && CommandCode(q.command) == s[58] && TypeCode(q.atype) == s[59]
      && q.transport == (if s[58] == 3 then UDP else TCP) && q.proxy == TROJAN
      && (if s[59] == 3 then q.addr == Domain(s[61..e]) else !q.addr.Domain? && RawAddress(q.addr) == s[60..e])
      && q.port as int == s[e] as int * 256 + s[e + 1] as int
  {
    var e := 59 + AddressSize(s, 59, true);
    PortOf(s, e);
    if s[59] != 3 { IpBytes(s, 59, true); }
    hide U16At, FromBigEndian, RawAddress;
  }

  lemma IpBytes(s: bytes, i: nat, named: bool)
    requires i + 1 < |s| && AskAddress(s, i, named).Full? && s[i] != 3
    ensures i + AddressSize(s, i, named) <= |s|
    ensures RawAddress(AddressAt(s, i, named)) == s[i + 1..i + AddressSize(s, i, named)]
  {
    EncodeDecodeBigEndian(s[i + 1..i + AddressSize(s, i, named)]);
  }

  /** `socks5::parse` refuses exactly a version other than 5, an unknown command byte at 1 or an unknown type byte at
      3, each as soon as it is read, and otherwise returns two bytes past the address, a name counting none. */
  lemma Socks5Verdict(s: bytes)
    ensures var w := Ask(Socks5Request, s);
      && (w.Refuse? <==>
          (0 < |s| && (s[0] != 5 || (1 < |s| && (UnknownCommand(s, 1) || (3 < |s| && UnknownType(s, 3)))))))
      && (w.Refuse? ==> w.e == Unsupported)
      && (w.Full? <==> !w.Refuse? && 4 < |s| && 3 + AddressSize(s, 3, false) + 2 <= |s|)
      && (w.Full? ==> FullLength(Socks5Request, s) == 3 + AddressSize(s, 3, false) + 2)
  {
  }

  lemma Socks5Fields(s: bytes)
    requires Ask(Socks5Request, s).Full?
    ensures 4 < |s|
    ensures var q, e := ParseSocks5(s), 3 + AddressSize(s, 3, false);
      && e + 2 <= |s|
      && CommandCode(q.command) == s[1] && TypeCode(q.atype) == s[3]
      && q.transport == (if s[1] == 3 then UDP else TCP) && q.proxy == SOCKS
      && (if s[3] == 3 then q.addr == Domain([]) else !q.addr.Domain? && RawAddress(q.addr) == s[4..e])
      && q.port as int == s[e] as int * 256 + s[e + 1] as int
  {
    var e := 3 + AddressSize(s, 3, false);
    PortOf(s, e);
    if s[3] != 3 { IpBytes(s, 3, false); }
    hide U16At, FromBigEndian, RawAddress;
  }

  /** The size field of the frame at the front of `s`. */
  function SizeField(s: bytes): int
    requires 1 < |s| && AddressSize(s, 0, true) + 6 <= |s|
  {
    var e := AddressSize(s, 0, true);
    s[e + 2] as int * 256 + s[e + 3] as int
  }

  predicate HeaderThere(s: bytes) {
    1 < |s| && !UnknownType(s, 0) && AddressSize(s, 0, true) + 6 <= |s|
  }

  lemma UdpHeaderFields(s: bytes)
    requires HeaderThere(s)
    ensures AskEndpoint(s, 0, true, 3).Full?
    ensures var h, e := ParseUdpHeader(s), AddressSize(s, 0, true);
      && h.end == e + 6 && h.size as int == SizeField(s)
      && h.port as int == s[e] as int * 256 + s[e + 1] as int
      && (if s[0] == 3 then h.addr == Domain(s[2..e]) else !h.addr.Domain? && RawAddress(h.addr) == s[1..e])
  {
    var e := AddressSize(s, 0, true);
    PortOf(s, e);
    PortOf(s, e + 2);
    if s[0] != 3 { IpBytes(s, 0, true); }
    hide U16At, FromBigEndian, RawAddress;
  }

  /** A deframing loop refuses an unknown type byte as soon as it is read; once the header is there, first a name that
      cannot be resolved and then a size above 4096; and otherwise has a frame at the end of the payload. */
  lemma FrameVerdict(u: set<bytes>, s: bytes)
    ensures var w := Ask(UdpFrame(u), s);
      var unresolved := HeaderThere(s) && s[0] == 3 && s[2..AddressSize(s, 0, true)] in u;
      && (w == Refuse(Unsupported) <==> 0 < |s| && UnknownType(s, 0))
      && (w == Refuse(DnsPanic) <==> unresolved)
      && (w == Refuse(SizePanic) <==> HeaderThere(s) && !unresolved && 4096 < SizeField(s))
      && (w.Refuse? ==> w.e == Unsupported || w.e == DnsPanic || w.e == SizePanic)
      && (w.Full? <==> HeaderThere(s) && !w.Refuse? && AddressSize(s, 0, true) + 6 + SizeField(s) <= |s|)
  {
    if HeaderThere(s) {
      UdpHeaderFields(s);
      hide AskEndpoint, ParseUdpHeader;
    } else {
      HeaderMissing(s);
      hide ParseUdpHeader;
    }
  }

  lemma HeaderMissing(s: bytes)
    requires !HeaderThere(s)
    ensures var w := AskEndpoint(s, 0, true, 3);
      if 0 < |s| && UnknownType(s, 0) then w == Refuse(Unsupported) else w.More?
  {
  }

  /** So a loop takes every payload of up to 4096 bytes and none that is longer. */
  lemma LargestPayload(d: Datagram)
    requires Nameable(d.addr) && |d.payload| < 0x1_0000
    ensures |d.payload| <= 4096 ==> Ask(UdpFrame({}), EncodeFrame(d)).Full?
    ensures |d.payload| > 4096 ==> Ask(UdpFrame({}), EncodeFrame(d)) == Refuse(SizePanic)
    ensures Framable(d) <==> |d.payload| <= 4096
  {
    var f := EncodeFrame(d);
    FrameLayout(d);
    FrameVerdict({}, f);
    hide EncodeFrame, Ask, Octet;
  }
}
