/** The Trojan request header: what `handshake` writes against what `parse` reads, and who is accepted. */
module Handshake {
  import opened Bytes
  import opened Protocol
  import opened Parsers
  import opened Reading
  import opened Framing

  /** What `handshake` writes. A name gets no length byte, unlike in the UDP frames. */
  function HandshakeBytes(secret: bytes, r: InboundRequest): bytes {
    secret + CRLF + [CommandByte(r.command)] + [AtypeByte(r.atype)] + RawAddress(r.addr) + ToBigEndian(2, r.port) + CRLF
  }

  /** A header `parse` stays in step with: an IP address, or a name whose first byte happens to be the
      length of the others. */
  predicate Aligned(a: Address) {
    a.Domain? ==> a.name != [] && a.name[0] == |a.name| - 1
  }

  /** The address `parse` makes of an aligned one: it takes the first byte of a name for the length. */
  function Seen(a: Address): Address
    requires Aligned(a)
  {
    if a.Domain? then Domain(a.name[1..]) else a
  }

  // ---------------------------------------------------------------- where flat parsing stops

  /** From that point on a parser has returned. */
  lemma AskPastFullLength(g: Grammar, s: bytes, k: nat)
    requires Ask(g, s).Full? && FullLength(g, s) <= k <= |s|
    ensures Ask(g, s[..k]).Full?
  {
    var p := s[..k];
    assert forall i :: 0 <= i < k ==> p[i] == s[i];
    match g
    case Exactly(_) =>
    case TrojanHeader => EndpointOnPrefix(s, HEX_SIZE + 3, true, 2, k);
    case UdpHeader => EndpointOnPrefix(s, 0, true, 3, k);
    case UdpFrame(_) =>
      EndpointOnPrefix(s, 0, true, 3, k);
      assert s == p + s[k..];
      UdpHeaderExtends(p, s[k..]);
    case Socks5Request => EndpointOnPrefix(s, 3, false, 1, k);
  }

  /** What follows does not change that a parser returned, nor where. */
  lemma FullExtends(g: Grammar, f: bytes, x: bytes)
    requires Ask(g, f).Full?
    ensures Ask(g, f + x).Full? && FullLength(g, f + x) == FullLength(g, f)
  {
    var s := f + x;
    assert forall i :: 0 <= i < |f| ==> s[i] == f[i];
    match g
    case Exactly(_) =>
    case TrojanHeader => AddressExtends(f, x, HEX_SIZE + 3, true);
    case UdpHeader => UdpHeaderExtends(f, x);
    case UdpFrame(_) => UdpHeaderExtends(f, x);
    case Socks5Request => AddressExtends(f, x, 3, false);
  }

  /** Along bytes that begin with a unit `f`, a parser is inside a read that ends within `f`, and from
      its last byte on it has returned. It never refuses. */
  lemma PrefixVerdict(g: Grammar, f: bytes, more: bytes, p: bytes)
    requires Ask(g, f).Full? && FullLength(g, f) == |f| && p <= f + more
    ensures if |p| < |f| then p < f && Ask(g, p).More? && |p| + Ask(g, p).n <= |f| else Ask(g, p).Full?
    ensures Ask(g, p).Full? && FullLength(g, p) == |p| ==> p == f
  {
    hide Ask, FullLength;
    assert p == (f + more)[..|p|];
    if |p| < |f| {
      assert p == f[..|p|];
      AskOnPrefix(g, f, |p|);
    } else {
      assert p == f + p[|f|..];
      FullExtends(g, f, p[|f|..]);
    }
  }

  lemma FullLengthFits(g: Grammar, s: bytes)
    requires Ask(g, s).Full?
    ensures FullLength(g, s) <= |s|
  {
  }

  /** A read that completes a parser ends exactly where the parser returns. */
  lemma StopsExactly(g: Grammar, acc: bytes, b: bytes)
    requires Ask(g, acc).More? && |b| <= Ask(g, acc).n && Ask(g, acc + b).Full?
    ensures FullLength(g, acc + b) == |acc + b|
  {
    hide Ask, FullLength;
    var t := acc + b;
    FullLengthFits(g, t);
    assert t[..|acc|] == acc;
    if FullLength(g, t) <= |acc| {
      AskPastFullLength(g, t, |acc|);
    } else {
      AskOnPrefix(g, t, |acc|);
    }
  }

  /** Flat parsing stops exactly where the parser returns. */
  lemma {:induction false} ScanStops(g: Grammar, s: bytes, k: nat, t: bytes)
    requires k <= |s| && Scan(g, s, k) == Complete(t)
    ensures t <= s && k <= |t| && Ask(g, t).Full?
    ensures k <= FullLength(g, t) ==> FullLength(g, t) == |t|
    decreases |s| - k
  {
    hide Ask, FullLength;
    if Ask(g, s[..k]).More? {
      ScanStops(g, s, k + Ask(g, s[..k]).n, t);
      assert t[..k] == s[..k];
      FullLengthFits(g, t);
      if k < FullLength(g, t) {
        AskOnPrefix(g, t, k);
      } else if k == FullLength(g, t) {
        AskPastFullLength(g, t, k);
      }
    } else {
      FullLengthFits(g, t);
    }
  }

  // ---------------------------------------------------------------- round trip

  lemma AlignedField(a: Address)
    requires Nameable(a) && Aligned(a)
    ensures Nameable(Seen(a)) && AtypeOf(Seen(a)) == AtypeOf(a) && AddressField(Seen(a)) == RawAddress(a)
  {
    if a.Domain? {
      assert a.name == [a.name[0]] + a.name[1..];
    }
  }

  lemma HandshakeDecodes(secret: bytes, r: InboundRequest)
    requires |secret| == HEX_SIZE && Consistent(r) && Aligned(r.addr)
    ensures var h := HandshakeBytes(secret, r);
      && Ask(TrojanHeader, h).Full? && FullLength(TrojanHeader, h) == |h|
      && ParseTrojan(h) == TrojanRequest(secret, r.command, r.atype, Seen(r.addr), r.port)
  {
    hide AskAddress, AddressEnd, AddressAt, U16At, AddressField, ToBigEndian, RawAddress;
    var h := HandshakeBytes(secret, r);
    var pre := secret + CRLF + [CommandByte(r.command)];
    AlignedField(r.addr);
    EndpointDecodes(pre, Seen(r.addr), r.port, CRLF);
    assert h == pre + [AtypeByte(r.atype)] + RawAddress(r.addr) + ToBigEndian(2, r.port) + CRLF;
    assert h[..HEX_SIZE] == secret;
    assert h[HEX_SIZE + 2] == CommandByte(r.command) && h[HEX_SIZE + 3] == AtypeByte(r.atype);
  }

  /** For every 56-byte secret, request and following bytes: the parser consumes exactly the header that
      was written if and only if the address is aligned. */
  lemma HandshakeInStep(secret: bytes, r: InboundRequest, rest: bytes)
    requires |secret| == HEX_SIZE && Consistent(r)
    ensures var h := HandshakeBytes(secret, r);
      Scan(TrojanHeader, h + rest, 0) == Complete(h) <==> Aligned(r.addr)
  {
    var h := HandshakeBytes(secret, r);
    if Aligned(r.addr) {
      HandshakeDecodes(secret, r);
      ScanFull(TrojanHeader, h, rest, 0);
    } else if Scan(TrojanHeader, h + rest, 0) == Complete(h) {
      assert h + [] == h;
      ScanStops(TrojanHeader, h + rest, 0, h);
      DomainBytes(secret, r, []);
    }
  }

  /** Then the request comes back, only the proxy protocol becoming TROJAN; for an IP address all of it. */
  lemma HandshakeRoundTrip(secret: bytes, r: InboundRequest, rest: bytes)
    requires |secret| == HEX_SIZE && Consistent(r) && !r.addr.Domain?
    ensures var h := HandshakeBytes(secret, r);
      && Scan(TrojanHeader, h + rest, 0) == Complete(h)
      && ParseTrojan(h).hex == secret
      && TrojanInbound(ParseTrojan(h)) == r.(proxy := TROJAN)
  {
    HandshakeDecodes(secret, r);
    HandshakeInStep(secret, r, rest);
  }

  // ---------------------------------------------------------------- names

  /** The bytes of a written header with a name. */
  lemma DomainBytes(secret: bytes, r: InboundRequest, rest: bytes)
    requires |secret| == HEX_SIZE && Consistent(r) && r.addr.Domain?
    ensures var s, n := HandshakeBytes(secret, r) + rest, |r.addr.name|;
      && |HandshakeBytes(secret, r)| == HEX_SIZE + 4 + n + 4
      && s[HEX_SIZE + 2] == CommandByte(r.command) && s[HEX_SIZE + 3] == AtypeByte(DomainName)
      && s[HEX_SIZE + 4..HEX_SIZE + 4 + n] == r.addr.name
      && s[HEX_SIZE + 4 + n] == r.port / 256 && s[HEX_SIZE + 5 + n] == r.port % 256
      && s[HEX_SIZE + 6 + n] == CR && s[HEX_SIZE + 7 + n] == LF
      && s[HEX_SIZE + 8 + n..] == rest
  {
    var p := ToBigEndian(2, r.port);
    assert p == [(r.port / 256) % 256, r.port % 256] by {
      assert ToBigEndian(1, r.port / 256) == ToBigEndian(0, r.port / 256 / 256) + [(r.port / 256) % 256];
    }
  }

  /** Does every byte of the name equal its length, and the high byte of the port too? */
  predicate SelfDescribing(name: bytes, port: u16) {
    port / 256 == |name| && forall i :: 0 <= i < |name| ==> name[i] == |name|
  }

  /** Names never round trip. For every name, port, 56-byte secret and following bytes on which `parse`
      returns: it takes the first byte after the type for the length; it returns the same name exactly when
      that name is self-describing, and then it has swallowed one byte past the header; and it returns the
      same name and port for one endpoint only, thirteen CR bytes at port 0x0D0D. */
  lemma DomainMisread(secret: bytes, r: InboundRequest, rest: bytes, t: bytes)
    requires |secret| == HEX_SIZE && Consistent(r) && r.addr.Domain?
    requires Scan(TrojanHeader, HandshakeBytes(secret, r) + rest, 0) == Complete(t)
    ensures Ask(TrojanHeader, t).Full?
    ensures |t| == HEX_SIZE + 9 + (if r.addr.name == [] then r.port / 256 else r.addr.name[0])
    ensures ParseTrojan(t).addr == r.addr <==> SelfDescribing(r.addr.name, r.port)
    ensures ParseTrojan(t).addr == r.addr ==> |t| == |HandshakeBytes(secret, r)| + 1
    ensures ParseTrojan(t).addr == r.addr && ParseTrojan(t).port == r.port
      <==> SelfDescribing(r.addr.name, r.port) && r.port == 0x0D0D
  {
    var name := r.addr.name;
    var w := name + [r.port / 256, r.port % 256, CR, LF] + rest;
    MisreadBytes(secret, r, rest, t, w);
    HandshakeLength(secret, r);
    assert w[0] == if name == [] then r.port / 256 else name[0];
    ShiftedName(name, r.port, rest, w);
    ShiftedPort(name, r.port, w, ParseTrojan(t).port);
    hide *;
  }

  lemma HandshakeLength(secret: bytes, r: InboundRequest)
    requires |secret| == HEX_SIZE && Consistent(r) && r.addr.Domain?
    ensures |HandshakeBytes(secret, r)| == HEX_SIZE + 8 + |r.addr.name|
  {
    DomainBytes(secret, r, []);
    hide HandshakeBytes;
  }

  /** The port read one byte late is the right one only if both its bytes are CR. */
  lemma ShiftedPort(name: bytes, port: u16, w: bytes, seen: u16)
    requires w != [] && w[0] + 5 <= |w| && seen as int == w[1 + w[0]] as int * 256 + w[2 + w[0]] as int
    requires w[1..1 + w[0]] == name ==> SelfDescribing(name, port)
    requires w[1..1 + w[0]] == name ==> w[0] == |name| && w[1 + w[0]] == port % 256 && w[2 + w[0]] == CR
    ensures w[1..1 + w[0]] == name ==> (seen == port <==> port == 0x0D0D)
  {
  }

  /** What `parse` makes of the bytes `w` after the type byte of a written name. */
  lemma MisreadBytes(secret: bytes, r: InboundRequest, rest: bytes, t: bytes, w: bytes)
    requires |secret| == HEX_SIZE && Consistent(r) && r.addr.Domain?
    requires Scan(TrojanHeader, HandshakeBytes(secret, r) + rest, 0) == Complete(t)
    requires w == r.addr.name + [r.port / 256, r.port % 256, CR, LF] + rest
    ensures w[0] + 5 <= |w| && |t| == HEX_SIZE + 9 + w[0] && Ask(TrojanHeader, t).Full?
    ensures ParseTrojan(t).addr == Domain(w[1..1 + w[0]])
    ensures ParseTrojan(t).port as int == w[1 + w[0]] as int * 256 + w[2 + w[0]] as int
  {
    hide *;
    var s, z := HandshakeBytes(secret, r) + rest, HEX_SIZE + 4;
    ScanStops(TrojanHeader, s, 0, t);
    HeaderNotShort(t);
    DomainBytes(secret, r, rest);
    NamedTail(s, r, rest, w);
    assert t[HEX_SIZE + 3] == s[HEX_SIZE + 3];
    NameAt(t);
    Window(s, t, z, t[z]);
  }

  lemma NamedTail(s: bytes, r: InboundRequest, rest: bytes, w: bytes)
    requires r.addr.Domain? && HEX_SIZE + 8 + |r.addr.name| <= |s|
    requires var n := |r.addr.name|;
      && s[HEX_SIZE + 4..HEX_SIZE + 4 + n] == r.addr.name
      && s[HEX_SIZE + 4 + n] == r.port / 256 && s[HEX_SIZE + 5 + n] == r.port % 256
      && s[HEX_SIZE + 6 + n] == CR && s[HEX_SIZE + 7 + n] == LF
      && s[HEX_SIZE + 8 + n..] == rest
    requires w == r.addr.name + [r.port / 256, r.port % 256, CR, LF] + rest
    ensures s[HEX_SIZE + 4..] == w
  {
  }

  /** The same bytes counted from `z`. */
  lemma Window(s: bytes, t: bytes, z: nat, m: nat)
    requires t <= s && z + 5 + m <= |t|
    ensures var w := s[z..];
      && m + 5 <= |w| && t[z] == w[0] && t[z + 1..z + 1 + m] == w[1..1 + m]
      && t[z + 1 + m] == w[1 + m] && t[z + 2 + m] == w[2 + m]
  {
  }

  lemma HeaderNotShort(t: bytes)
    requires Ask(TrojanHeader, t).Full?
    ensures HEX_SIZE + 4 < |t|
  {
  }

  /** What `parse` returns for bytes with the type of a name. */
  lemma NameAt(t: bytes)
    requires Ask(TrojanHeader, t).Full? && FullLength(TrojanHeader, t) == |t| && HEX_SIZE + 4 < |t|
    requires t[HEX_SIZE + 3] == AtypeByte(DomainName)
    ensures var m := t[HEX_SIZE + 4];
      && |t| == HEX_SIZE + 9 + m
      && ParseTrojan(t).addr == Domain(t[HEX_SIZE + 5..HEX_SIZE + 5 + m])
      && ParseTrojan(t).port as int == t[HEX_SIZE + 5 + m] as int * 256 + t[HEX_SIZE + 6 + m] as int
  {
    PortOf(t, HEX_SIZE + 5 + t[HEX_SIZE + 4]);
    hide FromBigEndian, U16At;
  }

  /** Reading a name one byte late. */
  lemma ShiftedName(name: bytes, port: u16, rest: bytes, w: bytes)
    requires w == name + [port / 256, port % 256, CR, LF] + rest && w[0] + 5 <= |w|
    ensures w[1..1 + w[0]] == name <==> SelfDescribing(name, port)
    ensures w[1..1 + w[0]] == name ==> w[0] == |name| && w[1 + w[0]] == port % 256 && w[2 + w[0]] == CR
  {
    var n := |name|;
    if w[1..1 + w[0]] == name {
      forall i | 0 <= i <= n ensures w[i] == n {
        ConstantRun(w, name, i);
      }
      assert forall i :: 0 <= i < n ==> name[i] == w[i];
      assert w[n] == port / 256;
    }
  }

  lemma {:induction false} ConstantRun(w: bytes, name: bytes, i: nat)
    requires i <= |name| < |w| && name == w[..|name|] == w[1..1 + |name|] && w[0] == |name|
    ensures w[i] == |name|
  {
    if i != 0 {
      ConstantRun(w, name, i - 1);
      assert w[i] == name[i - 1];
    }
  }

  lemma PortOf(t: bytes, i: nat)
    requires i + 2 <= |t|
    ensures U16At(t, i) as int == t[i] as int * 256 + t[i + 1] as int
  {
    var p := t[i..i + 2];
    assert p[..1][..0] == [];
    assert FromBigEndian(p) == FromBigEndian(p[..1]) * 256 + p[1];
    assert FromBigEndian(p[..1]) == FromBigEndian([]) * 256 + p[0];
  }
}
