/** The Trojan UDP frame format: encoding, unique decoding, and frames read from a source. */
module Framing {
  import opened Bytes
  import opened Protocol
  import opened Parsers
  import opened Reading

  // ---------------------------------------------------------------- encoding

  function AddressField(a: Address): bytes {
    if a.Domain? then [|a.name| % 256] + a.name else RawAddress(a)
  }

  /** The header the frame writers put before a payload of `size` bytes, casts included. */
  function UdpHeaderBytes(atype: Atype, addr: Address, port: u16, size: nat): bytes {
    [AtypeByte(atype)] + AddressField(addr) + ToBigEndian(2, port) + ToBigEndian(2, size % 0x1_0000) + CRLF
  }

  /** The frame a writer makes of one read. */
  function FrameBytes(t: Atype, a: Address, port: u16, chunk: bytes): bytes {
    UdpHeaderBytes(t, a, port, |chunk|) + chunk
  }

  function EncodeFrame(d: Datagram): bytes {
    FrameBytes(AtypeOf(d.addr), d.addr, d.port, d.payload)
  }

  function EncodeFrames(ds: seq<Datagram>): bytes {
    if ds == [] then [] else EncodeFrame(ds[0]) + EncodeFrames(ds[1..])
  }

  predicate Nameable(a: Address) {
    a.Domain? ==> |a.name| < 256
  }

  /** What the writers can produce: a name with a one-byte length, a payload that fits the buffer. */
  predicate Framable(d: Datagram) {
    Nameable(d.addr) && |d.payload| <= BUF_SIZE
  }

  predicate AllFramable(ds: seq<Datagram>) {
    forall i :: 0 <= i < |ds| ==> Framable(ds[i])
  }

  predicate Resolvable(u: set<bytes>, d: Datagram) {
    d.addr.Domain? ==> d.addr.name !in u
  }

  // ---------------------------------------------------------------- where a parser returns

  /** The number of bytes a parser that returns on `s` consumes. */
  function FullLength(g: Grammar, s: bytes): nat
    requires Ask(g, s).Full?
  {
    match g
    case Exactly(n) => n
    case TrojanHeader => AddressEnd(s, HEX_SIZE + 3, true) + 4
    case UdpHeader => ParseUdpHeader(s).end
    case UdpFrame(_) => ParseUdpHeader(s).end + ParseUdpHeader(s).size
    case Socks5Request => AddressEnd(s, 3, false) + 2
  }

  lemma EndpointOnPrefix(s: bytes, i: nat, named: bool, c: nat, k: nat)
    requires i <= k <= |s| && AskEndpoint(s, i, named, c).Full?
    ensures var e := AddressEnd(s, i, named) + 2 * c;
      var w := AskEndpoint(s[..k], i, named, c);
      if k < e then w.More? && k + w.n <= e else w.Full?
  {
    assert i < k ==> s[..k][i] == s[i];
    assert i + 1 < k ==> s[..k][i + 1] == s[i + 1];
  }

  /** Before that point a parser is always inside a read that does not reach past it. */
  lemma AskOnPrefix(g: Grammar, s: bytes, k: nat)
    requires Ask(g, s).Full? && k < FullLength(g, s) <= |s|
    ensures Ask(g, s[..k]).More? && k + Ask(g, s[..k]).n <= FullLength(g, s)
  {
    var p := s[..k];
    match g
    case Exactly(_) =>
    case TrojanHeader =>
      if HEX_SIZE + 3 <= k {
        assert p[HEX_SIZE + 2] == s[HEX_SIZE + 2];
        EndpointOnPrefix(s, HEX_SIZE + 3, true, 2, k);
      }
    case UdpHeader => EndpointOnPrefix(s, 0, true, 3, k);
    case UdpFrame(_) =>
      EndpointOnPrefix(s, 0, true, 3, k);
      if ParseUdpHeader(s).end <= k {
        assert s == p + s[k..];
        UdpHeaderExtends(p, s[k..]);
      }
    case Socks5Request =>
      assert forall i :: 0 <= i < k ==> p[i] == s[i];
      if 3 <= k { EndpointOnPrefix(s, 3, false, 1, k); }
  }

  /** Flat parsing of `s` followed by anything consumes exactly `s`. */
  lemma {:induction false} ScanFull(g: Grammar, s: bytes, rest: bytes, k: nat)
    requires Ask(g, s).Full? && k <= FullLength(g, s) == |s|
    ensures Scan(g, s + rest, k) == Complete(s)
    decreases |s| - k
  {
    hide Ask, FullLength;
    assert (s + rest)[..k] == s[..k];
    if k < |s| {
      AskOnPrefix(g, s, k);
      ScanFull(g, s, rest, k + Ask(g, s[..k]).n);
    } else {
      assert s[..k] == s;
    }
  }

  /** Flat parsing of a proper prefix of `s` waits for more. */
  lemma {:induction false} ScanPart(g: Grammar, s: bytes, m: nat, k: nat)
    requires Ask(g, s).Full? && k <= m < FullLength(g, s) == |s|
    ensures Scan(g, s[..m], k) == Waiting(s[..m])
    decreases m - k
  {
    hide Ask, FullLength;
    assert s[..m][..k] == s[..k];
    AskOnPrefix(g, s, k);
    if k + Ask(g, s[..k]).n <= m {
      ScanPart(g, s, m, k + Ask(g, s[..k]).n);
    }
  }

  // ---------------------------------------------------------------- one frame

  /** An address field, wherever it stands, is decoded to the address and its extent. */
  lemma AddressDecodes(pre: bytes, a: Address, post: bytes)
    requires Nameable(a)
    ensures var s := pre + [AtypeByte(AtypeOf(a))] + AddressField(a) + post;
      && AskAddress(s, |pre|, true).Full?
      && AddressEnd(s, |pre|, true) == |pre| + 1 + |AddressField(a)|
      && AddressAt(s, |pre|, true) == a
  {
    var i := |pre|;
    var f := AddressField(a);
    var s := pre + [AtypeByte(AtypeOf(a))] + f + post;
    assert s[i] == AtypeByte(AtypeOf(a));
    assert s[i + 1] == f[0];
    assert s[i + 1..i + 1 + |f|] == f;
    Widths();
    match a
    case V4(v) => DecodeEncodeBigEndian(4, v);
    case V6(v) => DecodeEncodeBigEndian(16, v);
    case Domain(name) => assert s[i + 2..i + 2 + |name|] == f[1..] == name;
  }

  lemma U16Decodes(pre: bytes, v: u16, post: bytes)
    ensures U16At(pre + ToBigEndian(2, v) + post, |pre|) == v
  {
    Widths();
    DecodeEncodeBigEndian(2, v);
    assert (pre + ToBigEndian(2, v) + post)[|pre|..|pre| + 2] == ToBigEndian(2, v);
  }

  /** An address field and the port after it. */
  lemma EndpointDecodes(pre: bytes, a: Address, port: u16, post: bytes)
    requires Nameable(a)
    ensures var s := pre + [AtypeByte(AtypeOf(a))] + AddressField(a) + ToBigEndian(2, port) + post;
      var e := |pre| + 1 + |AddressField(a)|;
      && AskAddress(s, |pre|, true).Full? && AddressEnd(s, |pre|, true) == e
      && AddressAt(s, |pre|, true) == a
      && U16At(s, e) == port
  {
    hide AskAddress, AddressEnd, AddressAt, U16At, AddressField, ToBigEndian;
    var front := pre + [AtypeByte(AtypeOf(a))] + AddressField(a);
    var p := ToBigEndian(2, port);
    AddressDecodes(pre, a, p + post);
    U16Decodes(front, port, post);
    assert front + p + post == front + (p + post);
  }

  lemma UdpHeaderDecodes(a: Address, port: u16, size: u16, rest: bytes)
    requires Nameable(a)
    ensures var h := UdpHeaderBytes(AtypeOf(a), a, port, size);
      && AskEndpoint(h + rest, 0, true, 3).Full?
      && ParseUdpHeader(h + rest) == UdpPacketHeader(a, port, size, |h|)
  {
    hide AskAddress, AddressEnd, AddressAt, U16At, AddressField, ToBigEndian;
    var h := UdpHeaderBytes(AtypeOf(a), a, port, size);
    var front := [AtypeByte(AtypeOf(a))] + AddressField(a);
    var p, z := ToBigEndian(2, port), ToBigEndian(2, size);
    EndpointDecodes([], a, port, z + CRLF + rest);
    U16Decodes(front + p, size, CRLF + rest);
    assert h + rest == [] + [AtypeByte(AtypeOf(a))] + AddressField(a) + p + (z + CRLF + rest);
    assert h + rest == (front + p) + z + (CRLF + rest);
  }

  /** A frame is accepted exactly at its last byte and decodes to the datagram it was made from. */
  lemma FrameDecodes(u: set<bytes>, d: Datagram)
    requires Framable(d) && Resolvable(u, d)
    ensures var f := EncodeFrame(d);
      && Ask(UdpFrame(u), f).Full? && FullLength(UdpFrame(u), f) == |f|
      && ParseFrame(f) == d
  {
    var h, x := UdpHeaderBytes(AtypeOf(d.addr), d.addr, d.port, |d.payload|), d.payload;
    assert EncodeFrame(d) == h + x && Nameable(d.addr);
    assert |x| <= BUF_SIZE < 0x1_0000 && (d.addr.Domain? ==> d.addr.name !in u);
    hide *;
    UdpHeaderDecodes(d.addr, d.port, |x|, x);
    FrameOfParts(u, h, x, d);
  }

  lemma FrameOfParts(u: set<bytes>, h: bytes, x: bytes, d: Datagram)
    requires |x| <= BUF_SIZE && d.payload == x && (d.addr.Domain? ==> d.addr.name !in u)
    requires AskEndpoint(h + x, 0, true, 3).Full?
    requires ParseUdpHeader(h + x) == UdpPacketHeader(d.addr, d.port, |x|, |h|)
    ensures Ask(UdpFrame(u), h + x).Full? && FullLength(UdpFrame(u), h + x) == |h + x| && ParseFrame(h + x) == d
  {
    hide AskEndpoint, ParseUdpHeader, Ask, FullLength, ParseFrame;
    FrameOf(u, h + x);
    assert (h + x)[|h|..|h| + |x|] == x;
  }

  /** What a frame is whose header is `h` and whose payload ends with the bytes. */
  lemma FrameOf(u: set<bytes>, f: bytes)
    requires AskEndpoint(f, 0, true, 3).Full?
    requires var h := ParseUdpHeader(f); h.end + h.size == |f| && h.size <= BUF_SIZE
    requires var h := ParseUdpHeader(f); h.addr.Domain? ==> h.addr.name !in u
    ensures Ask(UdpFrame(u), f).Full? && FullLength(UdpFrame(u), f) == |f|
    ensures var h := ParseUdpHeader(f); ParseFrame(f) == Datagram(h.addr, h.port, f[h.end..h.end + h.size])
  {
    hide AskEndpoint, ParseUdpHeader;
  }

  /** Frames are uniquely decodable: no frame is a prefix of a different one, whatever follows. */
  lemma PrefixFree(d: Datagram, e: Datagram, x: bytes, y: bytes)
    requires Framable(d) && Framable(e)
    requires EncodeFrame(d) + x == EncodeFrame(e) + y
    ensures d == e && x == y
  {
    var f, h := EncodeFrame(d), EncodeFrame(e);
    FrameDecodes({}, d);
    FrameDecodes({}, e);
    ScanFull(UdpFrame({}), f, x, 0);
    ScanFull(UdpFrame({}), h, y, 0);
    assert f == h;
    assert x == (f + x)[|f|..] && y == (h + y)[|h|..];
  }

  /** Encoding an address that was read gives back its bytes. */
  lemma AddressCanonical(s: bytes)
    requires AskAddress(s, 0, true).Full?
    ensures AddressField(AddressAt(s, 0, true)) == s[1..AddressEnd(s, 0, true)]
  {
    var e := AddressEnd(s, 0, true);
    if AddressAt(s, 0, true).Domain? {
      assert s[1..e] == [s[1]] + s[2..e];
    } else {
      EncodeDecodeBigEndian(s[1..e]);
    }
  }

  /** Parsing canonicalises: encoding what `parse_udp` read gives back the bytes it consumed, with only
      the delimiter replaced by CRLF. */
  lemma ParseCanonicalises(s: bytes)
    requires Ask(UdpHeader, s).Full? && FullLength(UdpHeader, s) == |s|
    ensures var h := ParseUdpHeader(s);
      && Nameable(h.addr)
      && UdpHeaderBytes(AtypeOf(h.addr), h.addr, h.port, h.size) == s[..|s| - 2] + CRLF
  {
    var h, e := ParseUdpHeader(s), |s| - 6;
    hide *;
    HeaderFields(s);
    EncodeDecodeBigEndian(s[e..e + 2]);
    EncodeDecodeBigEndian(s[e + 2..e + 4]);
    WrittenHeader(h.addr, h.port, h.size);
    FourPieces(s, e, AddressField(h.addr), ToBigEndian(2, h.port), ToBigEndian(2, h.size));
  }

  /** Where the fields of a header that was read stand. */
  lemma HeaderFields(s: bytes)
    requires Ask(UdpHeader, s).Full? && FullLength(UdpHeader, s) == |s|
    ensures var h, e := ParseUdpHeader(s), |s| - 6;
      && 2 <= e && Nameable(h.addr)
      && AtypeByte(AtypeOf(h.addr)) == s[0] && AddressField(h.addr) == s[1..e]
      && h.port == FromBigEndian(s[e..e + 2]) && h.size == FromBigEndian(s[e + 2..e + 4])
  {
    AddressCanonical(s);
    hide AddressField, ToBigEndian, FromBigEndian;
  }

  lemma WrittenHeader(a: Address, port: u16, size: u16)
    ensures UdpHeaderBytes(AtypeOf(a), a, port, size)
      == [AtypeByte(AtypeOf(a))] + AddressField(a) + ToBigEndian(2, port) + ToBigEndian(2, size) + CRLF
  {
    hide AddressField, ToBigEndian;
  }

  lemma FourPieces(s: bytes, e: nat, f: bytes, p: bytes, z: bytes)
    requires 1 <= e && e + 4 <= |s| && f == s[1..e] && p == s[e..e + 2] && z == s[e + 2..e + 4]
    ensures [s[0]] + f + p + z == s[..e + 4]
  {
    assert [s[0]] + f == s[..e];
    Cut(s, e, 2);
    Cut(s, e + 2, 2);
  }

  /** So parse, encode, parse is parse. */
  lemma ReparseIsParse(s: bytes, rest: bytes)
    requires Ask(UdpHeader, s).Full? && FullLength(UdpHeader, s) == |s|
    ensures var h := ParseUdpHeader(s);
      var c := UdpHeaderBytes(AtypeOf(h.addr), h.addr, h.port, h.size);
      Scan(UdpHeader, c + rest, 0) == Complete(c) && ParseUdpHeader(c) == h
  {
    var h := ParseUdpHeader(s);
    var c := UdpHeaderBytes(AtypeOf(h.addr), h.addr, h.port, h.size);
    ParseCanonicalises(s);
    UdpHeaderDecodes(h.addr, h.port, h.size, []);
    assert c + [] == c;
    ScanFull(UdpHeader, c, rest, 0);
  }

  /** Bounds: no cast loses anything, and a header fits the 512-byte cursor with room to spare. */
  lemma HeaderBounds(a: Address, port: u16, size: nat)
    requires Nameable(a) && size <= BUF_SIZE
    ensures 8 <= |UdpHeaderBytes(AtypeOf(a), a, port, size)| <= 263
    ensures size % 0x1_0000 == size && (a.Domain? ==> |a.name| % 256 == |a.name|)
  {
  }

  /** Frames spelled out: type bytes, byte order, the length byte of a name, sizes and delimiter. */
  lemma KnownV4Frame()
    ensures EncodeFrame(Datagram(V4(0x7F000001), 53, [7])) == [1, 127, 0, 0, 1, 0, 53, 0, 1, 13, 10, 7]
  {
    assert ToBigEndian(4, 0x7F000001) == [127, 0, 0, 1];
    TwoBytes(53);
    TwoBytes(1);
    hide ToBigEndian;
  }

  lemma KnownNameFrame()
    ensures EncodeFrame(Datagram(Domain([97, 98]), 443, [])) == [3, 2, 97, 98, 1, 187, 0, 0, 13, 10]
  {
    TwoBytes(443);
    TwoBytes(0);
    hide ToBigEndian;
  }

  lemma KnownFrames()
    ensures EncodeFrame(Datagram(V4(0x7F000001), 53, [7])) == [1, 127, 0, 0, 1, 0, 53, 0, 1, 13, 10, 7]
    ensures EncodeFrame(Datagram(Domain([97, 98]), 443, [])) == [3, 2, 97, 98, 1, 187, 0, 0, 13, 10]
    ensures forall v: u128 :: EncodeFrame(Datagram(V6(v), 1, []))[0] == 4
  {
    KnownV4Frame();
    KnownNameFrame();
    hide ToBigEndian;
  }
}
