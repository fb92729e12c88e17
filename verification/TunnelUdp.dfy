/**
 Datagrams to a name out of step. The server takes too few or too many bytes for the header and looks for a frame
 somewhere else. This file says for exactly which requests that can make a datagram come out that was not read.
 */
module TunnelUdp {
  import opened Bytes
  import opened Protocol
  import opened Parsers
  import opened Reading
  import opened Framing
  import opened Handshake
  import opened Senders
  import opened Tunnel
  import opened TunnelInvariant
  import opened TunnelSteps
  import opened TunnelFlow
  import opened TunnelNames

  // ---------------------------------------------------------------- what the request decides

  /** How many bytes lie between where the server believes the header to end and the first payload; if negative, how
      many bytes of payload it takes for the header. */
  function Gap(r: InboundRequest): int
    requires r.addr.Domain?
  {
    2 * |r.addr.name| + 7 - FirstByte(r)
  }

  /** The bytes sent from the name in the header on, up to a first payload of `m` bytes. */
  function Ahead(r: InboundRequest, m: nat): bytes
    requires r.addr.Domain?
  {
    r.addr.name + ToBigEndian(2, r.port) + CRLF + UdpHeaderBytes(r.atype, r.addr, r.port, m)
  }

  lemma AheadLength(r: InboundRequest, m: nat)
    requires r.addr.Domain?
    ensures |Ahead(r, m)| == 2 * |r.addr.name| + 12
  {
  }

  /** Those of them that the server looks for a frame in. */
  function Between(r: InboundRequest, m: nat): bytes
    requires r.addr.Domain? && 0 <= Gap(r)
  {
    AheadLength(r, m);
    Ahead(r, m)[5 + FirstByte(r)..]
  }

  /** A name for which they are refused whatever the size of the first payload. With a gap of four the size decides
      even the first byte. */
  predicate Mute(r: InboundRequest) {
    r.addr.Domain? && 0 < Gap(r) && Gap(r) != 4 && Ask(UdpFrame({}), Between(r, 1)).Refuse?
  }

  // ---------------------------------------------------------------- the bytes in the gap

  /** The last four bytes of a gap of `|x|` bytes before `m` bytes of payload. */
  predicate EndsGap(x: bytes, m: nat) {
    var g := |x|;
    && (1 <= g ==> x[g - 1] == LF) && (2 <= g ==> x[g - 2] == CR)
    && (3 <= g ==> x[g - 3] == m % 256) && (4 <= g ==> x[g - 4] == m / 256)
  }

  lemma SizeBytes(m: nat)
    requires m <= BUF_SIZE
    ensures ToBigEndian(2, m % 0x1_0000) == [m / 256, m % 256]
  {
    assert m % 0x1_0000 == m;
    hide ToBigEndian;
    TwoBytes(m);
  }

  /** The bytes that do not depend on the first payload. */
  function Fixed(r: InboundRequest): bytes
    requires r.addr.Domain?
  {
    r.addr.name + ToBigEndian(2, r.port) + CRLF + ([AtypeByte(r.atype)] + AddressField(r.addr) + ToBigEndian(2, r.port))
  }

  lemma AheadIs(r: InboundRequest, m: nat)
    requires r.addr.Domain? && m <= BUF_SIZE
    ensures |Fixed(r)| == 2 * |r.addr.name| + 8
    ensures Ahead(r, m) == Fixed(r) + [m / 256, m % 256, CR, LF]
  {
    SizeBytes(m);
    var a := r.addr.name + ToBigEndian(2, r.port) + CRLF;
    var b := [AtypeByte(r.atype)] + AddressField(r.addr) + ToBigEndian(2, r.port);
    var z := [m / 256, m % 256];
    assert |a| == |r.addr.name| + 4 && |b| == |r.addr.name| + 4;
    assert UdpHeaderBytes(r.atype, r.addr, r.port, m) == b + z + CRLF;
    hide ToBigEndian, AddressField, UdpHeaderBytes;
    assert a + (b + z + CRLF) == (a + b) + [m / 256, m % 256, CR, LF];
  }

  lemma BetweenIs(r: InboundRequest, m: nat)
    requires r.addr.Domain? && 0 <= Gap(r) && m <= BUF_SIZE
    ensures |Between(r, m)| == Gap(r) && EndsGap(Between(r, m), m)
    ensures forall i :: 0 <= i < Gap(r) - 4 ==> Between(r, m)[i] == Fixed(r)[5 + FirstByte(r) + i]
  {
    AheadIs(r, m);
    hide Ahead, Fixed;
  }

  // ---------------------------------------------------------------- frames found in a gap

  /** Where the header of a frame ends that begins like `x`. */
  function EndOfHead(x: bytes): nat
    requires 2 <= |x| && AtypeFrom(x[0]).Some?
  {
    match AtypeFrom(x[0]).value
    case IPv4 => 11
    case IPv6 => 23
    case DomainName => 8 + x[1] as nat
  }

  /** A frame's header is complete from that point on, and not before; its size is the field four bytes earlier. */
  lemma HeadEnds(x: bytes)
    requires 2 <= |x| && AtypeFrom(x[0]).Some?
    ensures var e := EndOfHead(x);
      && 8 <= e <= 263
      && (|x| < e ==> AskEndpoint(x, 0, true, 3).More?)
      && (e <= |x| ==> AskEndpoint(x, 0, true, 3).Full?)
      && (e <= |x| ==> ParseUdpHeader(x).end == e)
      && (e <= |x| ==> ParseUdpHeader(x).size as int == x[e - 4] as int * 256 + x[e - 3] as int)
  {
    var e := EndOfHead(x);
    if e <= |x| {
      assert AskEndpoint(x, 0, true, 3).Full?;
      assert AddressEnd(x, 0, true) == e - 6;
      PortOf(x, e - 4);
      hide U16At, AddressAt;
    }
  }

  lemma NoType(x: bytes)
    requires x != [] && AtypeFrom(x[0]).None?
    ensures Ask(UdpFrame({}), x).Refuse?
  {
  }

  /** A refusal in the gap before one byte of payload is one before any payload. */
  lemma RefusalLasts(x: bytes, y: bytes, m: nat)
    requires |x| == |y| != 4 && x != [] && EndsGap(x, 1) && EndsGap(y, m) && m <= BUF_SIZE
    requires forall i :: 0 <= i < |x| - 4 ==> x[i] == y[i]
    requires Ask(UdpFrame({}), x).Refuse?
    ensures Ask(UdpFrame({}), y).Refuse?
  {
    if AtypeFrom(y[0]).None? {
      NoType(y);
    } else {
      var g, e := |x|, EndOfHead(x);
      assert 5 <= g && x[0] == y[0];
      HeadEnds(x);
      HeadEnds(y);
      hide AskEndpoint, ParseUdpHeader;
      assert e <= g && x[e - 4] as int * 256 + x[e - 3] as int > BUF_SIZE;
      assert EndOfHead(y) == e;
      if e == g - 1 {
        assert x[e - 3] == 0 && x[e - 4] == y[e - 4];
      } else {
        assert e <= g - 2;
      }
    }
  }

  /** If the header found in the gap is complete there, what follows is its payload. */
  lemma FrameInGap(x: bytes, t: bytes)
    requires AskEndpoint(x, 0, true, 3).Full? && !Ask(UdpFrame({}), x).Refuse? && BUF_SIZE <= |t|
    ensures Ask(UdpFrame({}), x + t).Full?
    ensures var h := ParseUdpHeader(x);
      && h.end <= |x| && h.end + h.size <= |x + t|
      && ParseFrame(x + t) == Datagram(h.addr, h.port, (x + t)[h.end..h.end + h.size])
  {
    UdpHeaderExtends(x, t);
  }

  /** If it is not, the size of the first payload does not change that. */
  lemma IncompleteToo(x: bytes, y: bytes)
    requires |x| == |y| >= 5 && forall i :: 0 <= i < |x| - 4 ==> x[i] == y[i]
    requires AskEndpoint(x, 0, true, 3).More?
    ensures AtypeFrom(y[0]).Some? && |y| < EndOfHead(y)
  {
    assert x[0] == y[0] && AtypeFrom(x[0]).Some?;
    HeadEnds(x);
    hide AskEndpoint;
  }

  function Zeros(n: nat): bytes {
    seq(n, _ => 0)
  }

  /** A header that goes on into a payload of 512 zeros announces some other size. */
  lemma FrameInZeros(y: bytes, t: bytes)
    requires 5 <= |y| && EndsGap(y, 512) && AtypeFrom(y[0]).Some? && |y| < EndOfHead(y)
    requires |t| >= 512 + BUF_SIZE && t[..512] == Zeros(512)
    ensures Ask(UdpFrame({}), y + t).Full? && |ParseFrame(y + t).payload| != 512
  {
    var s, g := y + t, |y|;
    var e := EndOfHead(y);
    assert s[0] == y[0] && s[1] == y[1];
    assert EndOfHead(s) == e;
    HeadEnds(s);
    forall i | g <= i < g + 512 ensures s[i] == 0 {
      assert s[i] == t[i - g] == t[..512][i - g];
    }
    assert s[g - 1] == LF && s[g - 2] == CR && s[g - 3] == 0;
    SizeInZeros(s, g, e);
    hide AskEndpoint, EndOfHead;
  }

  lemma SizeInZeros(s: bytes, g: nat, e: nat)
    requires 5 <= g < e <= 263 && g + 512 <= |s| && s[g - 1] == LF && s[g - 2] == CR && s[g - 3] == 0
    requires forall i :: g <= i < g + 512 ==> s[i] == 0
    ensures var z := s[e - 4] as int * 256 + s[e - 3] as int; z <= 3338 && z != 512
  {
    if e == g + 1 {
      assert s[e - 4] == s[g - 3] && s[e - 3] == s[g - 2];
    } else if e == g + 2 {
      assert s[e - 4] == s[g - 2] && s[e - 3] == s[g - 1];
    } else if e == g + 3 {
      assert s[e - 4] == s[g - 1] && s[e - 3] == 0;
    } else {
      assert s[e - 4] == 0 && s[e - 3] == 0;
    }
  }

  /** A gap of three or four bytes before 257 or 256 zeros begins with the type of an IPv4 address. */
  lemma ShortGap(y: bytes, t: bytes)
    requires 3 <= |y| <= 4 && y[0] == 1 && 8 <= |t| && t[..8] == Zeros(8)
    ensures Ask(UdpFrame({}), y + t).Full? && ParseFrame(y + t).addr.V4?
  {
    var s := y + t;
    assert s[0] == 1;
    assert s[7] == t[..8][7 - |y|] == 0 && s[8] == t[..8][8 - |y|] == 0;
    HeadEnds(s);
    hide U16At;
  }

  // ---------------------------------------------------------------- the bytes sent

  predicate UdpName(c: Session) {
    && Plausible(c) && c.direction.Upload? && c.client.Some?
    && c.request.command.Udp? && c.request.addr.Domain?
  }

  /** What a client's first read and the others add to the stream after the header of the first frame. */
  function FromPayload(r: InboundRequest, input: seq<bytes>): bytes
    requires input != []
  {
    input[0] + EncodeFrames(Framed(r, input[1..]))
  }

  lemma BodyFromPayload(c: Session, input: seq<bytes>)
    requires UdpName(c) && input != []
    ensures Body(c, input) == UdpHeaderBytes(c.request.atype, c.request.addr, c.request.port, |input[0]|)
      + FromPayload(c.request, input)
  {
    var r, ds := c.request, Framed(c.request, input);
    var h := UdpHeaderBytes(r.atype, r.addr, r.port, |input[0]|);
    assert ds[1..] == Framed(r, input[1..]);
    assert EncodeFrame(ds[0]) == h + input[0];
    hide UdpHeaderBytes, Framed, EncodeFrame;
    Reassociate(h, input[0], EncodeFrames(ds[1..]));
  }

  /** Everything sent, from the name in the header on. */
  lemma FromName(c: Session, input: seq<bytes>)
    requires UdpName(c) && input != []
    ensures var all := Everything(c, input);
      HEX_SIZE + 4 <= |all| && all[HEX_SIZE + 4..] == Ahead(c.request, |input[0]|) + FromPayload(c.request, input)
  {
    var p, r := Preamble(c), c.request;
    PreambleFromName(c);
    BodyFromPayload(c, input);
    var h, x := UdpHeaderBytes(r.atype, r.addr, r.port, |input[0]|), FromPayload(r, input);
    hide Preamble, Body, UdpHeaderBytes, FromPayload, ToBigEndian;
    DropInto(p, HEX_SIZE + 4, h + x);
    Reassociate(p[HEX_SIZE + 4..], h, x);
  }

  /** What the server looks for frames in. */
  lemma Behind(c: Session, input: seq<bytes>)
    requires UdpName(c) && input != [] && -Gap(c.request) <= |FromPayload(c.request, input)|
    ensures var r, x := c.request, FromPayload(c.request, input);
      AfterHeader(c, Everything(c, input)) == Some(if 0 <= Gap(r) then Between(r, |input[0]|) + x else x[-Gap(r)..])
  {
    var r := c.request;
    assert r.addr.Domain?;
    hide *;
    if 0 <= Gap(r) { BehindGap(c, input); } else { BehindFiller(c, input); }
  }

  lemma BehindGap(c: Session, input: seq<bytes>)
    requires UdpName(c) && c.request.addr.Domain? && input != [] && 0 <= Gap(c.request)
    ensures AfterHeader(c, Everything(c, input)) ==
      Some(Between(c.request, |input[0]|) + FromPayload(c.request, input))
  {
    hide *;
    var r, k := c.request, 5 + FirstByte(c.request);
    GapIs(r, |input[0]|);
    BehindBytes(c, input, k);
    DropInto(Ahead(r, |input[0]|), k, FromPayload(r, input));
  }

  lemma BehindFiller(c: Session, input: seq<bytes>)
    requires UdpName(c) && c.request.addr.Domain? && input != [] && Gap(c.request) < 0
    requires -Gap(c.request) <= |FromPayload(c.request, input)|
    ensures AfterHeader(c, Everything(c, input)) == Some(FromPayload(c.request, input)[-Gap(c.request)..])
  {
    hide *;
    var r, k := c.request, 5 + FirstByte(c.request);
    GapIs(r, |input[0]|);
    BehindBytes(c, input, k);
    DropPast(Ahead(r, |input[0]|), k, FromPayload(r, input));
  }

  lemma BehindBytes(c: Session, input: seq<bytes>, k: nat)
    requires UdpName(c) && c.request.addr.Domain? && input != [] && k == 5 + FirstByte(c.request)
    requires k <= |Ahead(c.request, |input[0]|)| + |FromPayload(c.request, input)|
    ensures AfterHeader(c, Everything(c, input)) ==
      Some((Ahead(c.request, |input[0]|) + FromPayload(c.request, input))[k..])
  {
    hide Everything, Ahead, FromPayload, AfterHeader, UdpName, FirstByte;
    FromName(c, input);
    TailOfTail(Everything(c, input), HEX_SIZE + 4, Ahead(c.request, |input[0]|) + FromPayload(c.request, input), k);
    BehindName(c, input, k);
  }

  lemma TailOfTail(all: bytes, z: nat, y: bytes, k: nat)
    requires z <= |all| && all[z..] == y && k <= |y|
    ensures z + k <= |all| && all[z + k..] == y[k..]
  {
    DropTwice(all, z, k);
  }

  lemma PastFirst(all: bytes, z: nat, a: bytes, x: bytes, k: nat)
    requires z <= |all| && all[z..] == a + x && k <= |a|
    ensures z + k <= |all| && all[z + k..] == a[k..] + x
  {
    DropInto(a, k, x);
    DropTwice(all, z, k);
  }

  lemma GapIs(r: InboundRequest, m: nat)
    requires r.addr.Domain?
    ensures Gap(r) == |Ahead(r, m)| - 5 - FirstByte(r)
    ensures 0 <= Gap(r) ==> Between(r, m) == Ahead(r, m)[5 + FirstByte(r)..]
  {
    AheadLength(r, m);
    hide Ahead;
  }

  lemma BehindName(c: Session, input: seq<bytes>, k: nat)
    requires UdpName(c) && k == 5 + FirstByte(c.request) && HEX_SIZE + 4 + k <= |Everything(c, input)|
    ensures AfterHeader(c, Everything(c, input)) == Some(Everything(c, input)[HEX_SIZE + 4 + k..])
  {
    NameHeader(c, Body(c, input));
    hide Ask, FullLength, Preamble, Body;
  }

  // ---------------------------------------------------------------- mute names

  lemma RefusedForAnySize(r: InboundRequest, m: nat)
    requires Mute(r) && m <= BUF_SIZE
    ensures Ask(UdpFrame({}), Between(r, m)).Refuse?
  {
    BetweenIs(r, 1);
    BetweenIs(r, m);
    hide Ask, Between, EndsGap, Fixed;
    RefusalLasts(Between(r, 1), Between(r, m), m);
  }

  lemma RefusedFirst(rest: bytes)
    requires !Ask(UdpFrame({}), rest).Full?
    ensures Deframe(rest) == []
  {
    hide Ask;
  }

  /** Before the first read the header alone, or its end, is no frame either. */
  lemma MuteHeader(c: Session)
    requires UdpName(c) && Mute(c.request)
    ensures Deframed(c, []) == []
  {
    var p, r := Preamble(c), c.request;
    assert Framed(r, []) == [];
    NoTail(p, []);
    NameHeader(c, []);
    hide Ask, FullLength, Preamble, Mute;
    if HeaderEnd(r) <= |p| {
      RestOfHeader(c);
      RefusedFirst(p[HeaderEnd(r)..]);
    }
  }

  /** What the server finds in the end of the header is no frame. */
  lemma RestOfHeader(c: Session)
    requires UdpName(c) && Mute(c.request) && HeaderEnd(c.request) <= |Preamble(c)|
    ensures !Ask(UdpFrame({}), Preamble(c)[HeaderEnd(c.request)..]).Full?
  {
    var p, r, k := Preamble(c), c.request, 5 + FirstByte(c.request);
    var h := UdpHeaderBytes(r.atype, r.addr, r.port, 1);
    PreambleFromName(c);
    GapIs(r, 1);
    hide Ask, Preamble, Between, UdpHeaderBytes, ToBigEndian;
    DropInto(p, HEX_SIZE + 4, h);
    PastFirst(p + h, HEX_SIZE + 4, p[HEX_SIZE + 4..], h, k);
    var rest := p[HeaderEnd(r)..];
    DropInto(p, HeaderEnd(r), h);
    assert Between(r, 1) == rest + h;
    if Ask(UdpFrame({}), rest).Full? { FullExtends(UdpFrame({}), rest, h); }
  }

  /** For a mute name nothing is ever found. */
  lemma MuteIsSilent(c: Session, input: seq<bytes>)
    requires UdpName(c) && Mute(c.request) && InputShape(c, input)
    ensures Deframed(c, input) == []
  {
    if input == [] {
      MuteHeader(c);
    } else {
      var r, x := c.request, FromPayload(c.request, input);
      var b := Between(r, |input[0]|);
      RefusedForAnySize(r, |input[0]|);
      Behind(c, input);
      hide Ask, Mute, Between, FromPayload, AfterHeader, Everything, UdpName;
      RefuseExtends(b, x);
      RefusedFirst(b + x);
    }
  }

  // ---------------------------------------------------------------- all other names out of step

  lemma FirstDiffers(c: Session, input: seq<bytes>, rest: bytes)
    requires c.request.command.Udp? && input != []
    requires AfterHeader(c, Everything(c, input)) == Some(rest)
    requires Ask(UdpFrame({}), rest).Full? && ParseFrame(rest) != Framed(c.request, input)[0]
    ensures !ReferenceSafe(c, input)
  {
    hide AfterHeader, Everything, Ask, ParseFrame;
    var ds := Deframed(c, input);
    assert ds == Deframe(rest) && ds != [] && ds[0] == ParseFrame(rest);
  }

  /** Payload that the server takes for the rest of the header, and then for frames. */
  lemma FramesInPayload(c: Session, filler: bytes, ds: seq<Datagram>)
    requires UdpName(c) && Gap(c.request) <= 0 && |filler| == -Gap(c.request) && AllFramable(ds)
    ensures Deframed(c, [filler + EncodeFrames(ds)]) == ds
  {
    var r, f := c.request, EncodeFrames(ds);
    var input := [filler + f];
    assert input[1..] == [] && Framed(r, []) == [];
    NoTail(filler + f, EncodeFrames([]));
    assert FromPayload(r, input) == filler + f;
    Behind(c, input);
    if Gap(r) == 0 {
      BetweenEmpty(r, |filler + f|);
      assert [] + (filler + f) == f;
    } else {
      DropPast(filler, |filler|, f);
      assert f[0..] == f;
    }
    hide AfterHeader, Everything, FromPayload, Between, UdpName;
    DeframeEncodes(ds);
  }

  lemma BetweenEmpty(r: InboundRequest, m: nat)
    requires r.addr.Domain? && Gap(r) == 0
    ensures Between(r, m) == []
  {
    AheadLength(r, m);
  }

  lemma LongerThanRead(r: InboundRequest, chunk: bytes, filler: bytes, ds: seq<Datagram>)
    requires chunk == filler + EncodeFrames(ds) && ds != []
    ensures !(ds <= Framed(r, [chunk]))
  {
    hide EncodeFrames;
    FirstFits(ds);
  }

  lemma FirstFits(ds: seq<Datagram>)
    requires ds != []
    ensures |ds[0].payload| < |EncodeFrames(ds)|
  {
  }

  lemma TinyFrame(d: Datagram)
    requires d == Datagram(V4(0), 0, [])
    ensures |EncodeFrames([d])| == 11
  {
    assert [d][1..] == [];
    assert |EncodeFrame(d)| == 11;
  }

  /** No gap: the payload alone decides. */
  lemma PayloadDecides(c: Session) returns (input: seq<bytes>)
    requires UdpName(c) && Gap(c.request) <= 0
    ensures InputShape(c, input) && NoEmptyRead(input) && !ReferenceSafe(c, input)
  {
    var d := Datagram(V4(0), 0, []);
    var filler, f := Zeros(-Gap(c.request)), EncodeFrames([d]);
    TinyFrame(d);
    assert AllFramable([d]);
    input := [filler + f];
    assert InputShape(c, input) && NoEmptyRead(input);
    hide EncodeFrames, UdpName, Deframed;
    FramesInPayload(c, filler, [d]);
    LongerThanRead(c.request, filler + f, filler, [d]);
  }

  /** A gap of three or four bytes: its first byte is one of the size's. */
  lemma SizeDecides(c: Session) returns (input: seq<bytes>)
    requires UdpName(c) && 3 <= Gap(c.request) <= 4
    ensures InputShape(c, input) && NoEmptyRead(input) && !ReferenceSafe(c, input)
  {
    var r, m := c.request, if Gap(c.request) == 3 then 257 else 256;
    input := [Zeros(m)];
    var y, t := Between(r, m), FromPayload(r, input);
    ZerosFirst(r, m, t);
    BetweenIs(r, m);
    assert y[0] == 1 && NoEmptyRead(input) && InputShape(c, input) && Framed(r, input)[0].addr == r.addr;
    Behind(c, input);
    hide Between, FromPayload, UdpName, AfterHeader, Everything, Ask, ParseFrame, Zeros, EndsGap, Fixed, InputShape;
    ShortGap(y, t);
    FirstDiffers(c, input, y + t);
  }

  lemma ZerosFirst(r: InboundRequest, m: nat, t: bytes)
    requires 8 <= m && t == FromPayload(r, [Zeros(m)])
    ensures 8 <= |t| && t[..8] == Zeros(8)
  {
    hide Framed, EncodeFrames;
  }

  /** A gap that holds the whole header of a frame: a read of one byte that is not the byte after that header. */
  lemma GapDecides(c: Session) returns (input: seq<bytes>)
    requires UdpName(c) && 5 <= Gap(c.request) && !Aligned(c.request.addr)
    requires AskEndpoint(Between(c.request, 1), 0, true, 3).Full? && !Ask(UdpFrame({}), Between(c.request, 1)).Refuse?
    ensures InputShape(c, input) && NoEmptyRead(input) && !ReferenceSafe(c, input)
  {
    var r, x := c.request, Between(c.request, 1);
    var e := ParseUdpHeader(x).end;
    var b: byte := if e < |x| && x[e] == 0 then 1 else 0;
    input := [[b], Zeros(BUF_SIZE)];
    ReadableOne(c, b, input);
    var t := FromPayload(r, input);
    OneAndMany(r, b, t);
    BetweenIs(r, 1);
    Behind(c, input);
    hide Between, FromPayload, UdpName, AfterHeader, Everything, EndsGap, Fixed, InputShape, NoEmptyRead, Zeros;
    OtherDatagram(r, x, t, b);
    hide Ask, AskEndpoint, ParseFrame, ParseUdpHeader;
    FirstDiffers(c, input, x + t);
  }

  lemma ReadableOne(c: Session, b: byte, input: seq<bytes>)
    requires UdpName(c) && input == [[b], Zeros(BUF_SIZE)]
    ensures InputShape(c, input) && NoEmptyRead(input) && |input[0]| == 1
    ensures Framed(c.request, input)[0] == Datagram(c.request.addr, c.request.port, [b])
  {
    hide Plausible;
  }

  lemma OtherDatagram(r: InboundRequest, x: bytes, t: bytes, b: byte)
    requires r.addr.Domain? && |x| == Gap(r) && !Aligned(r.addr) && BUF_SIZE <= |t| && t[0] == b
    requires AskEndpoint(x, 0, true, 3).Full? && !Ask(UdpFrame({}), x).Refuse?
    requires var e := ParseUdpHeader(x).end; e < |x| ==> x[e] != b
    ensures Ask(UdpFrame({}), x + t).Full? && ParseFrame(x + t) != Datagram(r.addr, r.port, [b])
  {
    FrameInGap(x, t);
    hide Ask, AskEndpoint, ParseFrame, ParseUdpHeader;
    ReadElsewhere(r, x, t, b);
  }

  lemma OneAndMany(r: InboundRequest, b: byte, t: bytes)
    requires t == FromPayload(r, [[b], Zeros(BUF_SIZE)])
    ensures BUF_SIZE <= |t| && t[0] == b
  {
    var input := [[b], Zeros(BUF_SIZE)];
    var ds := Framed(r, input[1..]);
    FirstFits(ds);
  }

  /** A header as long as the right one in a gap as long as that is the right one. */
  lemma HeadLength(x: bytes, r: InboundRequest)
    requires AskEndpoint(x, 0, true, 3).Full? && ParseUdpHeader(x).addr == r.addr && r.addr.Domain?
    ensures ParseUdpHeader(x).end == |r.addr.name| + 8
  {
  }

  lemma ReadElsewhere(r: InboundRequest, x: bytes, t: bytes, b: byte)
    requires r.addr.Domain? && |x| == Gap(r) && !Aligned(r.addr) && t != [] && t[0] == b
    requires AskEndpoint(x, 0, true, 3).Full? && Ask(UdpFrame({}), x + t).Full?
    requires var h := ParseUdpHeader(x);
      && h.end <= |x| && h.end + h.size <= |x + t| && (h.end < |x| ==> x[h.end] != b)
      && ParseFrame(x + t) == Datagram(h.addr, h.port, (x + t)[h.end..h.end + h.size])
    ensures ParseFrame(x + t) != Datagram(r.addr, r.port, [b])
  {
    var h := ParseUdpHeader(x);
    assert h.size > 0 ==> (x + t)[h.end..h.end + h.size][0] == (x + t)[h.end];
    if h.addr == r.addr { HeadLength(x, r); }
    hide Ask, AskEndpoint, ParseFrame, ParseUdpHeader;
  }

  /** A gap that ends inside the header of a frame: 512 zeros, and then more. */
  lemma ZerosDecide(c: Session) returns (input: seq<bytes>)
    requires UdpName(c) && 5 <= Gap(c.request) && AskEndpoint(Between(c.request, 1), 0, true, 3).More?
    ensures InputShape(c, input) && NoEmptyRead(input) && !ReferenceSafe(c, input)
  {
    var r := c.request;
    input := [Zeros(512), Zeros(BUF_SIZE)];
    ReadableZeros(c, input);
    assert r.addr.Domain?;
    hide UdpName, AfterHeader, Everything, InputShape, NoEmptyRead, Zeros, EndsGap, Fixed, Ask, AskEndpoint, ParseFrame;
    hide Between, FromPayload, EndOfHead;
    var x, y, t := Between(r, 1), Between(r, 512), FromPayload(r, input);
    ManyZeros(r, t);
    BetweenIs(r, 1);
    BetweenIs(r, 512);
    IncompleteToo(x, y);
    FrameInZeros(y, t);
    Behind(c, input);
    FirstDiffers(c, input, y + t);
  }

  lemma ReadableZeros(c: Session, input: seq<bytes>)
    requires UdpName(c) && input == [Zeros(512), Zeros(BUF_SIZE)]
    ensures InputShape(c, input) && NoEmptyRead(input) && |input[0]| == 512
    ensures |Framed(c.request, input)[0].payload| == 512
  {
    hide Plausible;
  }

  lemma ManyZeros(r: InboundRequest, t: bytes)
    requires t == FromPayload(r, [Zeros(512), Zeros(BUF_SIZE)])
    ensures |t| >= 512 + BUF_SIZE && t[..512] == Zeros(512)
  {
    var input := [Zeros(512), Zeros(BUF_SIZE)];
    FirstFits(Framed(r, input[1..]));
  }

  lemma ShortGapRefused(r: InboundRequest)
    requires r.addr.Domain? && 1 <= Gap(r) <= 2
    ensures Mute(r)
  {
    BetweenIs(r, 1);
    NoType(Between(r, 1));
    hide Ask;
  }

  /** An input for which a UDP upload to a name out of step that is not mute delivers something else. */
  lemma OutOfStepInput(c: Session) returns (input: seq<bytes>)
    requires UdpName(c) && !Aligned(c.request.addr) && !Mute(c.request)
    ensures InputShape(c, input) && NoEmptyRead(input) && !ReferenceSafe(c, input)
  {
    var r := c.request;
    assert r.addr.Domain?;
    hide UdpName, Aligned, Between, InputShape, NoEmptyRead, ReferenceSafe, AskEndpoint;
    if Gap(r) <= 0 {
      input := PayloadDecides(c);
    } else if Gap(r) <= 2 {
      ShortGapRefused(r);
    } else if Gap(r) <= 4 {
      input := SizeDecides(c);
    } else if AskEndpoint(Between(r, 1), 0, true, 3).Full? {
      input := GapDecides(c);
    } else {
      input := ZerosDecide(c);
    }
  }

  // ---------------------------------------------------------------- exactly

  lemma AuthenticName(c: Session)
    requires Plausible(c) && c.direction.Upload? && c.request.command.Udp? && Authentic(c) && c.request.addr.Domain?
    ensures UdpName(c)
  {
    hide Plausible;
  }

  lemma SilentIsSafe(c: Session, s: State)
    requires UdpName(c) && Plausible(c) && Mute(c.request) && Reachable(c, s)
    ensures Safe(c, s)
  {
    hide *;
    ReachedInv(c, s);
    InvParts(c, s);
    MuteIsSilent(c, s.input);
    NothingIsSafe(c, s.input);
    SafeIfReferenceIs(c, s);
  }

  lemma NothingIsSafe(c: Session, input: seq<bytes>)
    requires UdpName(c) && Deframed(c, input) == []
    ensures ReferenceSafe(c, input)
  {
    hide Plausible, Deframed, Framed;
  }

  /** For every authentic UDP upload: in every reachable state the datagrams delivered are a prefix of those framed
      if and only if the address is aligned or mute. */
  lemma UdpSafeIffAlignedOrMute(c: Session)
    requires Plausible(c) && c.direction.Upload? && c.request.command.Udp? && Authentic(c)
    ensures (forall s :: Reachable(c, s) ==> Safe(c, s)) <==> Aligned(c.request.addr) || Mute(c.request)
  {
    hide Reachable, Safe, Inv, Mute, Plausible, Authentic;
    if Aligned(c.request.addr) {
      forall s | Reachable(c, s) ensures Safe(c, s) {
        ReachedInv(c, s);
        SafeInStep(c, s);
      }
    } else {
      AuthenticName(c);
      if Mute(c.request) {
        forall s | Reachable(c, s) ensures Safe(c, s) {
          SilentIsSafe(c, s);
        }
      } else {
        var input := OutOfStepInput(c);
        SafeIffReferenceIs(c, input);
      }
    }
  }

  /** The failure is general. For every name whose first byte leaves no gap, which is every host name that begins with
      a lower-case letter and has at most 45 bytes: any frames at the right place in a first payload are delivered as
      datagrams of their own, wherever they are addressed to, and the one that was read is not. */
  lemma PayloadTakenForFrames(c: Session, filler: bytes, ds: seq<Datagram>) returns (s: State)
    requires Plausible(c) && c.direction.Upload? && c.request.command.Udp? && Authentic(c)
    requires c.request.addr.Domain? && Gap(c.request) <= 0 && |filler| == -Gap(c.request)
    requires AllFramable(ds) && ds != [] && |filler + EncodeFrames(ds)| <= BUF_SIZE
    ensures Reachable(c, s) && s.input == [filler + EncodeFrames(ds)] && s.delivered == ds && !Safe(c, s)
  {
    var input := [filler + EncodeFrames(ds)];
    FirstFits(ds);
    assert InputShape(c, input) && NoEmptyRead(input) && !Start(c).phase.Closed?;
    AuthenticName(c);
    FramesInPayload(c, filler, ds);
    LongerThanRead(c.request, input[0], filler, ds);
    hide Reachable, Inv, Plausible, Authentic, EncodeFrames, AllFramable, Start, Deframed, UdpName, Framed, InputShape;
    var s0 := ReachInput(c, input);
    s := ReferenceIsReached(c, s0);
  }
}
