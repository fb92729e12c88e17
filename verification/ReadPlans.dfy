/** Which reads the parsers await, one after the other: the sizes decide how the hunk reader looks ahead. */
module ReadPlans {
  import opened Bytes
  import opened Parsers
  import opened Framing
  import opened WireFormat

  /** The sizes of the reads a parser awaits on `s`, having taken `k` bytes; the last one may find too little. */
  function Reads(g: Grammar, s: bytes, k: nat): seq<nat>
    requires k <= |s|
    decreases |s| - k
  {
    var w := Ask(g, s[..k]);
    if !w.More? then []
    else if k + w.n <= |s| then [w.n] + Reads(g, s, k + w.n)
    else [w.n]
  }

  lemma ReadsOn(g: Grammar, s: bytes, k: nat, n: nat)
    requires k <= |s| && 0 < n && k + n <= |s| && Ask(g, s[..k]) == More(n)
    ensures Reads(g, s, k) == [n] + Reads(g, s, k + n)
  {
    hide Ask;
  }

  lemma ReadsDone(g: Grammar, s: bytes)
    requires Ask(g, s).Full?
    ensures Reads(g, s, |s|) == []
  {
    hide Ask;
    assert s[..|s|] == s;
  }

  /** The reads of an address after its type byte at `i`: four or sixteen bytes, or a length and then the name. */
  function AddressReads(s: bytes, i: nat, named: bool): seq<nat>
    requires i + 1 < |s|
  {
    if s[i] == 1 then [4] else if s[i] == 4 then [16]
    else if named && 0 < s[i + 1] then [1, s[i + 1] as nat] else [1]
  }

  // ---------------------------------------------------------------- addresses and fields

  /** Does the parser ask for the endpoint at `i`, then? */
  ghost predicate PlansEndpoint(g: Grammar, s: bytes, i: nat, named: bool, c: nat, m: nat) {
    forall k :: i <= k <= |s| && k <= m ==> Ask(g, s[..k]) == AskEndpoint(s[..k], i, named, c)
  }

  lemma AddressAsks(s: bytes, i: nat, named: bool, c: nat)
    requires i + 1 < |s| && !UnknownType(s, i) && i + AddressSize(s, i, named) <= |s|
    ensures AskEndpoint(s[..i], i, named, c) == More(1)
    ensures AskEndpoint(s[..i + 1], i, named, c) == More(if s[i] == 1 then 4 else if s[i] == 4 then 16 else 1)
    ensures s[i] == 3 && named && 0 < s[i + 1] ==> AskEndpoint(s[..i + 2], i, named, c) == More(s[i + 1])
  {
    assert s[..i + 1][i] == s[i];
    assert s[..i + 2][i] == s[i] && s[..i + 2][i + 1] == s[i + 1];
  }

  lemma AddressPart(g: Grammar, s: bytes, i: nat, named: bool, c: nat, m: nat)
    requires i + 1 < |s| && !UnknownType(s, i) && i + AddressSize(s, i, named) <= m && m <= |s|
    requires PlansEndpoint(g, s, i, named, c, m)
    ensures var e := i + AddressSize(s, i, named);
      Reads(g, s, i) == [1] + AddressReads(s, i, named) + Reads(g, s, e)
  {
    hide Ask, Reads, AskEndpoint;
    AddressAsks(s, i, named, c);
    assert Ask(g, s[..i]) == More(1) && Ask(g, s[..i + 1]) == AskEndpoint(s[..i + 1], i, named, c);
    assert Ask(g, s[..i + 2]) == AskEndpoint(s[..i + 2], i, named, c);
    hide PlansEndpoint;
    ReadsOn(g, s, i, 1);
    if s[i] == 1 {
      ReadsOn(g, s, i + 1, 4);
    } else if s[i] == 4 {
      ReadsOn(g, s, i + 1, 16);
    } else {
      ReadsOn(g, s, i + 1, 1);
      if named && 0 < s[i + 1] {
        ReadsOn(g, s, i + 2, s[i + 1]);
      }
    }
  }

  /** The `j`th two-byte field after the address is one read. */
  lemma FieldPart(g: Grammar, s: bytes, i: nat, named: bool, c: nat, m: nat, j: nat)
    requires i + 1 < |s| && !UnknownType(s, i) && j < c
    requires var k := i + AddressSize(s, i, named) + 2 * j; k <= m && k + 2 <= |s|
    requires PlansEndpoint(g, s, i, named, c, m)
    ensures var k := i + AddressSize(s, i, named) + 2 * j; Reads(g, s, k) == [2] + Reads(g, s, k + 2)
  {
    hide AskEndpoint, Ask, Reads, AddressSize;
    var k := i + AddressSize(s, i, named) + 2 * j;
    EndpointAsks(s, i, named, c, k);
    assert Ask(g, s[..k]) == AskEndpoint(s[..k], i, named, c);
    ReadsOn(g, s, k, 2);
  }

  lemma EndpointAsks(s: bytes, i: nat, named: bool, c: nat, k: nat)
    requires i + 1 < |s| && !UnknownType(s, i) && k <= |s|
    requires var e := i + AddressSize(s, i, named); e <= k < e + 2 * c && (k - e) % 2 == 0
    ensures AskEndpoint(s[..k], i, named, c) == More(2)
  {
    var p := s[..k];
    assert p[i] == s[i] && p[i + 1] == s[i + 1];
  }

  // ---------------------------------------------------------------- the three parsers

  lemma TrojanPlans(s: bytes)
    requires 58 < |s| && !UnknownCommand(s, 58)
    ensures PlansEndpoint(TrojanHeader, s, 59, true, 2, |s|)
  {
    forall k | 59 <= k <= |s| ensures Ask(TrojanHeader, s[..k]) == AskEndpoint(s[..k], 59, true, 2) {
      assert s[..k][58] == s[58];
    }
  }

  lemma TrojanFront(s: bytes)
    requires 58 < |s| && !UnknownCommand(s, 58)
    ensures Reads(TrojanHeader, s, 0) == [56, 2, 1] + Reads(TrojanHeader, s, 59)
  {
    assert Ask(TrojanHeader, s[..0]) == More(56) && Ask(TrojanHeader, s[..56]) == More(2);
    assert Ask(TrojanHeader, s[..58]) == More(1);
    hide Ask, Reads;
    ReadsOn(TrojanHeader, s, 0, 56);
    ReadsOn(TrojanHeader, s, 56, 2);
    ReadsOn(TrojanHeader, s, 58, 1);
  }

  /** `trojan::parse` reads the digest, the delimiter, the command, the type, the address, the port and the delimiter,
      each by itself. */
  lemma TrojanReads(s: bytes)
    requires Ask(TrojanHeader, s).Full? && FullLength(TrojanHeader, s) == |s|
    ensures 60 < |s| && Reads(TrojanHeader, s, 0) == [56, 2, 1, 1] + AddressReads(s, 59, true) + [2, 2]
  {
    TrojanVerdict(s);
    hide Ask, Reads, FullLength, PlansEndpoint, AddressReads;
    TrojanPlans(s);
    TrojanFront(s);
    ReadsDone(TrojanHeader, s);
    AddressPart(TrojanHeader, s, 59, true, 2, |s|);
    FieldPart(TrojanHeader, s, 59, true, 2, |s|, 0);
    FieldPart(TrojanHeader, s, 59, true, 2, |s|, 1);
    Together([56, 2, 1], AddressReads(s, 59, true), [2] + ([2] + []));
  }

  lemma Together(front: seq<nat>, a: seq<nat>, r: seq<nat>)
    ensures front + ([1] + a + r) == front + [1] + a + r
    ensures [2] + ([2] + []) == [2, 2] && [2] + [] == [2]
  {
  }

  lemma Socks5Plans(s: bytes)
    requires 2 < |s| && s[0] == 5 && !UnknownCommand(s, 1)
    ensures PlansEndpoint(Socks5Request, s, 3, false, 1, |s|)
  {
    hide AskEndpoint;
    forall k | 3 <= k <= |s| ensures Ask(Socks5Request, s[..k]) == AskEndpoint(s[..k], 3, false, 1) {
      assert s[..k][0] == s[0] && s[..k][1] == s[1];
    }
  }

  lemma Socks5Asks(s: bytes)
    requires 2 < |s| && s[0] == 5 && !UnknownCommand(s, 1)
    ensures Ask(Socks5Request, s[..0]) == More(1) && Ask(Socks5Request, s[..1]) == More(1)
    ensures Ask(Socks5Request, s[..2]) == More(1)
  {
    assert s[..1][0] == s[0] && s[..2][0] == s[0] && s[..2][1] == s[1];
    hide AskEndpoint;
  }

  lemma Socks5Front(s: bytes)
    requires 2 < |s| && s[0] == 5 && !UnknownCommand(s, 1)
    ensures Reads(Socks5Request, s, 0) == [1, 1, 1] + Reads(Socks5Request, s, 3)
  {
    hide *;
    Socks5Asks(s);
    ReadsOn(Socks5Request, s, 0, 1);
    ReadsOn(Socks5Request, s, 1, 1);
    ReadsOn(Socks5Request, s, 2, 1);
    assert [1] + ([1] + ([1] + Reads(Socks5Request, s, 3))) == [1, 1, 1] + Reads(Socks5Request, s, 3);
  }

  /** `socks5::parse` reads the version, the command, the reserved byte, the type, the address and the port; of a name
      only the length. */
  lemma Socks5Reads(s: bytes)
    requires Ask(Socks5Request, s).Full? && FullLength(Socks5Request, s) == |s|
    ensures 4 < |s| && Reads(Socks5Request, s, 0) == [1, 1, 1, 1] + AddressReads(s, 3, false) + [2]
  {
    Socks5Verdict(s);
    hide Ask, Reads, FullLength, PlansEndpoint, AddressReads;
    Socks5Plans(s);
    Socks5Front(s);
    ReadsDone(Socks5Request, s);
    AddressPart(Socks5Request, s, 3, false, 1, |s|);
    FieldPart(Socks5Request, s, 3, false, 1, |s|, 0);
    Together([1, 1, 1], AddressReads(s, 3, false), [2]);
  }

  lemma FramePlans(u: set<bytes>, s: bytes)
    requires HeaderThere(s)
    ensures PlansEndpoint(UdpFrame(u), s, 0, true, 3, AddressSize(s, 0, true) + 5)
  {
    forall k | 0 <= k <= |s| && k <= AddressSize(s, 0, true) + 5
      ensures Ask(UdpFrame(u), s[..k]) == AskEndpoint(s[..k], 0, true, 3)
    {
      HeaderUnfinished(s, k);
      hide AskEndpoint;
    }
  }

  lemma HeaderUnfinished(s: bytes, k: nat)
    requires HeaderThere(s) && k < AddressSize(s, 0, true) + 6
    ensures AskEndpoint(s[..k], 0, true, 3).More?
  {
    var p := s[..k];
    assert 0 < k ==> p[0] == s[0];
    assert 1 < k ==> p[1] == s[1];
  }

  lemma PayloadAsk(u: set<bytes>, s: bytes)
    requires Ask(UdpFrame(u), s).Full? && FullLength(UdpFrame(u), s) == |s| && HeaderThere(s)
    ensures var e := AddressSize(s, 0, true) + 6;
      && |s| == e + SizeField(s)
      && (0 < SizeField(s) ==> Ask(UdpFrame(u), s[..e]) == More(SizeField(s)))
  {
    var e := AddressSize(s, 0, true) + 6;
    FrameEnds(u, s);
    SameHeader(s);
    FrameVerdict(u, s);
    FrameVerdict(u, s[..e]);
    hide Ask, FullLength;
    if 0 < SizeField(s) { PayloadMissing(u, s[..e]); }
  }

  lemma FrameEnds(u: set<bytes>, s: bytes)
    requires Ask(UdpFrame(u), s).Full? && HeaderThere(s)
    ensures FullLength(UdpFrame(u), s) == AddressSize(s, 0, true) + 6 + SizeField(s)
  {
    UdpHeaderFields(s);
    hide AskEndpoint, ParseUdpHeader;
  }

  /** The header alone says the same. */
  lemma SameHeader(s: bytes)
    requires HeaderThere(s)
    ensures var e := AddressSize(s, 0, true) + 6;
      var p := s[..e];
      && HeaderThere(p) && AddressSize(p, 0, true) + 6 == e == |p| && SizeField(p) == SizeField(s)
      && p[0] == s[0] && p[2..e - 6] == s[2..e - 6]
  {
  }

  lemma PayloadMissing(u: set<bytes>, p: bytes)
    requires HeaderThere(p) && |p| == AddressSize(p, 0, true) + 6 && 0 < SizeField(p) && !Ask(UdpFrame(u), p).Refuse?
    ensures Ask(UdpFrame(u), p) == More(SizeField(p))
  {
    UdpHeaderFields(p);
    hide AskEndpoint, ParseUdpHeader;
  }

  lemma FrameHeaderThere(u: set<bytes>, s: bytes)
    requires Ask(UdpFrame(u), s).Full?
    ensures HeaderThere(s)
  {
    FrameVerdict(u, s);
    hide Ask;
  }

  /** A turn of a deframing loop reads the type, the address, the port, the size, the delimiter and the payload, which
      is not read if it is empty. */
  lemma FrameReads(u: set<bytes>, s: bytes)
    requires Ask(UdpFrame(u), s).Full? && FullLength(UdpFrame(u), s) == |s|
    ensures HeaderThere(s) && Reads(UdpFrame(u), s, 0) == [1] + AddressReads(s, 0, true) + [2, 2, 2]
      + (if SizeField(s) == 0 then [] else [SizeField(s)])
  {
    hide *;
    FrameHeaderThere(u, s);
    HeaderBytesThere(s);
    PayloadAsk(u, s);
    ReadsDone(UdpFrame(u), s);
    FrameHeaderReads(u, s);
    var g, e, r := UdpFrame(u), AddressSize(s, 0, true) + 6, Reads(UdpFrame(u), s, AddressSize(s, 0, true) + 6);
    if SizeField(s) == 0 {
      assert r == [];
    } else {
      ReadsOn(g, s, e, SizeField(s));
      assert r == [SizeField(s)] + [];
    }
  }

  lemma HeaderBytesThere(s: bytes)
    requires HeaderThere(s)
    ensures 1 < |s| && !UnknownType(s, 0) && AddressSize(s, 0, true) + 6 <= |s| && 0 <= SizeField(s)
  {
  }

  lemma FrameHeaderReads(u: set<bytes>, s: bytes)
    requires HeaderThere(s)
    ensures Reads(UdpFrame(u), s, 0) == [1] + AddressReads(s, 0, true) + [2, 2, 2]
      + Reads(UdpFrame(u), s, AddressSize(s, 0, true) + 6)
  {
    hide *;
    HeaderBytesThere(s);
    FramePlans(u, s);
    var g, e, m := UdpFrame(u), AddressSize(s, 0, true), AddressSize(s, 0, true) + 5;
    AddressPart(g, s, 0, true, 3, m);
    FieldPart(g, s, 0, true, 3, m, 0);
    FieldPart(g, s, 0, true, 3, m, 1);
    FieldPart(g, s, 0, true, 3, m, 2);
    ThreeFields([1] + AddressReads(s, 0, true), Reads(g, s, e + 6));
  }

  lemma ThreeFields(a: seq<nat>, r: seq<nat>)
    ensures a + ([2] + ([2] + ([2] + r))) == a + [2, 2, 2] + r
    ensures r + [] == r
  {
  }
}
