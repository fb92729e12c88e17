/** Secrets and acceptance. SHA-224 is abstract: a configured secret is any 28-byte digest. */
module Access {
  import opened Bytes
  import opened Protocol
  import opened Parsers
  import opened Reading
  import opened Handshake

  const DIGEST_SIZE := 28

  /** One lower-case hexadecimal digit. */
  function HexDigit(n: int): (c: byte)
    requires 0 <= n < 16
    ensures CR < c
  {
    if n < 10 then 48 + n else 87 + n
  }

  /** `{:02x}` of every byte, concatenated. */
  function Hex(s: bytes): (h: bytes)
    ensures |h| == 2 * |s|
  {
    if s == [] then [] else [HexDigit(s[0] / 16), HexDigit(s[0] % 16)] + Hex(s[1..])
  }

  lemma {:induction false} HexInjective(a: bytes, b: bytes)
    requires Hex(a) == Hex(b)
    ensures a == b
  {
    if a != [] {
      assert b != [];
      var x, y := Hex(a), Hex(b);
      assert x[0] == y[0] && x[1] == y[1];
      assert a[0] == b[0];
      assert x[2..] == Hex(a[1..]) && y[2..] == Hex(b[1..]);
      HexInjective(a[1..], b[1..]);
    }
  }

  /** The value of a lower-case hexadecimal digit. */
  function DigitValue(c: byte): Option<int> {
    if 48 <= c <= 57 then Some(c - 48) else if 97 <= c <= 102 then Some(c - 87) else None
  }

  /** Two lower-case digits for every byte, the high one first. */
  lemma {:induction false} HexDigits(s: bytes, i: nat)
    requires i < |s|
    ensures DigitValue(Hex(s)[2 * i]) == Some(s[i] / 16) && DigitValue(Hex(s)[2 * i + 1]) == Some(s[i] % 16)
  {
    if i > 0 {
      HexDigits(s[1..], i - 1);
      assert Hex(s)[2 * i] == Hex(s[1..])[2 * (i - 1)] && Hex(s)[2 * i + 1] == Hex(s[1..])[2 * (i - 1) + 1];
    }
  }

  lemma KnownHex()
    ensures Hex([0xAB, 0x09, 0xF0]) == [97, 98, 48, 57, 102, 48]
  {
    assert Hex([0xF0]) == [102, 48] + Hex([]);
    assert [0xAB, 0x09, 0xF0][1..] == [0x09, 0xF0] && [0x09, 0xF0][1..] == [0xF0];
  }

  predicate ValidDigest(d: Option<bytes>) {
    d.Some? ==> |d.value| == DIGEST_SIZE
  }

  /** The secret a side derives from its configuration; without one it is empty. */
  function Secret(digest: Option<bytes>): bytes {
    match digest
    case None => []
    case Some(d) => Hex(d)
  }

  /** A secret is what the header has room for, 56 bytes, or empty where none is configured. */
  lemma SecretSizes(digest: Option<bytes>)
    requires ValidDigest(digest)
    ensures |Secret(digest)| == if digest.Some? then 56 else 0
    ensures digest.Some? ==> |digest.value| == 28 && Secret(digest) == Hex(digest.value)
  {
  }

  /** `Request::validate`. */
  predicate Validate(t: TrojanRequest, secret: bytes) {
    |secret| == |t.hex| && secret == t.hex
  }

  /** Whatever the request and whatever follows it: a header that parses is validated exactly when both
      sides have a secret and the digests are equal. A client without a secret still sends a header, whose
      delimiter is then read as the first hex byte. */
  lemma Acceptance(client: Option<bytes>, server: Option<bytes>, r: InboundRequest, rest: bytes, t: bytes)
    requires ValidDigest(client) && ValidDigest(server)
    requires t <= HandshakeBytes(Secret(client), r) + rest
    requires Ask(TrojanHeader, t).Full?
    ensures Validate(ParseTrojan(t), Secret(server)) <==> client.Some? && client == server
  {
    var h := HandshakeBytes(Secret(client), r) + rest;
    assert t == h[..|t|];
    assert t[..HEX_SIZE] == h[..HEX_SIZE];
    hide Ask, ToBigEndian, RawAddress;
    match client
    case None => assert t[0] == CR;
    case Some(c) =>
      assert h[..HEX_SIZE] == Hex(c);
      if server.Some? && Hex(server.value) == Hex(c) {
        HexInjective(server.value, c);
      }
  }

  /** For an aligned request a header always parses, so the server accepts it exactly when the digests of
      the two secrets agree. */
  lemma ServerAcceptsIffDigestsEqual(client: Option<bytes>, server: Option<bytes>, r: InboundRequest, rest: bytes)
    requires ValidDigest(client) && ValidDigest(server) && Consistent(r) && Aligned(r.addr)
    ensures var o := Scan(TrojanHeader, HandshakeBytes(Secret(client), r) + rest, 0);
      (o.Complete? && Ask(TrojanHeader, o.taken).Full? && Validate(ParseTrojan(o.taken), Secret(server)))
      <==> client.Some? && client == server
  {
    var h := HandshakeBytes(Secret(client), r);
    var o := Scan(TrojanHeader, h + rest, 0);
    if client.Some? {
      HandshakeDecodes(Secret(client), r);
      HandshakeInStep(Secret(client), r, rest);
    }
    hide Scan, Ask, HandshakeBytes, ParseTrojan, Validate;
    if o.Complete? {
      ScanStops(TrojanHeader, h + rest, 0, o.taken);
      Acceptance(client, server, r, rest, o.taken);
    }
  }
}
