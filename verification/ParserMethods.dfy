/** `parse_udp`, `trojan::parse` and `socks5::parse` as they read a stream field by field. */
module ParserMethods {
  import opened Bytes
  import opened Protocol
  import opened Parsers
  import opened Transport
  import opened Reading
  import opened AsyncRead

  /** A parser's return: a value, an error, or no return because the stream fell silent. */
  datatype Parsed<+T> = Value(value: T) | Failed(e: Fault) | Blocked

  /** Did a parser stop without a value just as its plan did? */
  ghost predicate StoppedAs<T>(p: Parsed<T>, plan: Result, src: Source) {
    && plan.src == src
    && match p
       case Value(_) => false
       case Failed(e) => plan.outcome == Broken(e)
       case Blocked => plan.outcome.Waiting?
  }

  function Stop<T>(o: Outcome): Parsed<T> {
    if o.Broken? then Failed(o.e) else Blocked
  }

  /** One `read_exact` of a parser that follows plan `g` and has acquired `acc`. */
  method ReadField(r: ByteReader, n: nat, ghost g: Grammar, ghost acc: bytes) returns (o: Outcome)
    requires n == 0 || (Ask(g, acc).More? && Ask(g, acc).n == n)
    modifies r
    ensures if o.Complete? then
        |o.taken| == n && ReadAll(g, acc, old(r.Src())) == ReadAll(g, acc + o.taken, r.Src())
      else
        StoppedAs<()>(Stop(o), ReadAll(g, acc, old(r.Src())), r.Src())
  {
    hide Ask, ReadAll;
    var dst := new byte[n];
    o := r.ReadExact(dst, n);
    AskExactly(n, []);
    if n == 0 {
      ReadAllFull(Exactly(n), [], old(r.Src()));
      assert acc + [] == acc;
    } else {
      ReadExactThen(g, acc, [], old(r.Src()), acc);
    }
  }

  /** The address type and the address, whose place in the plan is offset `i`. */
  method ReadAddress(r: ByteReader, named: bool, ghost g: Grammar, ghost acc: bytes, ghost k: nat)
    returns (p: Parsed<Address>, ghost x: bytes)
    requires forall y: bytes :: Ask(g, acc + y) == AskEndpoint(acc + y, |acc|, named, k)
    modifies r
    ensures if p.Value? then
        && ReadAll(g, acc, old(r.Src())) == ReadAll(g, acc + x, r.Src())
        && AskAddress(acc + x, |acc|, named).Full? && AddressEnd(acc + x, |acc|, named) == |acc + x|
        && AddressAt(acc + x, |acc|, named) == p.value
      else
        StoppedAs(p, ReadAll(g, acc, old(r.Src())), r.Src())
  {
    hide Ask, ReadAll;
    x := [];
    assert acc + [] == acc;
    var o := ReadField(r, 1, g, acc);
    if !o.Complete? { return Stop(o), x; }
    var t := o.taken[0];
    x := [t];
    assert o.taken == x;
    assert (acc + x)[|acc|] == t;
    match AtypeFrom(t)
    case None =>
      ReadAllRefuse(g, acc + x, r.Src());
      return Failed(Unsupported), x;
    case Some(IPv4) =>
      p, x := ReadIp(r, named, g, acc, k, t, 4);
    case Some(IPv6) =>
      p, x := ReadIp(r, named, g, acc, k, t, 16);
    case Some(DomainName) =>
      p, x := ReadName(r, named, g, acc, k, t);
  }

  /** `read_u32` or `read_u128` after the type byte. */
  method ReadIp(r: ByteReader, ghost named: bool, ghost g: Grammar, ghost acc: bytes, ghost k: nat, ghost t: byte,
                width: nat)
    returns (p: Parsed<Address>, ghost x: bytes)
    requires forall y: bytes :: Ask(g, acc + y) == AskEndpoint(acc + y, |acc|, named, k)
    requires AtypeFrom(t) == Some(if width == 4 then IPv4 else IPv6) && (width == 4 || width == 16)
    modifies r
    ensures if p.Value? then
        && ReadAll(g, acc + [t], old(r.Src())) == ReadAll(g, acc + x, r.Src())
        && AskAddress(acc + x, |acc|, named).Full? && AddressEnd(acc + x, |acc|, named) == |acc + x|
        && AddressAt(acc + x, |acc|, named) == p.value
      else
        StoppedAs(p, ReadAll(g, acc + [t], old(r.Src())), r.Src())
  {
    hide Ask, ReadAll;
    x := [];
    assert (acc + [t])[|acc|] == t;
    var o := ReadField(r, width, g, acc + [t]);
    if !o.Complete? { return Stop(o), x; }
    Widths();
    x := [t] + o.taken;
    assert acc + x == acc + [t] + o.taken;
    assert (acc + x)[|acc|] == t;
    assert (acc + x)[|acc| + 1..|acc| + 1 + width] == o.taken;
    p := Value(if width == 4 then V4(FromBigEndian(o.taken)) else V6(FromBigEndian(o.taken)));
  }

  /** The name after its type byte. Where `named` is false the buffer given to `read_exact` is empty. */
  method ReadName(r: ByteReader, named: bool, ghost g: Grammar, ghost acc: bytes, ghost k: nat, ghost t: byte)
    returns (p: Parsed<Address>, ghost x: bytes)
    requires forall y: bytes :: Ask(g, acc + y) == AskEndpoint(acc + y, |acc|, named, k)
    requires AtypeFrom(t) == Some(DomainName)
    modifies r
    ensures if p.Value? then
        && ReadAll(g, acc + [t], old(r.Src())) == ReadAll(g, acc + x, r.Src())
        && AskAddress(acc + x, |acc|, named).Full? && AddressEnd(acc + x, |acc|, named) == |acc + x|
        && AddressAt(acc + x, |acc|, named) == p.value
      else
        StoppedAs(p, ReadAll(g, acc + [t], old(r.Src())), r.Src())
  {
    hide Ask, ReadAll;
    x := [];
    var o := ReadField(r, 1, g, acc + [t]);
    if !o.Complete? { return Stop(o), x; }
    var size := o.taken[0];
    assert o.taken == [size];
    assert acc + [t] + [size] == acc + [t, size];
    assert (acc + [t, size])[|acc|] == t && (acc + [t, size])[|acc| + 1] == size;
    o := ReadField(r, if named then size else 0, g, acc + [t, size]);
    if !o.Complete? { return Stop(o), x; }
    x := [t, size] + o.taken;
    NameField(acc, t, size, o.taken, named);
    p := Value(Domain(o.taken));
  }

  lemma NameField(acc: bytes, t: byte, size: byte, name: bytes, named: bool)
    requires AtypeFrom(t) == Some(DomainName) && |name| == if named then size else 0
    ensures var s := acc + ([t, size] + name);
      && s == acc + [t, size] + name
      && AskAddress(s, |acc|, named).Full? && AddressEnd(s, |acc|, named) == |s|
      && AddressAt(s, |acc|, named) == Domain(name)
  {
    var s := acc + ([t, size] + name);
    assert s[|acc|] == t && s[|acc| + 1] == size && |s| == |acc| + 2 + |name|;
    assert s[|acc| + 2..|acc| + 2 + |name|] == name;
  }

  /** One `read_u16` after the address, `j` two-byte fields having been read. */
  method ReadU16(r: ByteReader, ghost g: Grammar, ghost acc: bytes, ghost i: nat, ghost named: bool, ghost k: nat,
                 ghost j: nat)
    returns (p: Parsed<u16>, ghost x: bytes)
    requires i <= |acc| && j < k && AskAddress(acc, i, named).Full? && |acc| == AddressEnd(acc, i, named) + 2 * j
    requires Ask(g, acc) == AskEndpoint(acc, i, named, k)
    modifies r
    ensures if p.Value? then
        |x| == 2 && p.value == FromBigEndian(x) && ReadAll(g, acc, old(r.Src())) == ReadAll(g, acc + x, r.Src())
      else
        StoppedAs(p, ReadAll(g, acc, old(r.Src())), r.Src())
  {
    hide Ask, ReadAll;
    var o := ReadField(r, 2, g, acc);
    x := [];
    if !o.Complete? { return Stop(o), x; }
    x := o.taken;
    Widths();
    p := Value(FromBigEndian(o.taken));
  }

  datatype UdpTarget = UdpTarget(addr: Address, port: u16, size: u16)

  /** `parse_udp` up to address resolution: on every stream it does what its plan does, and the header it
      returns is the one the consumed bytes encode. */
  method ParseUdp(r: ByteReader) returns (p: Parsed<UdpTarget>)
    modifies r
    ensures var plan := ReadAll(UdpHeader, [], old(r.Src()));
      if plan.outcome.Complete? then
        var h := ParseUdpHeader(plan.outcome.taken);
        p == Value(UdpTarget(h.addr, h.port, h.size)) && r.Src() == plan.src
      else
        StoppedAs(p, plan, r.Src())
  {
    hide ReadAll, AskAddress, AddressEnd, AddressAt, FromBigEndian;
    ghost var g := UdpHeader;
    var a, acc := ReadAddress(r, true, g, [], 3);
    assert [] + acc == acc;
    if !a.Value? { return Propagate(a); }
    var port, x := ReadU16(r, g, acc, 0, true, 3, 0);
    if !port.Value? { return Propagate(port); }
    AddressExtends(acc, x, 0, true);
    var size, y := ReadU16(r, g, acc + x, 0, true, 3, 1);
    if !size.Value? { return Propagate(size); }
    AddressExtends(acc, x + y, 0, true);
    assert acc + x + y == acc + (x + y);
    var delimiter, z := ReadU16(r, g, acc + x + y, 0, true, 3, 2);
    if !delimiter.Value? { return Propagate(delimiter); }
    AddressExtends(acc, x + y + z, 0, true);
    ghost var s := acc + x + y + z;
    assert s == acc + (x + y + z);
    assert s[|acc|..|acc| + 2] == x && s[|acc| + 2..|acc| + 4] == y;
    ReadAllFull(g, s, r.Src());
    p := Value(UdpTarget(a.value, port.value, size.value));
  }

  /** The same stop for another result type. */
  function Propagate<T, U>(p: Parsed<T>): Parsed<U>
    requires !p.Value?
  {
    if p.Failed? then Failed(p.e) else Blocked
  }

  /** `trojan::parse`. */
  method ParseTrojanRequest(r: ByteReader) returns (p: Parsed<TrojanRequest>)
    modifies r
    ensures var plan := ReadAll(TrojanHeader, [], old(r.Src()));
      if plan.outcome.Complete? then
        p == Value(ParseTrojan(plan.outcome.taken)) && r.Src() == plan.src
      else
        StoppedAs(p, plan, r.Src())
  {
    hide ReadAll;
    ghost var g := TrojanHeader;
    var o := ReadField(r, HEX_SIZE, g, []);
    if !o.Complete? { return Stop(o); }
    var hex := o.taken;
    assert [] + hex == hex;
    o := ReadField(r, 2, g, hex);
    if !o.Complete? { return Stop(o); }
    ghost var acc := hex + o.taken;
    o := ReadField(r, 1, g, acc);
    if !o.Complete? { return Stop(o); }
    var command := CommandFrom(o.taken[0]);
    acc := acc + o.taken;
    assert acc[HEX_SIZE + 2] == o.taken[0] && acc[..HEX_SIZE] == hex;
    if command.None? {
      ReadAllRefuse(g, acc, r.Src());
      return Failed(Unsupported);
    }
    p := ReadTrojanEndpoint(r, acc, hex, command.value);
  }

  method ReadTrojanEndpoint(r: ByteReader, ghost acc: bytes, hex: bytes, command: Command)
    returns (p: Parsed<TrojanRequest>)
    requires |acc| == HEX_SIZE + 3 && acc[..HEX_SIZE] == hex && CommandFrom(acc[HEX_SIZE + 2]) == Some(command)
    modifies r
    ensures var plan := ReadAll(TrojanHeader, acc, old(r.Src()));
      if plan.outcome.Complete? then
        p == Value(ParseTrojan(plan.outcome.taken)) && r.Src() == plan.src
      else
        StoppedAs(p, plan, r.Src())
  {
    hide ReadAll, AskAddress, AddressEnd, AddressAt, FromBigEndian;
    ghost var g, i := TrojanHeader, HEX_SIZE + 3;
    assert forall y: bytes :: (acc + y)[HEX_SIZE + 2] == acc[HEX_SIZE + 2];
    var a, x0 := ReadAddress(r, true, g, acc, 2);
    if !a.Value? { return Propagate(a); }
    ghost var s := acc + x0;
    var port, x := ReadU16(r, g, s, i, true, 2, 0);
    if !port.Value? { return Propagate(port); }
    AddressExtends(s, x, i, true);
    assert s + x == acc + (x0 + x);
    var delimiter, y := ReadU16(r, g, s + x, i, true, 2, 1);
    if !delimiter.Value? { return Propagate(delimiter); }
    AddressExtends(s, x + y, i, true);
    ghost var w := s + x + y;
    assert w == s + (x + y) == acc + (x0 + x + y);
    assert w[..HEX_SIZE] == hex && w[|s|..|s| + 2] == x;
    ReadAllFull(g, w, r.Src());
    p := Value(TrojanRequest(hex, command, AtypeOf(a.value), a.value, port.value));
  }

  /** `socks5::parse`. */
  method ParseSocks5Request(r: ByteReader) returns (p: Parsed<InboundRequest>)
    modifies r
    ensures var plan := ReadAll(Socks5Request, [], old(r.Src()));
      if plan.outcome.Complete? then
        p == Value(ParseSocks5(plan.outcome.taken)) && r.Src() == plan.src
      else
        StoppedAs(p, plan, r.Src())
  {
    hide ReadAll, AskAddress, AddressEnd, AddressAt, FromBigEndian;
    ghost var g := Socks5Request;
    var o := ReadField(r, 1, g, []);
    if !o.Complete? { return Stop(o); }
    ghost var acc := o.taken;
    assert [] + acc == acc;
    if o.taken[0] != VERSION {
      ReadAllRefuse(g, acc, r.Src());
      return Failed(Unsupported);
    }
    o := ReadField(r, 1, g, acc);
    if !o.Complete? { return Stop(o); }
    var command := CommandFrom(o.taken[0]);
    acc := acc + o.taken;
    if command.None? {
      ReadAllRefuse(g, acc, r.Src());
      return Failed(Unsupported);
    }
    o := ReadField(r, 1, g, acc);
    if !o.Complete? { return Stop(o); }
    acc := acc + o.taken;
    p := ReadSocks5Endpoint(r, acc, command.value);
  }

  method ReadSocks5Endpoint(r: ByteReader, ghost acc: bytes, command: Command) returns (p: Parsed<InboundRequest>)
    requires |acc| == 3 && acc[0] == VERSION && CommandFrom(acc[1]) == Some(command)
    modifies r
    ensures var plan := ReadAll(Socks5Request, acc, old(r.Src()));
      if plan.outcome.Complete? then
        p == Value(ParseSocks5(plan.outcome.taken)) && r.Src() == plan.src
      else
        StoppedAs(p, plan, r.Src())
  {
    hide ReadAll, AskAddress, AddressEnd, AddressAt, FromBigEndian;
    ghost var g := Socks5Request;
    assert forall y: bytes :: (acc + y)[0] == acc[0] && (acc + y)[1] == acc[1];
    var a, x0 := ReadAddress(r, false, g, acc, 1);
    if !a.Value? { return Propagate(a); }
    ghost var s := acc + x0;
    var port, x := ReadU16(r, g, s, 3, false, 1, 0);
    if !port.Value? { return Propagate(port); }
    AddressExtends(s, x, 3, false);
    ghost var w := s + x;
    assert w == acc + (x0 + x);
    assert w[|s|..|s| + 2] == x;
    ReadAllFull(g, w, r.Src());
    p := Value(InboundRequest(AtypeOf(a.value), a.value, port.value, command, TransportFor(command), SOCKS));
  }
}
