/** Bytes, flattening of hunks, and the big-endian integers of the wire format. */
module Bytes {

  type byte = x: int | 0 <= x < 256
  type bytes = seq<byte>
  type u16 = x: int | 0 <= x < 0x1_0000
  type u32 = x: int | 0 <= x < 0x1_0000_0000
  type u128 = x: int | 0 <= x < 0x1_0000_0000_0000_0000_0000_0000_0000_0000

  /** The byte sequence carried by a sequence of hunks. */
  function Flatten(hunks: seq<bytes>): bytes {
    if hunks == [] then [] else hunks[0] + Flatten(hunks[1..])
  }

  lemma {:induction false} FlattenConcat(a: seq<bytes>, b: seq<bytes>)
    ensures Flatten(a + b) == Flatten(a) + Flatten(b)
  {
    if a == [] {
      assert a + b == b;
    } else {
      assert (a + b)[1..] == a[1..] + b;
      FlattenConcat(a[1..], b);
    }
  }

  lemma FlattenSnoc(a: seq<bytes>, h: bytes)
    ensures Flatten(a + [h]) == Flatten(a) + h
  {
    FlattenConcat(a, [h]);
    assert Flatten([h]) == h + Flatten([]) == h;
  }

  lemma CancelLeft(p: bytes, a: bytes, b: bytes)
    requires p + a == p + b
    ensures a == b
  {
    assert (p + a)[|p|..] == a && (p + b)[|p|..] == b;
  }

  lemma NoTail(a: bytes, b: bytes)
    requires b == []
    ensures a + b == a
  {
  }

  lemma SliceExtends(a: bytes, b: bytes, i: nat, j: nat)
    requires i <= j <= |a|
    ensures (a + b)[i..j] == a[i..j]
  {
  }

  lemma DropInto(p: bytes, k: nat, x: bytes)
    requires k <= |p|
    ensures (p + x)[k..] == p[k..] + x
  {
  }

  lemma DropPast(p: bytes, k: nat, x: bytes)
    requires |p| <= k <= |p + x|
    ensures (p + x)[k..] == x[k - |p|..]
  {
  }

  lemma DropTwice(s: bytes, i: nat, j: nat)
    requires i + j <= |s|
    ensures s[i..][j..] == s[i + j..]
  {
  }

  /** Hunks that are all empty carry no bytes. */
  lemma {:induction false} FlattenEmpties(a: seq<bytes>)
    requires forall i :: 0 <= i < |a| ==> a[i] == []
    ensures Flatten(a) == []
  {
    if a != [] {
      FlattenEmpties(a[1..]);
    }
  }

  /** Cutting `h` at `k`, and what follows again at `n`. */
  lemma Cut(h: bytes, k: nat, n: nat)
    requires k + n <= |h|
    ensures h[k..][..n] == h[k..k + n] && h[k..][n..] == h[k + n..]
    ensures h[..k] + h[k..k + n] == h[..k + n]
    ensures h[..k] + h[k..] == h
  {
  }

  function Pow256(n: nat): (p: nat)
    ensures 0 < p
  {
    if n == 0 then 1 else 256 * Pow256(n - 1)
  }

  /** The low `n` bytes of `v`, most significant first. */
  function ToBigEndian(n: nat, v: nat): (s: bytes)
    ensures |s| == n
  {
    if n == 0 then [] else ToBigEndian(n - 1, v / 256) + [v % 256]
  }

  /** Byte `i` of `n` is the digit of `v` to base 256 with `n - 1 - i` digits after it. */
  lemma {:induction false} BigEndianDigit(n: nat, v: nat, i: nat)
    requires i < n
    ensures ToBigEndian(n, v)[i] == v / Pow256(n - 1 - i) % 256
  {
    if i < n - 1 {
      BigEndianDigit(n - 1, v / 256, i);
      var m := Pow256(n - 2 - i);
      assert Pow256(n - 1 - i) == 256 * m;
      DivideTwice(v, m);
    }
  }

  lemma DivideTwice(v: nat, m: nat)
    requires 0 < m
    ensures v / 256 / m == v / (256 * m)
  {
    var a, r := v / 256, v % 256;
    var q, t := a / m, a % m;
    assert v == 256 * a + r && a == m * q + t;
    assert v == (256 * m) * q + (256 * t + r);
    assert 256 * t + r < 256 * m;
    QuotientIs(v, 256 * m, q, 256 * t + r);
  }

  lemma QuotientIs(v: nat, d: nat, q: nat, r: nat)
    requires 0 < d && v == d * q + r && r < d
    ensures v / d == q
  {
    var p := v / d;
    assert v == d * p + v % d;
    assert p < q ==> d * (p + 1) <= d * q;
    assert q < p ==> d * (q + 1) <= d * p;
  }

  lemma TwoBytes(v: nat)
    requires v < 0x1_0000
    ensures ToBigEndian(2, v) == [v / 256, v % 256]
  {
    var k := v / 256;
    assert k % 256 == k;
    assert ToBigEndian(1, k) == ToBigEndian(0, k / 256) + [k % 256];
    assert ToBigEndian(2, v) == ToBigEndian(1, k) + [v % 256];
  }

  function FromBigEndian(s: bytes): (v: nat)
    ensures v < Pow256(|s|)
  {
    if s == [] then 0 else FromBigEndian(s[..|s| - 1]) * 256 + s[|s| - 1]
  }

  lemma {:induction false} DecodeEncodeBigEndian(n: nat, v: nat)
    requires v < Pow256(n)
    ensures FromBigEndian(ToBigEndian(n, v)) == v
  {
    if n != 0 {
      DecodeEncodeBigEndian(n - 1, v / 256);
      assert ToBigEndian(n, v)[..n - 1] == ToBigEndian(n - 1, v / 256);
    }
  }

  lemma {:induction false} EncodeDecodeBigEndian(s: bytes)
    ensures ToBigEndian(|s|, FromBigEndian(s)) == s
  {
    if s != [] {
      EncodeDecodeBigEndian(s[..|s| - 1]);
    }
  }

  /** The widths the protocol reads with `read_u16`, `read_u32` and `read_u128`. */
  lemma Widths()
    ensures Pow256(2) == 0x1_0000
    ensures Pow256(4) == 0x1_0000_0000
    ensures Pow256(16) == 0x1_0000_0000_0000_0000_0000_0000_0000_0000
  {
  }
}
