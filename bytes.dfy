/** Bytes and the little-endian fixed-width integers stored in an Archivist file. */
module Bytes {

  newtype byte = b: int | 0 <= b < 256

  type Bytes = seq<byte>

  const TWO_16: nat := 0x1_0000
  const TWO_31: nat := 0x8000_0000
  const TWO_32: nat := 0x1_0000_0000

  function Pow256(n: nat): (r: nat)
    ensures r > 0
  {
    if n == 0 then 1 else 256 * Pow256(n - 1)
  }

  /** The unsigned value of `b` read as a little-endian integer. */
  function Decode(b: Bytes): (r: nat)
    ensures r < Pow256(|b|)
  {
    if b == [] then 0 else b[0] as nat + 256 * Decode(b[1..])
  }

  /** The `n` low-order bytes of `v`, least significant first: what writing an
      n-byte unsigned integer holding `v` (truncated to n bytes) puts in a file. */
  function Encode(v: nat, n: nat): (r: Bytes)
    ensures |r| == n
  {
    if n == 0 then [] else [(v % 256) as byte] + Encode(v / 256, n - 1)
  }

  lemma ModOfSplit(v: nat, p: nat)
    requires p > 0
    ensures (v / 256) % p * 256 + v % 256 == v % (256 * p)
  {
    var q, r := v / 256, v % 256;
    var a, b := q / p, q % p;
    assert v == 256 * q + r;
    assert q == p * a + b;
    assert v == (256 * p) * a + (256 * b + r);
    assert 0 <= 256 * b + r < 256 * p;
    ModUnique(v, 256 * p, a, 256 * b + r);
  }

  lemma ModUnique(v: int, m: int, a: int, c: int)
    requires m > 0 && 0 <= c < m && v == m * a + c
    ensures v % m == c
  {
    var a', c' := v / m, v % m;
    assert m * a' + c' == m * a + c;
    assert m * (a' - a) == c - c';
    MulAwayFromZero(m, a' - a);
  }

  lemma MulAwayFromZero(m: int, k: int)
    requires m > 0
    ensures k >= 1 ==> m * k >= m
    ensures k <= -1 ==> m * k <= -m
  {
  }

  /** Reading back an n-byte integer gives the written value modulo 256^n. */
  lemma {:induction false} DecodeEncode(v: nat, n: nat)
    ensures Decode(Encode(v, n)) == v % Pow256(n)
  {
    if n > 0 {
      var e := Encode(v, n);
      assert e[1..] == Encode(v / 256, n - 1);
      DecodeEncode(v / 256, n - 1);
      ModOfSplit(v, Pow256(n - 1));
    }
  }

  /** Re-encoding the value read from `b` writes `b` back. */
  lemma {:induction false} EncodeDecode(b: Bytes)
    ensures Encode(Decode(b), |b|) == b
  {
    if b != [] {
      var d := Decode(b[1..]);
      assert Decode(b) == b[0] as nat + 256 * d;
      assert Decode(b) % 256 == b[0] as nat;
      assert Decode(b) / 256 == d;
      EncodeDecode(b[1..]);
    }
  }

  lemma Decode2(b: Bytes)
    requires |b| == 2
    ensures Decode(b) == b[0] as nat + 0x100 * b[1] as nat
  {
    assert b[1..][1..] == [];
  }

  lemma Decode4(b: Bytes)
    requires |b| == 4
    ensures Decode(b) == b[0] as nat + 0x100 * b[1] as nat + 0x1_0000 * b[2] as nat + 0x100_0000 * b[3] as nat
  {
    assert b[1..][1..][1..][1..] == [];
    assert Decode(b[1..][1..][1..]) == b[3] as nat;
    assert Decode(b[1..][1..]) == b[2] as nat + 0x100 * b[3] as nat;
  }

  /** Two's-complement reading of a 32-bit pattern as a C++ `int`. */
  function ToInt32(u: nat): (r: int)
    requires u < TWO_32
    ensures -(TWO_31 as int) <= r < TWO_31
    ensures r % TWO_32 == u
  {
    if u < TWO_31 then u else u - TWO_32
  }

  /** The four bytes of a C++ `int` holding `n` (wrapped to 32 bits). */
  function Int32Bytes(n: int): (r: Bytes)
    ensures |r| == 4
  {
    Encode(n % TWO_32, 4)
  }

  /** Reading the header as an `int` and writing it back restores the same bytes. */
  lemma Int32BytesOfRead(b: Bytes)
    requires |b| == 4
    ensures Decode(b) < TWO_32
    ensures Int32Bytes(ToInt32(Decode(b))) == b
  {
    assert Pow256(4) == TWO_32;
    EncodeDecode(b);
  }

  /** The C++ `int` held by four bytes read from a file. */
  function Int32Of(b: Bytes): (r: int)
    requires |b| == 4
    ensures -(TWO_31 as int) <= r < TWO_31
    ensures Int32Bytes(r) == b
  {
    Int32BytesOfRead(b);
    ToInt32(Decode(b))
  }

  /** Writing an in-range `int` and reading it back gives the same `int`. */
  lemma Int32RoundTrip(n: int)
    requires -(TWO_31 as int) <= n < TWO_31
    ensures Int32Of(Int32Bytes(n)) == n
  {
    var u := n % TWO_32;
    assert u == if n < 0 then n + TWO_32 else n;
    assert Pow256(4) == TWO_32;
    DecodeEncode(u, 4);
    assert Decode(Int32Bytes(n)) == u;
  }
}
