/** An optional value, used across the model. */
module Wrappers {
  datatype Option<+T> = None | Some(value: T)
}

/**
 * The wire codec of the master server: fixed-width little-endian integers,
 * the in-place flip of 4-byte groups applied to address bytes, and the
 * classification of the magic number that starts every packet.
 */
module Utils {

  /** A byte, seen as its unsigned bit pattern (Java's signed byte holds the same 8 bits). */
  type Byte = b: int | 0 <= b < 0x100

  /** A Java `int`. */
  type Int32 = x: int | -0x8000_0000 <= x < 0x8000_0000

  /** A Java `short`. */
  type Int16 = x: int | -0x8000 <= x < 0x8000

  /** The raw bytes of a network address: 4 for IPv4, 16 for IPv6. */
  type Address = a: seq<Byte> | |a| == 4 || |a| == 16 witness [0, 0, 0, 0]

  const BUFFER_SIZE: nat := 512
  const PACKET_MIN_LEN: nat := 8
  const PACKET_CLIENT_LEN: nat := 8
  const PACKET_SERVER_LEN: nat := 10

  // The two roles swapped their magic numbers in a later protocol revision;
  // the classification below uses the OLD pair.
  const OLD_SERVER_MAGIC: Int32 := 1212501072
  const NEW_SERVER_MAGIC: Int32 := 1414022477
  const OLD_CLIENT_MAGIC: Int32 := 1414022477
  const NEW_CLIENT_MAGIC: Int32 := 1212501072

  predicate IsServerMagic(magic: Int32) {
    magic == OLD_SERVER_MAGIC
  }

  predicate IsClientMagic(magic: Int32) {
    magic == OLD_CLIENT_MAGIC
  }

  /** No magic number is both a registration and a query. */
  lemma MagicsExclusive(magic: Int32)
    ensures !(IsServerMagic(magic) && IsClientMagic(magic))
    ensures IsServerMagic(magic) <==> magic == 1212501072
    ensures IsClientMagic(magic) <==> magic == 1414022477
  {
  }

  // ---------------------------------------------------------------------
  // Little-endian reference reading of a byte string

  /** The unsigned value of `b` read least-significant byte first. */
  function LittleEndian(b: seq<Byte>): nat {
    if b == [] then 0 else b[0] + 0x100 * LittleEndian(b[1..])
  }

  // ---------------------------------------------------------------------
  // 32-bit integers

  /** `longSwap(int)`: the 4 little-endian bytes of `x`, which read back as `x` modulo 2^32. */
  function EncodeInt32(x: Int32): (r: seq<Byte>)
    ensures |r| == 4
    ensures LittleEndian(r) == x % 0x1_0000_0000
  {
    // the two's complement bit pattern, cut into bytes
    var u := x % 0x1_0000_0000;
    var r := [u % 0x100, (u / 0x100) % 0x100, (u / 0x1_0000) % 0x100, u / 0x100_0000];
    LittleEndian4(r);
    DigitsOf32(u);
    r
  }

  /** Byte k of `EncodeInt32(x)` is `(x >> 8k) & 0xFF`. */
  lemma EncodeInt32Bytes(x: Int32)
    ensures EncodeInt32(x)[0] == x % 0x100
    ensures EncodeInt32(x)[1] == (x / 0x100) % 0x100
    ensures EncodeInt32(x)[2] == (x / 0x1_0000) % 0x100
    ensures EncodeInt32(x)[3] == (x / 0x100_0000) % 0x100
  {
    UnsignedByte0(x);
    UnsignedByte1(x);
    UnsignedByte2(x);
    UnsignedByte3(x);
  }

  /** A 32-bit unsigned value is the sum of its four base-256 digits. */
  lemma DigitsOf32(u: int)
    requires 0 <= u < 0x1_0000_0000
    ensures u == u % 0x100 + 0x100 * ((u / 0x100) % 0x100) + 0x1_0000 * ((u / 0x1_0000) % 0x100) + 0x100_0000 * (u / 0x100_0000)
  {
    var a := u / 0x100;
    var b := a / 0x100;
    var c := b / 0x100;
    assert u == 0x100 * a + u % 0x100;
    assert a == 0x100 * b + a % 0x100;
    assert b == 0x100 * c + b % 0x100;
    assert u == 0x1_0000 * b + (0x100 * (a % 0x100) + u % 0x100);
    assert u / 0x1_0000 == b;
    assert u == 0x100_0000 * c + (0x1_0000 * (b % 0x100) + 0x100 * (a % 0x100) + u % 0x100);
    assert u / 0x100_0000 == c;
  }

  // Reducing modulo 2^32 first does not change any of the low four bytes.

  lemma UnsignedByte0(x: int)
    ensures (x % 0x1_0000_0000) % 0x100 == x % 0x100
  {
  }

  lemma UnsignedByte1(x: int)
    ensures ((x % 0x1_0000_0000) / 0x100) % 0x100 == (x / 0x100) % 0x100
  {
    var q, u := x / 0x1_0000_0000, x % 0x1_0000_0000;
    assert x == q * 0x1_0000_0000 + u;
    assert x / 0x100 == q * 0x100_0000 + u / 0x100;
  }

  lemma UnsignedByte2(x: int)
    ensures ((x % 0x1_0000_0000) / 0x1_0000) % 0x100 == (x / 0x1_0000) % 0x100
  {
    var q, u := x / 0x1_0000_0000, x % 0x1_0000_0000;
    assert x == q * 0x1_0000_0000 + u;
    assert x / 0x1_0000 == q * 0x1_0000 + u / 0x1_0000;
  }

  lemma UnsignedByte3(x: int)
    ensures (x % 0x1_0000_0000) / 0x100_0000 == (x / 0x100_0000) % 0x100
  {
    var q, u := x / 0x1_0000_0000, x % 0x1_0000_0000;
    assert x == q * 0x1_0000_0000 + u;
    assert x / 0x100_0000 == q * 0x100 + u / 0x100_0000;
  }

  lemma LittleEndian4(b: seq<Byte>)
    requires |b| == 4
    ensures LittleEndian(b) == b[0] + 0x100 * (b[1] as int) + 0x1_0000 * (b[2] as int) + 0x100_0000 * (b[3] as int)
  {
    var b1, b2, b3 := b[1..], b[2..], b[3..];
    assert b1[1..] == b2 && b2[1..] == b3 && b3[1..] == [];
    assert LittleEndian(b3) == b[3];
    assert LittleEndian(b2) == b[2] + 0x100 * (b[3] as int);
    assert LittleEndian(b1) == b[1] + 0x100 * LittleEndian(b2);
  }

  lemma LittleEndian2(b: seq<Byte>)
    requires |b| == 2
    ensures LittleEndian(b) == b[0] + 0x100 * (b[1] as int)
  {
    assert b[1..][1..] == [];
    assert LittleEndian(b[1..]) == b[1];
  }

  /** `longSwap(byte[])`: the Java int whose little-endian bytes are `b`. */
  function DecodeInt32(b: seq<Byte>): (x: Int32)
    requires |b| == 4
    ensures x % 0x1_0000_0000 == LittleEndian(b)
  {
    var u: int := b[0] + 0x100 * (b[1] as int) + 0x1_0000 * (b[2] as int) + 0x100_0000 * (b[3] as int);
    LittleEndian4(b);
    if u < 0x8000_0000 then u else u - 0x1_0000_0000
  }

  /** Decoding an encoded int gives it back. */
  lemma DecodeEncodeInt32(x: Int32)
    ensures DecodeInt32(EncodeInt32(x)) == x
  {
    SameResidue32(DecodeInt32(EncodeInt32(x)), x);
  }

  /** Distinct Java ints differ modulo 2^32. */
  lemma SameResidue32(x: Int32, y: Int32)
    requires x % 0x1_0000_0000 == y % 0x1_0000_0000
    ensures x == y
  {
  }

  /** Encoding a decoded int gives back the 4 bytes. */
  lemma EncodeDecodeInt32(b: seq<Byte>)
    requires |b| == 4
    ensures EncodeInt32(DecodeInt32(b)) == b
  {
    var r := EncodeInt32(DecodeInt32(b));
    LittleEndianInjective(r, b);
  }

  /** Two byte strings of one length with the same little-endian value are equal. */
  lemma {:induction false} LittleEndianInjective(a: seq<Byte>, b: seq<Byte>)
    requires |a| == |b|
    requires LittleEndian(a) == LittleEndian(b)
    ensures a == b
  {
    if a != [] {
      assert a[0] == LittleEndian(a) % 0x100;
      assert b[0] == LittleEndian(b) % 0x100;
      assert LittleEndian(a[1..]) == LittleEndian(a) / 0x100;
      assert LittleEndian(b[1..]) == LittleEndian(b) / 0x100;
      LittleEndianInjective(a[1..], b[1..]);
      assert a == [a[0]] + a[1..];
      assert b == [b[0]] + b[1..];
    }
  }

  // ---------------------------------------------------------------------
  // 16-bit integers

  /** `shortSwap(short)`: the 2 little-endian bytes of `s`, which read back as `s` modulo 2^16. */
  function EncodeInt16(s: Int16): (r: seq<Byte>)
    ensures |r| == 2
    ensures LittleEndian(r) == s % 0x1_0000
  {
    var u := s % 0x1_0000;
    var r := [u % 0x100, u / 0x100];
    LittleEndian2(r);
    r
  }

  /** Byte k of `EncodeInt16(s)` is `(s >> 8k) & 0xFF`. */
  lemma EncodeInt16Bytes(s: Int16)
    ensures EncodeInt16(s)[0] == s % 0x100
    ensures EncodeInt16(s)[1] == (s / 0x100) % 0x100
  {
    var q, u := s / 0x1_0000, s % 0x1_0000;
    assert s == q * 0x1_0000 + u;
    assert s / 0x100 == q * 0x100 + u / 0x100;
  }

  /** `shortSwap(byte[])`: the signed Java short whose little-endian bytes are `b`. */
  function DecodeInt16(b: seq<Byte>): (s: Int16)
    requires |b| == 2
    ensures s % 0x1_0000 == LittleEndian(b)
  {
    var u: int := b[0] + 0x100 * (b[1] as int);
    LittleEndian2(b);
    if u < 0x8000 then u else u - 0x1_0000
  }

  /** Decoding an encoded short gives it back. */
  lemma DecodeEncodeInt16(s: Int16)
    ensures DecodeInt16(EncodeInt16(s)) == s
  {
    SameResidue16(DecodeInt16(EncodeInt16(s)), s);
  }

  /** Distinct Java shorts differ modulo 2^16. */
  lemma SameResidue16(s: Int16, t: Int16)
    requires s % 0x1_0000 == t % 0x1_0000
    ensures s == t
  {
  }

  /** Encoding a decoded short gives back the 2 bytes. */
  lemma EncodeDecodeInt16(b: seq<Byte>)
    requires |b| == 2
    ensures EncodeInt16(DecodeInt16(b)) == b
  {
    LittleEndianInjective(EncodeInt16(DecodeInt16(b)), b);
  }

  // ---------------------------------------------------------------------
  // Flipping 4-byte groups

  /** Each 4-byte group of `s` with its bytes in reverse order. */
  function FlipQuads(s: seq<Byte>): seq<Byte>
    requires |s| % 4 == 0
  {
    if s == [] then [] else [s[3], s[2], s[1], s[0]] + FlipQuads(s[4..])
  }

  lemma {:induction false} FlipQuadsLength(s: seq<Byte>)
    requires |s| % 4 == 0
    ensures |FlipQuads(s)| == |s|
  {
    if s != [] {
      FlipQuadsLength(s[4..]);
    }
  }

  /** Flipping twice restores the original bytes. */
  lemma {:induction false} FlipQuadsInvolution(s: seq<Byte>)
    requires |s| % 4 == 0
    ensures |FlipQuads(s)| == |s|
    ensures FlipQuads(FlipQuads(s)) == s
  {
    FlipQuadsLength(s);
    if s != [] {
      var f := FlipQuads(s);
      assert f[4..] == FlipQuads(s[4..]);
      FlipQuadsInvolution(s[4..]);
      assert FlipQuads(f) == [s[0], s[1], s[2], s[3]] + s[4..];
    }
  }

  /**
   * `swapByteArray`: reverses each 4-byte group of `a` in place:
   * new a[i + k] is old a[i + 3 - k] for every group start i and k in 0..3.
   */
  method SwapByteArray(a: array<Byte>)
    requires a.Length % 4 == 0
    modifies a
    ensures a[..] == FlipQuads(old(a[..]))
  {
    ghost var o := a[..];
    ghost var f := FlipQuads(o);
    FlipQuadsLength(o);
    var i := 0;
    ghost var g := 0;
    while i < a.Length
      invariant i == 4 * g && i <= a.Length
      invariant forall j :: 0 <= j < a.Length ==> a[j] == if j < i then f[j] else o[j]
    {
      FlipQuadsGroup(o, g);
      // swap 0 and 3
      var tmp := a[i];
      a[i] := a[i + 3];
      a[i + 3] := tmp;
      // swap 1 and 2
      var tmp2 := a[i + 1];
      a[i + 1] := a[i + 2];
      a[i + 2] := tmp2;
      i := i + 4;
      g := g + 1;
    }
    assert a[..] == f;
  }

  /** The flipped image of one whole group. */
  lemma {:induction false} FlipQuadsGroup(o: seq<Byte>, g: nat)
    requires |o| % 4 == 0 && 4 * g + 4 <= |o|
    ensures |FlipQuads(o)| == |o|
    ensures FlipQuads(o)[4 * g] == o[4 * g + 3] && FlipQuads(o)[4 * g + 1] == o[4 * g + 2]
    ensures FlipQuads(o)[4 * g + 2] == o[4 * g + 1] && FlipQuads(o)[4 * g + 3] == o[4 * g]
  {
    FlipQuadsLength(o);
    if g > 0 {
      FlipQuadsGroup(o[4..], g - 1);
    }
  }
}
