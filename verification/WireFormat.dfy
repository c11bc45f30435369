/** Numbers on the wire, most significant byte first: tight/src/wire_format.hpp. */
module WireFormat {
  import opened Octets

  const HEADER_SIZE: nat := 48

  type U16 = n: nat | n < 0x1_0000
  type U32 = n: nat | n < 0x1_0000_0000
  type U64 = n: nat | n < 0x1_0000_0000_0000_0000

  function Be16(n: U16): (b: Bytes)
    ensures |b| == 2
  {
    [ByteOf(n / 256), ByteOf(n)]
  }

  function Get16(b: Bytes): U16
    requires |b| == 2
  {
    Index(b[0]) * 256 + Index(b[1])
  }

  /** The low 32 bits of a number. */
  function ToBe32(n: nat): (b: Bytes)
    ensures |b| == 4
  {
    [ByteOf(n / 0x100_0000), ByteOf(n / 0x1_0000), ByteOf(n / 0x100), ByteOf(n)]
  }

  function FromBe32(b: Bytes): (n: U32)
    requires |b| == 4
  {
    Index(b[0]) * 0x100_0000 + Index(b[1]) * 0x1_0000 + Index(b[2]) * 0x100 + Index(b[3])
  }

  /** The session number: the low half first, as the byte order conversion of a little-endian host leaves it. */
  function Wire64(v: U64): (b: Bytes)
    ensures |b| == 8
  {
    ToBe32(v % 0x1_0000_0000) + ToBe32(v / 0x1_0000_0000)
  }

  function Get64(b: Bytes): U64
    requires |b| == 8
  {
    FromBe32(b[4..]) * 0x1_0000_0000 + FromBe32(b[..4])
  }

  /** A byte count as a 64-bit number of bits. */
  function BitCount(n: nat): (b: Bytes)
    ensures |b| == 8
  {
    ToBe32(8 * n / 0x1_0000_0000) + ToBe32(8 * n)
  }

  lemma RoundTrip16(n: U16)
    ensures Get16(Be16(n)) == n
  {
    hide Index, ByteOf;
    IndexOfByteOf(n / 256);
    IndexOfByteOf(n);
  }

  /** Reading back gives the low 32 bits. */
  lemma Be32LowBits(n: nat)
    ensures FromBe32(ToBe32(n)) == n % 0x1_0000_0000
  {
    hide Index, ByteOf;
    IndexOfByteOf(n / 0x100_0000);
    IndexOfByteOf(n / 0x1_0000);
    IndexOfByteOf(n / 0x100);
    IndexOfByteOf(n);
    DigitsOfWord(n);
  }

  lemma DigitsOfWord(n: nat)
    ensures (n / 0x100_0000 % 256) * 0x100_0000 + (n / 0x1_0000 % 256) * 0x1_0000 + (n / 0x100 % 256) * 0x100 + n % 256
         == n % 0x1_0000_0000
  {
    var a, b, c, d := n / 0x100, n / 0x1_0000, n / 0x100_0000, n / 0x1_0000_0000;
    assert n == a * 256 + n % 256;
    assert a == b * 256 + a % 256;
    assert b == c * 256 + b % 256;
    assert c == d * 256 + c % 256;
    assert n == d * 0x1_0000_0000 + n % 0x1_0000_0000;
  }

  lemma Be32RoundTrip(n: U32)
    ensures FromBe32(ToBe32(n)) == n
  {
    hide ToBe32, FromBe32;
    Be32LowBits(n);
  }

  lemma RoundTrip64(v: U64)
    ensures Get64(Wire64(v)) == v
  {
    hide ToBe32, FromBe32;
    var lo, hi := ToBe32(v % 0x1_0000_0000), ToBe32(v / 0x1_0000_0000);
    Be32RoundTrip(v % 0x1_0000_0000);
    Be32RoundTrip(v / 0x1_0000_0000);
    assert (lo + hi)[4..] == hi;
    assert (lo + hi)[..4] == lo;
  }

  lemma Same16(a: U16, b: U16)
    ensures Be16(a) == Be16(b) <==> a == b
  {
    hide Be16, Get16;
    RoundTrip16(a);
    RoundTrip16(b);
  }

  lemma Same32(a: U32, b: U32)
    ensures ToBe32(a) == ToBe32(b) <==> a == b
  {
    hide ToBe32, FromBe32;
    Be32RoundTrip(a);
    Be32RoundTrip(b);
  }
}
