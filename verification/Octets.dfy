/** Bytes, and the numbers they stand for. */
module Octets {

  type Byte = bv8
  type Bytes = seq<Byte>

  datatype Option<+T> = None | Some(value: T)

  /** The number a byte stands for. */
  function Index(a: Byte): (n: nat)
    ensures n < 256
  {
    a as nat
  }

  /** The low eight bits of a number. */
  function ByteOf(n: nat): Byte { (n % 256) as Byte }

  lemma IndexInjective(a: Byte, b: Byte)
    requires Index(a) == Index(b)
    ensures a == b
  {}

  lemma IndexNonZero(a: Byte)
    requires a != 0
    ensures 1 <= Index(a)
  {}

  lemma ByteRoundTrip(n: nat)
    requires n < 256
    ensures Index(n as Byte) == n
  {}

  lemma IndexOfByteOf(n: nat)
    ensures Index(ByteOf(n)) == n % 256
  {
    ByteRoundTrip(n % 256);
  }

  lemma ByteOfIndex(a: Byte)
    ensures ByteOf(Index(a)) == a
  {
    hide *;
    IndexOfByteOf(Index(a));
    IndexInjective(ByteOf(Index(a)), a);
  }

  function Zeros(n: nat): (z: Bytes)
    ensures |z| == n && forall i :: 0 <= i < n ==> z[i] == 0
  {
    seq(n, _ => 0)
  }

  function OrByte(a: Byte, b: Byte): Byte { a | b }

  lemma OrIsZero(a: Byte, b: Byte)
    ensures OrByte(a, b) == 0 <==> a == 0 && b == 0
  {}
}
