/**
 * Bytes and the unsigned big-endian integers read from them.
 *
 * `BigEndian` is what `big.Int.SetBytes` computes; `FillBytes` is its
 * inverse for a fixed width (what a signer uses to lay out r and s).
 */
module Bytes {

  type Byte = x: int | 0 <= x < 256

  /** 256 to the power n: one more than the largest n-byte value. */
  function Pow256(n: nat): (p: nat)
    ensures p >= 1
  {
    if n == 0 then 1 else 256 * Pow256(n - 1)
  }

  /** The unsigned integer whose big-endian bytes are s (leading zeros allowed). */
  function BigEndian(s: seq<Byte>): (v: nat)
    ensures v < Pow256(|s|)
    decreases |s|
  {
    if s == [] then 0 else BigEndian(s[..|s| - 1]) * 256 + s[|s| - 1]
  }

  /** The len-byte big-endian representation of n, left-padded with zeros. */
  function FillBytes(n: nat, len: nat): (s: seq<Byte>)
    requires n < Pow256(len)
    ensures |s| == len && BigEndian(s) == n
    decreases len
  {
    if len == 0 then []
    else
      var front := FillBytes(n / 256, len - 1);
      assert (front + [n % 256])[..len - 1] == front;
      front + [n % 256]
  }

  /** Reading a+b is reading a, shifted by the width of b, plus reading b. */
  lemma {:induction false} BigEndianAppend(a: seq<Byte>, b: seq<Byte>)
    ensures BigEndian(a + b) == BigEndian(a) * Pow256(|b|) + BigEndian(b)
    decreases |b|
  {
    if b == [] {
      assert a + b == a;
    } else {
      var front := b[..|b| - 1];
      assert (a + b)[..|a + b| - 1] == a + front;
      BigEndianAppend(a, front);
      var x, p, y, z := BigEndian(a), Pow256(|front|), BigEndian(front), b[|b| - 1];
      assert Pow256(|b|) == 256 * p;
      assert BigEndian(b) == y * 256 + z;
      assert BigEndian(a + b) == (x * p + y) * 256 + z;
      ShiftByte(x, p, y, z);
    }
  }

  /** Arithmetic step of BigEndianAppend: shifting a sum by one byte. */
  lemma ShiftByte(x: int, p: int, y: int, z: int)
    ensures (x * p + y) * 256 + z == x * (256 * p) + (y * 256 + z)
  {
    assert (x * p) * 256 == x * (256 * p);
  }

  /** Leading zero bytes do not change the value that is read. */
  lemma LeadingZeroIgnored(s: seq<Byte>)
    ensures BigEndian([0] + s) == BigEndian(s)
  {
    BigEndianAppend([0], s);
    assert [0][..0] == [];
  }

  /** A fixed-width encoding is recovered from its value: BigEndian is injective per width. */
  lemma {:induction false} FillBytesOfBigEndian(s: seq<Byte>)
    ensures FillBytes(BigEndian(s), |s|) == s
    decreases |s|
  {
    if s != [] {
      var front := s[..|s| - 1];
      var v := BigEndian(s);
      assert v / 256 == BigEndian(front) && v % 256 == s[|s| - 1];
      FillBytesOfBigEndian(front);
      assert front + [s[|s| - 1]] == s;
    }
  }
}
