/** Byte strings, and their bits. */
module Bytes {
  import opened MachineInt
  import opened Polynomial

  type Byte = bv8

  /** One cipher block. */
  type Block = s: seq<Byte> | |s| == 16 witness seq(16, _ => 0)

  const ZERO_BLOCK: Block := [0, 0, 0, 0, 0, 0, 0, 0, 0, 0, 0, 0, 0, 0, 0, 0]

  function XorBytes(a: seq<Byte>, b: seq<Byte>): (c: seq<Byte>)
    requires |a| == |b|
    ensures |c| == |a| && forall i :: 0 <= i < |a| ==> c[i] == a[i] ^ b[i]
  {
    seq(|a|, i requires 0 <= i < |a| => a[i] ^ b[i])
  }

  /** The string extended with zeros to `n` bytes. */
  function PadTo(s: seq<Byte>, n: nat): (p: seq<Byte>)
    requires |s| <= n
    ensures |p| == n && p[..|s|] == s && forall i :: |s| <= i < n ==> p[i] == 0
  {
    s + seq(n - |s|, _ => 0)
  }

  lemma XorByteTwice(x: Byte, y: Byte)
    ensures (x ^ y) ^ y == x
  {
  }

  lemma XorWithZero(a: seq<Byte>, b: seq<Byte>)
    requires |a| == |b| && forall i :: 0 <= i < |b| ==> b[i] == 0
    ensures XorBytes(a, b) == a
  {
  }

  /** The bits of a byte, least significant first. */
  function BitsOfByte(b: Byte): (w: Bits)
    ensures |w| == 8
  {
    [b & 1 != 0, b & 2 != 0, b & 4 != 0, b & 8 != 0, b & 16 != 0, b & 32 != 0, b & 64 != 0, b & 128 != 0]
  }

  function ByteOfBits(w: Bits): Byte
    requires |w| == 8
  {
    (if w[0] then 1 else 0) | (if w[1] then 2 else 0) | (if w[2] then 4 else 0) | (if w[3] then 8 else 0)
    | (if w[4] then 16 else 0) | (if w[5] then 32 else 0) | (if w[6] then 64 else 0) | (if w[7] then 128 else 0)
  }

  /** Little-endian: the first byte holds the lowest coefficients. */
  function BitsOf(s: seq<Byte>): (w: Bits)
    ensures |w| == 8 * |s|
  {
    if s == [] then [] else BitsOf(s[..|s| - 1]) + BitsOfByte(s[|s| - 1])
  }

  function BytesOf(w: Bits): (s: seq<Byte>)
    requires |w| % 8 == 0
    ensures |s| == |w| / 8
  {
    if w == [] then [] else BytesOf(w[..|w| - 8]) + [ByteOfBits(w[|w| - 8..])]
  }

  lemma BitsOfConcat(a: seq<Byte>, b: seq<Byte>)
    ensures BitsOf(a + b) == BitsOf(a) + BitsOf(b)
  {
    if b == [] {
      assert a + b == a;
    } else {
      var n := |b| - 1;
      assert (a + b)[..|a + b| - 1] == a + b[..n];
      BitsOfConcat(a, b[..n]);
    }
  }

  /** Bits and bytes carry the same information. */
  lemma ByteRoundTrip(b: Byte)
    ensures ByteOfBits(BitsOfByte(b)) == b
  {
  }

  lemma ByteBits(w: Bits)
    requires |w| == 8
    ensures BitsOfByte(ByteOfBits(w)) == w
  {
  }

  lemma {:induction false} BytesRoundTrip(s: seq<Byte>)
    ensures BytesOf(BitsOf(s)) == s
  {
    if s != [] {
      var front, last := s[..|s| - 1], s[|s| - 1];
      BytesRoundTrip(front);
      ByteRoundTrip(last);
      var w := BitsOf(front) + BitsOfByte(last);
      assert w[..|w| - 8] == BitsOf(front) && w[|w| - 8..] == BitsOfByte(last);
    }
  }

  lemma BitsOfAppend(s: seq<Byte>, b: Byte)
    ensures BitsOf(s + [b]) == BitsOf(s) + BitsOfByte(b)
  {
    assert (s + [b])[..|s|] == s;
  }

  lemma LastByte(w: Bits)
    requires |w| % 8 == 0 && w != []
    ensures BytesOf(w) == BytesOf(w[..|w| - 8]) + [ByteOfBits(w[|w| - 8..])]
  {
  }

  lemma OneByteMore(front: Bits, last: Bits)
    requires |front| % 8 == 0 && |last| == 8 && BitsOf(BytesOf(front)) == front
    ensures BitsOf(BytesOf(front) + [ByteOfBits(last)]) == front + last
  {
    ByteBits(last);
    BitsOfAppend(BytesOf(front), ByteOfBits(last));
  }

  lemma {:induction false} BitsRoundTrip(w: Bits)
    requires |w| % 8 == 0
    ensures BitsOf(BytesOf(w)) == w
    decreases |w|
  {
    if w != [] {
      LastEight(w);
      var front, last := w[..|w| - 8], w[|w| - 8..];
      BitsRoundTrip(front);
      LastByte(w);
      OneByteMore(front, last);
    }
  }

  lemma LastEight(w: Bits)
    requires |w| % 8 == 0 && w != []
    ensures |w| >= 8 && |w[..|w| - 8]| % 8 == 0 && |w[|w| - 8..]| == 8 && w[..|w| - 8] + w[|w| - 8..] == w
  {
  }

  /** The low bits of a natural number. */
  function BitsOfNat(n: nat, size: nat): (w: Bits)
    ensures |w| == size
  {
    if size == 0 then [] else [n % 2 == 1] + BitsOfNat(n / 2, size - 1)
  }

  /** The value of a bit string. */
  function NatOf(w: Bits): (n: nat)
    ensures n < Power2(|w|)
  {
    if w == [] then 0 else (if w[0] then 1 else 0) + 2 * NatOf(w[1..])
  }

  lemma {:induction false} NatRoundTrip(w: Bits)
    ensures BitsOfNat(NatOf(w), |w|) == w
  {
    if w != [] {
      NatRoundTrip(w[1..]);
      assert NatOf(w) / 2 == NatOf(w[1..]) && NatOf(w) % 2 == if w[0] then 1 else 0;
    }
  }

  lemma {:induction false} ValueOfBits(n: nat, size: nat)
    requires n < Power2(size)
    ensures NatOf(BitsOfNat(n, size)) == n
  {
    if size > 0 {
      ValueOfBits(n / 2, size - 1);
      assert BitsOfNat(n, size)[1..] == BitsOfNat(n / 2, size - 1);
    }
  }
}
