/** Octet strings and their big-endian numbers, for the framings. */
module Octets {
  type Octet = x: int | 0 <= x < 256

  /** The low 16 bits of a number. */
  function Word16(n: nat): (s: seq<Octet>)
    ensures |s| == 2
  {
    [n / 256 % 256, n % 256]
  }

  function Value16(s: seq<Octet>): (n: nat)
    requires |s| == 2
    ensures n < 65536
  {
    var high: int, low: int := s[0], s[1];
    256 * high + low
  }

  lemma Word16RoundTrip(n: nat)
    requires n < 65536
    ensures Value16(Word16(n)) == n
  {
  }

  lemma Value16RoundTrip(s: seq<Octet>)
    requires |s| == 2
    ensures Word16(Value16(s)) == s
  {
  }

  function Zeros(n: nat): (s: seq<Octet>)
    ensures |s| == n && forall i :: 0 <= i < n ==> s[i] == 0
  {
    seq(n, _ => 0)
  }

  /** The zeros that complete `n` octets to a multiple of four. */
  function Padding(n: nat): (p: nat)
    ensures p < 4 && (n + p) % 4 == 0
  {
    (4 - n % 4) % 4
  }

  function Padded(s: seq<Octet>): (p: seq<Octet>)
    ensures |p| == |s| + Padding(|s|) && |p| % 4 == 0
  {
    s + Zeros(Padding(|s|))
  }

  lemma SliceOfRest(data: seq<Octet>, offset: nat, i: nat, j: nat)
    requires i <= j && offset + j <= |data|
    ensures data[offset..][i..j] == data[offset + i..offset + j]
  {
    SliceOfSlice(data, offset, |data|, i, j);
    assert data[offset..|data|] == data[offset..];
  }

  lemma SliceOfSlice(data: seq<Octet>, a: nat, b: nat, i: nat, j: nat)
    requires i <= j && a + j <= b <= |data|
    ensures data[a..b][i..j] == data[a + i..a + j]
  {
    var x, y := data[a..b][i..j], data[a + i..a + j];
    assert |x| == |y| == j - i;
    forall k | 0 <= k < j - i
      ensures x[k] == y[k]
    {
      assert x[k] == data[a..b][i + k] == data[a + (i + k)];
      assert y[k] == data[(a + i) + k];
    }
  }

  lemma RestOfRest(data: seq<Octet>, offset: nat, i: nat)
    requires offset + i <= |data|
    ensures data[offset..][i..] == data[offset + i..]
  {
    var x, y := data[offset..][i..], data[offset + i..];
    forall k | 0 <= k < |y|
      ensures x[k] == y[k]
    {
      assert x[k] == data[offset..][i + k] == data[offset + (i + k)];
    }
  }

  lemma SplitAt(data: seq<Octet>, offset: nat)
    requires offset <= |data|
    ensures data == data[..offset] + data[offset..]
  {
  }

  // ----- numbers of any width -----

  function Power256(n: nat): nat {
    if n == 0 then 1 else 256 * Power256(n - 1)
  }

  /** The low `size` octets of a number, the highest first. */
  function BigEndian(n: nat, size: nat): (s: seq<Octet>)
    ensures |s| == size
  {
    if size == 0 then [] else BigEndian(n / 256, size - 1) + [n % 256]
  }

  /** A 16-bit word is sent high octet first. */
  lemma WordIsBigEndian(n: nat)
    requires n < 65536
    ensures Word16(n) == BigEndian(n, 2)
    ensures var high: int, low: int := Word16(n)[0], Word16(n)[1]; n == 0x100 * high + low
  {
    assert BigEndian(n, 2) == BigEndian(n / 256, 1) + [n % 256];
    assert BigEndian(n / 256, 1) == BigEndian(n / 256 / 256, 0) + [n / 256 % 256];
  }

  function BigValue(s: seq<Octet>): (n: nat)
    ensures n < Power256(|s|)
  {
    if s == [] then 0
    else
      var last: int := s[|s| - 1];
      256 * BigValue(s[..|s| - 1]) + last
  }

  lemma {:induction false} BigEndianRoundTrip(n: nat, size: nat)
    requires n < Power256(size)
    ensures BigValue(BigEndian(n, size)) == n
  {
    if size > 0 {
      BigEndianRoundTrip(n / 256, size - 1);
      var s := BigEndian(n, size);
      assert s[..size - 1] == BigEndian(n / 256, size - 1) && s[size - 1] == n % 256;
    }
  }

  lemma {:induction false} BigValueRoundTrip(s: seq<Octet>)
    ensures BigEndian(BigValue(s), |s|) == s
  {
    if s != [] {
      var front := s[..|s| - 1];
      var last: int := s[|s| - 1];
      BigValueRoundTrip(front);
      LastDigit(BigValue(front), last);
      assert s == front + [last];
    }
  }

  lemma LastDigit(n: nat, d: nat)
    requires d < 256
    ensures (256 * n + d) / 256 == n && (256 * n + d) % 256 == d
  {
  }
}
