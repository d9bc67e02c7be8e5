/** Fixed-width integers: the ranges, and the wrap-around that the source language applies
    whenever a result leaves them. */
module MachineInt {
  const TWO_64: int := 0x1_0000_0000_0000_0000
  const INT64_MIN: int := -0x8000_0000_0000_0000
  const INT64_MAX: int := 0x7FFF_FFFF_FFFF_FFFF
  const UINT64_MAX: int := 0xFFFF_FFFF_FFFF_FFFF

  type Int64 = x: int | INT64_MIN <= x <= INT64_MAX
  type UInt64 = x: int | 0 <= x <= UINT64_MAX

  predicate FitsInt64(x: int) {
    INT64_MIN <= x <= INT64_MAX
  }

  /** The bits of `x`, read as an unsigned word. */
  function ToUnsigned(x: int): UInt64 {
    x % TWO_64
  }

  /** The bits of `x`, read as a signed word. */
  function ToSigned(x: int): Int64 {
    var w := x % TWO_64;
    if w <= INT64_MAX then w else w - TWO_64
  }

  /** Signed results that fit are kept; the others differ by a multiple of 2^64. */
  lemma ToSignedFits(x: int)
    ensures FitsInt64(x) <==> ToSigned(x) == x
    ensures (ToSigned(x) - x) % TWO_64 == 0
  {
    if FitsInt64(x) {
      if x < 0 {
        assert x % TWO_64 == x + TWO_64;
      } else {
        assert x % TWO_64 == x;
      }
    }
  }

  /** Equal as 64-bit words. */
  predicate Congruent(x: int, y: int) {
    (x - y) % TWO_64 == 0
  }

  lemma WrapDistance(x: int) returns (k: int)
    ensures ToSigned(x) == x + TWO_64 * k
  {
    k := if x % TWO_64 <= INT64_MAX then -(x / TWO_64) else -(x / TWO_64) - 1;
  }

  lemma CongruentBy(x: int, y: int, k: int)
    requires x == y + TWO_64 * k
    ensures Congruent(x, y)
  {
    MultipleHasNoRemainder(TWO_64, k);
  }

  lemma CongruenceDistance(x: int, y: int) returns (k: int)
    requires Congruent(x, y)
    ensures x == y + TWO_64 * k
  {
    k := (x - y) / TWO_64;
  }

  /** Values a multiple of 2^64 apart are the same word. */
  lemma SameWord(x: int, y: int, k: int)
    requires x == y + TWO_64 * k
    ensures ToSigned(x) == ToSigned(y)
  {
    assert x % TWO_64 == y % TWO_64;
  }

  /** Wrapping a summand first does not change the wrapped sum. */
  lemma WrapSum(a: int, b: int)
    ensures ToSigned(ToSigned(a) + b) == ToSigned(a + b)
  {
    var k := WrapDistance(a);
    SameWord(ToSigned(a) + b, a + b, k);
  }

  /** Words that are congruent are equal. */
  lemma CongruentWordsAreEqual(x: Int64, y: int)
    requires Congruent(x, y) && FitsInt64(y)
    ensures x == y
  {
    var k := CongruenceDistance(x, y);
    SmallMultipleIsZero(TWO_64, k);
  }

  /** Bitwise OR of two unsigned words, bit by bit from the least significant end. */
  function BitOr(a: nat, b: nat): nat
    decreases a + b
  {
    if a == 0 then b
    else if b == 0 then a
    else 2 * BitOr(a / 2, b / 2) + if a % 2 == 1 || b % 2 == 1 then 1 else 0
  }

  /** Words with no common bit add without carries. */
  lemma {:induction false} BitOrDisjoint(a: nat, b: nat, unit: nat, bits: nat)
    requires unit == Power2(bits) && b < unit && a % unit == 0
    ensures BitOr(a, b) == a + b
    decreases bits
  {
    if a != 0 && b != 0 {
      assert bits > 0;
      var half := Power2(bits - 1);
      assert unit == 2 * half;
      var k := a / unit;
      assert a == unit * k;
      assert a == 2 * (half * k) by {
        assert 2 * half * k == 2 * (half * k);
      }
      assert (a / 2) % half == 0 by {
        assert a / 2 == half * k;
        MultipleHasNoRemainder(half, k);
      }
      BitOrDisjoint(a / 2, b / 2, half, bits - 1);
    }
  }

  lemma MultipleHasNoRemainder(unit: int, k: int)
    requires unit > 0
    ensures (unit * k) % unit == 0 && (unit * k) / unit == k
  {
    DivisionIsUnique(unit * k, unit, k, 0);
  }

  function Power2(n: nat): nat
    ensures Power2(n) > 0
  {
    if n == 0 then 1 else 2 * Power2(n - 1)
  }

  /** Quotient and remainder are determined by the equation between them. */
  lemma DivisionIsUnique(x: int, d: int, q: int, r: int)
    requires d > 0 && 0 <= r < d && x == d * q + r
    ensures x / d == q && x % d == r
  {
    var q1, r1 := x / d, x % d;
    assert x == d * q1 + r1;
    assert d * (q - q1) == r1 - r;
    SmallMultipleIsZero(d, q - q1);
  }

  lemma SmallMultipleIsZero(d: int, k: int)
    requires d > 0 && -d < d * k < d
    ensures k == 0
  {
    if k >= 1 {
      ScaledIsLarger(d, k);
    } else if k <= -1 {
      ScaledIsLarger(d, -k);
    }
  }

  lemma ScaledIsLarger(d: int, k: int)
    requires d > 0 && k >= 1
    ensures d * k >= d
  {
  }
}
