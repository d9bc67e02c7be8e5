/** Q16.48 fixed-point products, built from 64-bit words and rounded outward. */
module FixedPoint {
  import opened MachineInt
  import opened Outcomes

  const ONE_Q48: int := 0x1_0000_0000_0000
  const TWO_47: int := 0x8000_0000_0000
  const TWO_16: int := 0x1_0000

  datatype Words = Words(hi: Int64, lo: UInt64)

  function Complement(w: UInt64): UInt64 {
    UINT64_MAX - w
  }

  function Magnitude(a: Int64): UInt64 {
    if a < 0 then ToUnsigned(ToSigned(0 - a)) else a
  }

  /** Two's-complement negation of a two-word magnitude. */
  function NegateWords(uhi: UInt64, ulo: UInt64): (w: Words)
    requires uhi <= 0x4000_0000_0000_0000
    ensures w.hi * TWO_64 + w.lo == -(uhi * TWO_64 + ulo)
  {
    var lo := (Complement(ulo) + 1) % TWO_64;
    var hi := Complement(uhi);
    Words(ToSigned(if lo == 0 then hi + 1 else hi), lo)
  }

  /** The two words of a magnitude, negated when the factors' signs differ. */
  function SignedWords(neg: bool, p: nat): (w: Words)
    requires p <= 0x4000_0000_0000_0000_0000_0000_0000_0000
    ensures w.hi * TWO_64 + w.lo == if neg then 0 - p else p
  {
    var uhi, ulo := p / TWO_64, p % TWO_64;
    if neg then NegateWords(uhi, ulo) else Words(ToSigned(uhi), ulo)
  }

  /** The signed 128-bit product as a signed high word and an unsigned low word. */
  function Product(a: Int64, b: Int64): (w: Words)
    ensures w.hi * TWO_64 + w.lo == a * b
  {
    if a == 0 || b == 0 then Words(0, 0)
    else
      MagnitudeProduct(a, b);
      SignedWords((a < 0) != (b < 0), Magnitude(a) * Magnitude(b))
  }

  lemma MagnitudeProduct(a: Int64, b: Int64)
    ensures 0 <= Magnitude(a) * Magnitude(b) <= 0x4000_0000_0000_0000_0000_0000_0000_0000
    ensures Magnitude(a) * Magnitude(b) == if (a < 0) != (b < 0) then 0 - a * b else a * b
  {
    MagnitudeIsAbsolute(a);
    MagnitudeIsAbsolute(b);
    BoundedProduct(Magnitude(a), Magnitude(b), 0x8000_0000_0000_0000);
    SignedProduct(a, b);
  }

  lemma SignedProduct(a: int, b: int)
    ensures (if a < 0 then -a else a) * (if b < 0 then -b else b)
         == if (a < 0) != (b < 0) then 0 - a * b else a * b
  {
  }

  lemma BoundedProduct(x: nat, y: nat, m: nat)
    requires x <= m && y <= m
    ensures 0 <= x * y <= m * m
  {
    assert x * y <= m * y;
    assert m * y <= m * m;
  }

  lemma MagnitudeIsAbsolute(a: Int64)
    ensures Magnitude(a) == if a < 0 then 0 - a else a
  {
    if a < 0 && a != INT64_MIN {
      ToSignedFits(0 - a);
    }
  }

  /** Whether a product with high word `hi` leaves the Q16.48 result range. */
  predicate IsQ48Overflow(hi: Int64) {
    var check := hi / TWO_47;
    if hi >= 0 then check != 0 else check != -1
  }

  /** The bits of the product above the fraction, spliced from both words. */
  function Splice(w: Words): (q: Int64)
    requires !IsQ48Overflow(w.hi)
    ensures q == (w.hi * TWO_64 + w.lo) / ONE_Q48
  {
    var high := ToSigned(w.hi * TWO_16);
    var low := w.lo / ONE_Q48;
    SpliceIsSum(w);
    ToSigned(BitOr(ToUnsigned(high), low))
  }

  lemma SpliceIsSum(w: Words)
    requires !IsQ48Overflow(w.hi)
    ensures ToSigned(BitOr(ToUnsigned(ToSigned(w.hi * TWO_16)), w.lo / ONE_Q48))
         == (w.hi * TWO_64 + w.lo) / ONE_Q48
  {
    var high: int, low: int := w.hi * TWO_16, w.lo / ONE_Q48;
    assert -TWO_47 <= w.hi < TWO_47;
    DivisionIsUnique(w.hi * TWO_64 + w.lo, ONE_Q48, high + low, w.lo % ONE_Q48);
    OrFillsLowBits(w.hi, low);
  }

  lemma OrFillsLowBits(k: int, low: int)
    requires -TWO_47 <= k < TWO_47 && 0 <= low < TWO_16
    ensures ToSigned(BitOr(ToUnsigned(ToSigned(k * TWO_16)), low)) == k * TWO_16 + low
  {
    var high: int := k * TWO_16;
    ToSignedFits(high);
    var m := if k < 0 then k + ONE_Q48 else k;
    HighBits(k, m);
    OrIsSum(m, low);
    ToSignedFits(high + low);
    if k < 0 {
      SameWord(m * TWO_16 + low, high + low, 1);
    }
  }

  lemma HighBits(k: int, m: int)
    requires -TWO_47 <= k < TWO_47 && m == if k < 0 then k + ONE_Q48 else k
    ensures ToUnsigned(k * TWO_16) == m * TWO_16
  {
    assert k * TWO_16 + (if k < 0 then TWO_64 else 0) == m * TWO_16;
  }

  lemma OrIsSum(m: nat, low: nat)
    requires low < TWO_16
    ensures BitOr(m * TWO_16, low) == m * TWO_16 + low
  {
    assert Power2(8) == 256;
    assert Power2(16) == TWO_16;
    assert (m * TWO_16) % TWO_16 == 0;
    BitOrDisjoint(m * TWO_16, low, TWO_16, 16);
  }

  /** The product of a Q16.48 rate or scale and a duration, rounded towards minus infinity. */
  function MulFloor(factor: Int64, d: Int64): Result<Int64> {
    var q := factor * d / ONE_Q48;
    if FitsInt64(q) then Success(q) else Failure(Overflow)
  }

  /** The product rounded towards plus infinity; its floor has to fit as well. */
  function MulCeil(factor: Int64, d: Int64): Result<Int64> {
    var p := factor * d;
    if FitsInt64(p / ONE_Q48) && FitsInt64(CeilingOf(p)) then Success(CeilingOf(p)) else Failure(Overflow)
  }

  /** The word arithmetic yields the exact floor, and fails exactly when that does not fit. */
  function MulFloorOfWords(factor: Int64, d: Int64): (r: Result<Int64>)
    ensures r == MulFloor(factor, d)
  {
    var w := Product(factor, d);
    OverflowIsExact(factor * d, w);
    if IsQ48Overflow(w.hi) then Failure(Overflow) else Success(Splice(w))
  }

  /** The word arithmetic yields the exact ceiling, and fails exactly when the floor or the
      ceiling does not fit. */
  function MulCeilOfWords(factor: Int64, d: Int64): (r: Result<Int64>)
    ensures r == MulCeil(factor, d)
  {
    var w := Product(factor, d);
    OverflowIsExact(factor * d, w);
    if IsQ48Overflow(w.hi) then Failure(Overflow)
    else
      var q := Splice(w);
      var rem := w.lo % ONE_Q48;
      CeilingFromFloor(factor * d, w);
      if rem != 0 then
        if q == INT64_MAX then Failure(Overflow) else Success(q + 1)
      else Success(q)
  }

  /** The least integer at or above p / 2^48. */
  function CeilingOf(p: int): int {
    -((-p) / ONE_Q48)
  }

  lemma CeilingFromFloor(p: int, w: Words)
    requires p == w.hi * TWO_64 + w.lo
    ensures CeilingOf(p) == p / ONE_Q48 + if w.lo % ONE_Q48 != 0 then 1 else 0
  {
    var rem := w.lo % ONE_Q48;
    DivisionIsUnique(p, ONE_Q48, w.hi * TWO_16 + w.lo / ONE_Q48, rem);
    if rem == 0 {
      DivisionIsUnique(-p, ONE_Q48, -(p / ONE_Q48), 0);
    } else {
      DivisionIsUnique(-p, ONE_Q48, -(p / ONE_Q48) - 1, ONE_Q48 - rem);
    }
  }

  lemma OverflowIsExact(p: int, w: Words)
    requires p == w.hi * TWO_64 + w.lo
    ensures !IsQ48Overflow(w.hi) <==> FitsInt64(p / ONE_Q48)
  {
    assert !IsQ48Overflow(w.hi) <==> -TWO_47 <= w.hi < TWO_47;
    DivisionIsUnique(p, ONE_Q48, w.hi * TWO_16 + w.lo / ONE_Q48, w.lo % ONE_Q48);
  }

  /** Truncating quotient and remainder, as the source's `/` and `%` compute them. */
  function TruncDiv(a: int, b: int): int
    requires b != 0
  {
    var q := Size(a) / Size(b);
    if (a < 0) != (b < 0) then -q else q
  }

  function Size(x: int): nat {
    if x < 0 then -x else x
  }

  function TruncMod(a: int, b: int): int
    requires b != 0
  {
    a - TruncDiv(a, b) * b
  }

  /** The quotient rounded towards minus infinity. */
  function FloorOf(a: int, b: int): int
    requires b != 0
  {
    if b > 0 then a / b else (0 - a) / (0 - b)
  }

  /** The quotient rounded towards plus infinity. */
  function CeilOf(a: int, b: int): int
    requires b != 0
  {
    0 - FloorOf(0 - a, b)
  }

  predicate HasOppositeSign(r: int, b: int) {
    (r > 0 && b < 0) || (r < 0 && b > 0)
  }

  predicate HasSameSign(r: int, b: int) {
    (r > 0 && b > 0) || (r < 0 && b < 0)
  }

  /** Division towards minus infinity from the truncated quotient. Only the least number divided by -1
      wraps. */
  function FloorDiv(a: Int64, b: Int64): (d: Int64)
    requires b != 0
    ensures d == ToSigned(FloorOf(a, b))
    ensures b > 0 ==> d == a / b
  {
    RoundedFromTrunc(a, b);
    QuotientFits(a, b);
    ToSignedFits(TruncDiv(a, b));
    ToSignedFits(FloorOf(a, b));
    var d, r := ToSigned(TruncDiv(a, b)), TruncMod(a, b);
    if HasOppositeSign(r, b) then ToSigned(d - 1) else d
  }

  /** Division towards plus infinity from the truncated quotient. */
  function CeilDiv(a: Int64, b: Int64): (d: Int64)
    requires b != 0
    ensures d == ToSigned(CeilOf(a, b))
  {
    RoundedFromTrunc(a, b);
    QuotientFits(a, b);
    ToSignedFits(TruncDiv(a, b));
    var d, r := ToSigned(TruncDiv(a, b)), TruncMod(a, b);
    if HasSameSign(r, b) then ToSigned(d + 1) else d
  }

  lemma Negated(a: int, b: int)
    requires b != 0
    ensures TruncDiv(0 - a, b) == 0 - TruncDiv(a, b) && TruncDiv(a, 0 - b) == 0 - TruncDiv(a, b)
    ensures TruncMod(0 - a, b) == 0 - TruncMod(a, b) && TruncMod(a, 0 - b) == TruncMod(a, b)
  {
    assert Size(0 - a) == Size(a) && Size(0 - b) == Size(b);
    if a == 0 {
      NoQuotient(Size(b));
    }
    NegatedProduct(TruncDiv(a, b), b);
  }

  lemma NoQuotient(n: int)
    requires n > 0
    ensures 0 / n == 0
  {
  }

  lemma NegatedProduct(q: int, b: int)
    ensures (0 - q) * b == 0 - q * b && (0 - q) * (0 - b) == q * b
  {
  }

  /** The sign of the remainder says which way truncation went. */
  lemma RoundedFromTrunc(a: int, b: int)
    requires b != 0
    ensures FloorOf(a, b) == TruncDiv(a, b) - if HasOppositeSign(TruncMod(a, b), b) then 1 else 0
    ensures CeilOf(a, b) == TruncDiv(a, b) + if HasSameSign(TruncMod(a, b), b) then 1 else 0
  {
    Negated(a, b);
    Negated(0 - a, b);
    if b > 0 {
      FloorFromTrunc(a, b);
      FloorFromTrunc(0 - a, b);
    } else {
      FloorFromTrunc(0 - a, 0 - b);
      FloorFromTrunc(a, 0 - b);
    }
  }

  lemma QuotientFits(a: Int64, b: Int64)
    requires b != 0
    ensures FitsInt64(TruncDiv(a, b)) <==> !(a == INT64_MIN && b == -1)
    ensures !FitsInt64(TruncDiv(a, b)) ==> TruncMod(a, b) == 0
    ensures b > 0 ==> FitsInt64(a / b)
  {
    QuotientShrinks(Size(a), Size(b));
    if b > 0 {
      FloorFromTrunc(a, b);
    }
  }

  lemma QuotientShrinks(m: nat, n: nat)
    requires n > 0
    ensures 0 <= m / n <= m && (n == 1 ==> m / n == m) && (n > 1 && m > 0 ==> m / n < m)
  {
    QuotientIsSmaller(m, n, m / n, m % n);
    if n > 1 && m / n > 0 {
      Doubled(m / n, n);
    }
  }

  lemma Doubled(q: int, n: int)
    requires q > 0 && n > 1
    ensures n * q > q
  {
  }

  lemma FloorFromTrunc(a: int, b: int)
    requires b > 0
    ensures a / b == TruncDiv(a, b) + if TruncMod(a, b) < 0 then -1 else 0
    ensures if a < 0 then a <= a / b < 0 else 0 <= a / b <= a
  {
    var m := Size(a);
    assert Size(b) == b;
    Remainder(m, b);
    QuotientIsSmaller(m, b, m / b, m % b);
    NegatedProduct(m / b, b);
    if a < 0 {
      NegatedDivision(m, b);
      assert TruncDiv(a, b) == 0 - m / b;
    } else {
      assert TruncDiv(a, b) == m / b;
    }
  }

  lemma Remainder(m: nat, b: int)
    requires b > 0
    ensures m == m / b * b + m % b && 0 <= m % b < b
  {
  }

  lemma QuotientIsSmaller(m: int, n: int, k: int, s: int)
    requires n > 0 && m >= 0 && m == n * k + s && 0 <= s < n
    ensures 0 <= k <= m && (s > 0 ==> k < m)
  {
    if k < 0 {
      NegativeScaled(n, k);
    } else {
      assert n * k >= k;
    }
  }

  lemma NegativeScaled(n: int, k: int)
    requires n > 0 && k < 0
    ensures n * k <= -n
  {
  }

  lemma NegatedDivision(m: int, n: int)
    requires n > 0
    ensures (-m) / n == if m % n == 0 then -(m / n) else -(m / n) - 1
  {
    var k, s := m / n, m % n;
    if s == 0 {
      DivisionIsUnique(-m, n, -k, 0);
    } else {
      assert n * (-k - 1) == -(n * k) - n;
      DivisionIsUnique(-m, n, -k - 1, n - s);
    }
  }
}
