/** Polynomials over GF(2) as bit sequences, least significant coefficient first. */
module Polynomial {
  type Bits = seq<bool>

  /** The coefficient of x^e; zero outside the sequence. */
  function At(a: Bits, e: int): bool {
    0 <= e < |a| && a[e]
  }

  /** The first `n` terms of the coefficient of x^e in a * b: the carry-less product. */
  function ProductTo(a: Bits, b: Bits, n: nat, e: int): bool
    requires n <= |b|
  {
    if n == 0 then false
    else ProductTo(a, b, n - 1, e) != (b[n - 1] && At(a, e - (n - 1)))
  }

  function Product(a: Bits, b: Bits, e: int): bool {
    ProductTo(a, b, |b|, e)
  }

  lemma AtConcat(a: Bits, b: Bits, e: int)
    ensures At(a + b, e) == (At(a, e) != At(b, e - |a|))
  {
  }

  lemma {:induction false} ProductSplitsLeft(a0: Bits, a1: Bits, b: Bits, n: nat, e: int)
    requires n <= |b|
    ensures ProductTo(a0 + a1, b, n, e) == (ProductTo(a0, b, n, e) != ProductTo(a1, b, n, e - |a0|))
  {
    if n > 0 {
      ProductSplitsLeft(a0, a1, b, n - 1, e);
      AtConcat(a0, a1, e - (n - 1));
    }
  }

  lemma {:induction false} ProductPrefix(a: Bits, b0: Bits, b1: Bits, n: nat, e: int)
    requires n <= |b0|
    ensures ProductTo(a, b0 + b1, n, e) == ProductTo(a, b0, n, e)
  {
    if n > 0 {
      ProductPrefix(a, b0, b1, n - 1, e);
    }
  }

  lemma {:induction false} ProductSplitsRight(a: Bits, b0: Bits, b1: Bits, n: nat, e: int)
    requires n <= |b1|
    ensures ProductTo(a, b0 + b1, |b0| + n, e) == (Product(a, b0, e) != ProductTo(a, b1, n, e - |b0|))
  {
    if n == 0 {
      ProductPrefix(a, b0, b1, |b0|, e);
    } else {
      ProductSplitsRight(a, b0, b1, n - 1, e);
      assert (b0 + b1)[|b0| + n - 1] == b1[n - 1];
    }
  }

  /** Schoolbook multiplication of two-part operands. */
  lemma ProductOfHalves(a0: Bits, a1: Bits, b0: Bits, b1: Bits, e: int)
    ensures Product(a0 + a1, b0 + b1, e) ==
            ((Product(a0, b0, e) != Product(a1, b0, e - |a0|))
             != (Product(a0, b1, e - |b0|) != Product(a1, b1, e - |b0| - |a0|)))
  {
    ProductSplitsRight(a0 + a1, b0, b1, |b1|, e);
    ProductSplitsLeft(a0, a1, b0, |b0|, e);
    ProductSplitsLeft(a0, a1, b1, |b1|, e - |b0|);
  }

  /** A product has no terms above the sum of the degrees. */
  lemma {:induction false} ProductDegree(a: Bits, b: Bits, n: nat, e: int)
    requires n <= |b| && (e < 0 || e >= |a| + n - 1)
    ensures !ProductTo(a, b, n, e)
  {
    if n > 0 {
      ProductDegree(a, b, n - 1, e);
    }
  }

  // ----- reduction modulo x^128 + x^127 + x^126 + x^121 + 1 -----

  /** The coefficient of x^e in q times the modulus. */
  function TimesModulus(q: Bits, e: int): bool {
    (At(q, e) != At(q, e - 121)) != ((At(q, e - 126) != At(q, e - 127)) != At(q, e - 128))
  }

  /** x^128 * r == a * b + q * modulus, coefficient by coefficient. */
  ghost predicate ReducedBy(a: Bits, b: Bits, r: Bits, q: Bits) {
    forall e :: At(r, e - 128) == (Product(a, b, e) != TimesModulus(q, e))
  }

  /** `r` is a * b * x^-128 modulo the field polynomial: the `dot` of section 3 of RFC 8452. */
  ghost predicate IsDot(a: Bits, b: Bits, r: Bits) {
    |r| == 128 && exists q: Bits :: ReducedBy(a, b, r, q)
  }

  function XorBits(a: Bits, b: Bits): (c: Bits)
    requires |a| == |b|
    ensures |c| == |a|
    ensures forall e :: At(c, e) == (At(a, e) != At(b, e))
  {
    seq(|a|, i requires 0 <= i < |a| => a[i] != b[i])
  }

  /** If a multiple of the modulus equals x^128 * d, then its low coefficients vanish ... */
  lemma {:induction false} NoLowTerms(k: Bits, d: Bits, e: int)
    requires forall i :: TimesModulus(k, i) == At(d, i - 128)
    requires e < 128
    ensures !At(k, e)
    decreases if e < 0 then 0 else e + 1
  {
    if e >= 0 {
      NoLowTerms(k, d, e - 121);
      NoLowTerms(k, d, e - 126);
      NoLowTerms(k, d, e - 127);
      NoLowTerms(k, d, e - 128);
      assert TimesModulus(k, e) == At(d, e - 128);
    }
  }

  /** ... and, counting down from its end, so do the others. */
  lemma {:induction false} NoHighTerms(k: Bits, d: Bits, e: int)
    requires forall i :: TimesModulus(k, i) == At(d, i - 128)
    requires |d| <= 128 <= e
    ensures !At(k, e)
    decreases if e >= |k| then 0 else |k| - e
  {
    if e < |k| {
      NoHighTerms(k, d, e + 128);
      NoHighTerms(k, d, e + 7);
      NoHighTerms(k, d, e + 2);
      NoHighTerms(k, d, e + 1);
      assert TimesModulus(k, e + 128) == At(d, e);
    }
  }

  /** The reduced product is unique. */
  lemma DotIsUnique(a: Bits, b: Bits, r: Bits, s: Bits)
    requires IsDot(a, b, r) && IsDot(a, b, s)
    ensures r == s
  {
    var q :| ReducedBy(a, b, r, q);
    var p :| ReducedBy(a, b, s, p);
    var n := if |q| > |p| then |q| else |p|;
    var k := XorBits(Padded(q, n), Padded(p, n));
    var d := XorBits(r, s);
    forall i
      ensures TimesModulus(k, i) == At(d, i - 128)
    {
      assert At(r, i - 128) == (Product(a, b, i) != TimesModulus(q, i));
      assert At(s, i - 128) == (Product(a, b, i) != TimesModulus(p, i));
    }
    forall i | 0 <= i < 128
      ensures r[i] == s[i]
    {
      forall e
        ensures !At(k, e)
      {
        if e < 128 {
          NoLowTerms(k, d, e);
        } else {
          NoHighTerms(k, d, e);
        }
      }
      assert TimesModulus(k, i + 128) == At(d, i);
    }
  }

  function Padded(a: Bits, n: nat): (c: Bits)
    requires n >= |a|
    ensures |c| == n && forall e :: At(c, e) == At(a, e)
  {
    a + seq(n - |a|, _ => false)
  }
}
