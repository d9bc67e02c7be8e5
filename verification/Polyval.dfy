/** POLYVAL of RFC 8452: carry-less multiplication of 64-bit words, reduction in two folds, and
    the hash over padded blocks. A word is its 64 bits, least significant first. */
module Polyval {
  import opened Polynomial
  import opened Bytes

  type Word = w: Bits | |w| == 64 witness seq(64, _ => false)

  const ZERO_WORD: Word := seq(64, _ => false)

  function Xor(a: Word, b: Word): (c: Word)
    ensures forall e :: At(c, e) == (At(a, e) != At(b, e))
  {
    XorBits(a, b)
  }

  function And(a: Word, b: Word): (c: Word)
    ensures forall e :: At(c, e) == (At(a, e) && At(b, e))
  {
    seq(64, i requires 0 <= i < 64 => a[i] && b[i])
  }

  function Or(a: Word, b: Word): (c: Word)
    ensures forall e :: At(c, e) == (At(a, e) || At(b, e))
  {
    seq(64, i requires 0 <= i < 64 => a[i] || b[i])
  }

  function ShiftRight(a: Word): (c: Word)
    ensures forall e :: 0 <= e ==> At(c, e) == At(a, e + 1)
  {
    a[1..] + [false]
  }

  /** The word ^(bit - 1): all ones or all zeros. */
  function Fill(bit: bool): Word {
    seq(64, _ => bit)
  }

  const TOP_BIT: Word := seq(64, i => i == 63)
  const LOW_MASK: Word := seq(64, i => i < 32)
  const HIGH_MASK: Word := seq(64, i => i >= 32)
  const POLYVAL_MASK: Word := seq(64, i => i == 57 || i == 62 || i == 63)

  /** The two words as one polynomial. */
  function Wide(d0: Word, d1: Word): (w: Bits)
    ensures |w| == 128
  {
    d0 + d1
  }

  /** The carry-less product of two words. */
  method UMul64(src1: Word, src2: Word) returns (d0: Word, d1: Word)
    ensures forall e :: At(Wide(d0, d1), e) == Product(src1, src2, e)
  {
    d0, d1 := ZERO_WORD, ZERO_WORD;
    for i := 0 to 64
      invariant forall e :: 0 <= e ==> At(Wide(d0, d1), e) == ProductTo(src1, src2, i, e - 64 + i)
    {
      ghost var before := Wide(d0, d1);
      d1 := Xor(d1, And(Fill(src2[i]), src1));
      ghost var raised := Wide(d0, d1);
      d0 := ShiftRight(d0);
      d0 := Xor(d0, And(Fill(d1[0]), TOP_BIT));
      d1 := ShiftRight(d1);
      forall e | 0 <= e
        ensures At(Wide(d0, d1), e) == ProductTo(src1, src2, i + 1, e - 64 + (i + 1))
      {
        assert At(Wide(d0, d1), e) == At(raised, e + 1);
        assert At(raised, e + 1) == (At(before, e + 1) != (src2[i] && At(src1, e + 1 - 64)));
      }
    }
    forall e
      ensures At(Wide(d0, d1), e) == Product(src1, src2, e)
    {
      if e < 0 {
        ProductDegree(src1, src2, 64, e);
      }
    }
  }

  lemma MaskedParts(w: Word)
    ensures Or(And(w, LOW_MASK), And(w, HIGH_MASK)) == w
  {
    var m := Or(And(w, LOW_MASK), And(w, HIGH_MASK));
    forall i | 0 <= i < 64
      ensures m[i] == w[i]
    {
      assert At(m, i) == At(w, i);
    }
  }

  /** The product with the mask is three shifted copies. */
  lemma {:induction false} MaskProduct(w: Word, n: nat, e: int)
    requires n <= 64
    ensures ProductTo(POLYVAL_MASK, w, n, e) ==
            ((At(w[..n], e - 57) != At(w[..n], e - 62)) != At(w[..n], e - 63))
  {
    if n > 0 {
      MaskProduct(w, n - 1, e);
      assert forall i :: At(w[..n], i) == if i == n - 1 then w[n - 1] else At(w[..n - 1], i);
    }
  }

  /** One reduction step: with A = t0 + t1 x^64, the new pair A' satisfies
      x^64 A' == A + t0 (x^128 + x^127 + x^126 + x^121 + 1). */
  ghost predicate Folds(t0: Word, t1: Word, s0: Word, s1: Word) {
    forall e :: At(Wide(s0, s1), e - 64) == (At(Wide(t0, t1), e) != TimesModulus(t0, e))
  }

  method Fold(t0: Word, t1: Word) returns (s0: Word, s1: Word)
    ensures Folds(t0, t1, s0, s1)
  {
    var m0, m1 := UMul64(POLYVAL_MASK, t0);
    var l := Or(And(t1, LOW_MASK), And(t1, HIGH_MASK));
    var h := Or(And(t0, LOW_MASK), And(t0, HIGH_MASK));
    s0 := Xor(m0, l);
    s1 := Xor(m1, h);
    MaskedParts(t0);
    MaskedParts(t1);
    forall e
      ensures At(Wide(s0, s1), e - 64) == (At(Wide(t0, t1), e) != TimesModulus(t0, e))
    {
      MaskProduct(t0, 64, e - 64);
      assert t0[..64] == t0;
      AtConcat(s0, s1, e - 64);
      AtConcat(m0, m1, e - 64);
      AtConcat(t0, t1, e);
      assert At(Wide(m0, m1), e - 64) == Product(POLYVAL_MASK, t0, e - 64);
      assert At(Wide(s0, s1), e - 64) == (At(Wide(m0, m1), e - 64) != (At(t1, e - 64) != At(t0, e - 128)));
    }
  }

  /** The 256-bit product of two 128-bit polynomials, as four words. */
  ghost predicate IsFullProduct(r: Bits, h: Bits, t00: Word, t01: Word, t30: Word, t31: Word) {
    forall e :: Product(r, h, e) == (At(Wide(t00, t01), e) != At(Wide(t30, t31), e - 128))
  }

  method FullProduct(r0: Word, r1: Word, h0: Word, h1: Word) returns (t00: Word, t01: Word, t30: Word, t31: Word)
    ensures IsFullProduct(Wide(r0, r1), Wide(h0, h1), t00, t01, t30, t31)
  {
    var a00, a01 := UMul64(r0, h0);
    var t10, t11 := UMul64(r1, h0);
    var t20, t21 := UMul64(r0, h1);
    var a30, a31 := UMul64(r1, h1);
    ghost var b10, b11 := t10, t11;
    t10 := Xor(t10, t20);
    t11 := Xor(t11, t21);
    t00, t01 := a00, Xor(a01, t10);
    t30, t31 := Xor(a30, t11), a31;
    forall e
      ensures Product(Wide(r0, r1), Wide(h0, h1), e) == (At(Wide(t00, t01), e) != At(Wide(t30, t31), e - 128))
    {
      ProductOfHalves(r0, r1, h0, h1, e);
      AtConcat(a00, a01, e);
      AtConcat(b10, b11, e - 64);
      AtConcat(t20, t21, e - 64);
      AtConcat(a30, a31, e - 128);
      AtConcat(t00, t01, e);
      AtConcat(t30, t31, e - 128);
    }
  }

  /** Two folds reduce the full product. */
  lemma FoldsReduce(r: Bits, h: Bits, t00: Word, t01: Word, t30: Word, t31: Word,
                    u0: Word, u1: Word, v0: Word, v1: Word)
    requires IsFullProduct(r, h, t00, t01, t30, t31) && Folds(t00, t01, u0, u1) && Folds(u0, u1, v0, v1)
    ensures IsDot(r, h, Wide(Xor(t30, v0), Xor(t31, v1)))
  {
    var s, q := Wide(Xor(t30, v0), Xor(t31, v1)), Wide(t00, u0);
    forall e
      ensures At(s, e - 128) == (Product(r, h, e) != TimesModulus(q, e))
    {
      AtConcat(Xor(t30, v0), Xor(t31, v1), e - 128);
      AtConcat(t30, t31, e - 128);
      AtConcat(v0, v1, e - 128);
      assert At(s, e - 128) == (At(Wide(t30, t31), e - 128) != At(Wide(v0, v1), e - 128));
      assert At(Wide(v0, v1), (e - 64) - 64) == (At(Wide(u0, u1), e - 64) != TimesModulus(u0, e - 64));
      assert At(Wide(u0, u1), e - 64) == (At(Wide(t00, t01), e) != TimesModulus(t00, e));
      ModulusOfHalves(t00, u0, e);
    }
    assert ReducedBy(r, h, s, q);
  }

  lemma ModulusOfHalves(q0: Word, q1: Word, e: int)
    ensures TimesModulus(Wide(q0, q1), e) == (TimesModulus(q0, e) != TimesModulus(q1, e - 64))
  {
    AtConcat(q0, q1, e);
    AtConcat(q0, q1, e - 121);
    AtConcat(q0, q1, e - 126);
    AtConcat(q0, q1, e - 127);
    AtConcat(q0, q1, e - 128);
  }

  // ----- the product as a function -----

  function ProductWord(r: Bits, h: Bits, j: nat): Word {
    seq(64, i => Product(r, h, 64 * j + i))
  }

  lemma WordsOfProduct(r: Bits, h: Bits)
    requires |r| == 128 && |h| == 128
    ensures IsFullProduct(r, h, ProductWord(r, h, 0), ProductWord(r, h, 1), ProductWord(r, h, 2), ProductWord(r, h, 3))
  {
    forall e
      ensures Product(r, h, e) == (At(Wide(ProductWord(r, h, 0), ProductWord(r, h, 1)), e)
                                   != At(Wide(ProductWord(r, h, 2), ProductWord(r, h, 3)), e - 128))
    {
      AtConcat(ProductWord(r, h, 0), ProductWord(r, h, 1), e);
      AtConcat(ProductWord(r, h, 2), ProductWord(r, h, 3), e - 128);
      if e < 0 || e >= 256 {
        ProductDegree(r, h, 128, e);
      }
    }
  }

  function FoldedWord(t0: Word, t1: Word, j: nat): Word {
    seq(64, i => At(Wide(t0, t1), 64 * j + i) != TimesModulus(t0, 64 * j + i))
  }

  lemma WordsOfFold(t0: Word, t1: Word)
    ensures Folds(t0, t1, FoldedWord(t0, t1, 1), FoldedWord(t0, t1, 2))
  {
    forall e
      ensures At(Wide(FoldedWord(t0, t1, 1), FoldedWord(t0, t1, 2)), e - 64) == (At(Wide(t0, t1), e) != TimesModulus(t0, e))
    {
      AtConcat(FoldedWord(t0, t1, 1), FoldedWord(t0, t1, 2), e - 64);
      AtConcat(t0, t1, e);
    }
  }

  /** The field product of section 3 of RFC 8452. */
  function Dot(r: Bits, h: Bits): (s: Bits)
    ensures |s| == 128
  {
    var t0, t1 := ProductWord(r, h, 0), ProductWord(r, h, 1);
    var u0, u1 := FoldedWord(t0, t1, 1), FoldedWord(t0, t1, 2);
    Wide(Xor(ProductWord(r, h, 2), FoldedWord(u0, u1, 1)), Xor(ProductWord(r, h, 3), FoldedWord(u0, u1, 2)))
  }

  /** There is exactly one product. */
  lemma DotIsProduct(r: Bits, h: Bits, s: Bits)
    requires |r| == 128 && |h| == 128
    ensures IsDot(r, h, s) <==> s == Dot(r, h)
  {
    var t0, t1 := ProductWord(r, h, 0), ProductWord(r, h, 1);
    var u0, u1 := FoldedWord(t0, t1, 1), FoldedWord(t0, t1, 2);
    WordsOfProduct(r, h);
    WordsOfFold(t0, t1);
    WordsOfFold(u0, u1);
    FoldsReduce(r, h, t0, t1, ProductWord(r, h, 2), ProductWord(r, h, 3), u0, u1, FoldedWord(u0, u1, 1), FoldedWord(u0, u1, 2));
    if IsDot(r, h, s) {
      DotIsUnique(r, h, s, Dot(r, h));
    }
  }

  /** Multiplies the running hash by the key, in place: r becomes r * h * x^-128. */
  method Multiply(r: array<Word>, h0: Word, h1: Word)
    requires r.Length == 2
    modifies r
    ensures IsDot(old(Wide(r[0], r[1])), Wide(h0, h1), Wide(r[0], r[1]))
  {
    var t00, t01, t30, t31 := FullProduct(r[0], r[1], h0, h1);
    var u0, u1 := Fold(t00, t01);
    var v0, v1 := Fold(u0, u1);
    FoldsReduce(Wide(r[0], r[1]), Wide(h0, h1), t00, t01, t30, t31, u0, u1, v0, v1);
    r[0] := Xor(t30, v0);
    r[1] := Xor(t31, v1);
  }

  // ----- the hash -----

  /** One step of the hash: s = dot(p + x, H). */
  ghost predicate Mixes(h: Bits, p: Bits, x: Bits, s: Bits) {
    |p| == 128 && |x| == 128 && IsDot(XorBits(p, x), h, s)
  }

  ghost predicate MixesAt(h: Bits, blocks: seq<Bits>, states: seq<Bits>, i: nat) {
    i < |blocks| && i + 1 < |states| && Mixes(h, states[i], blocks[i], states[i + 1])
  }

  ghost predicate IsZero(s: Bits) {
    |s| == 128 && forall i :: 0 <= i < 128 ==> !s[i]
  }

  /** The successive hashes: S_0 = 0, S_j = dot(S_{j-1} + X_j, H). */
  ghost predicate IsTrace(h: Bits, blocks: seq<Bits>, states: seq<Bits>) {
    && |states| == |blocks| + 1
    && IsZero(states[0])
    && forall i: nat :: i < |blocks| ==> MixesAt(h, blocks, states, i)
  }

  /** `s` is the hash of the blocks under the key `h`. */
  ghost predicate IsPolyval(h: Bits, blocks: seq<Bits>, s: Bits) {
    exists states: seq<Bits> :: IsTrace(h, blocks, states) && states[|blocks|] == s
  }

  lemma {:induction false} TraceIsUnique(h: Bits, blocks: seq<Bits>, x: seq<Bits>, y: seq<Bits>, n: nat)
    requires IsTrace(h, blocks, x) && IsTrace(h, blocks, y) && n <= |blocks|
    ensures x[n] == y[n]
  {
    if n == 0 {
      assert x[0] == y[0];
    } else {
      TraceIsUnique(h, blocks, x, y, n - 1);
      assert MixesAt(h, blocks, x, n - 1) && MixesAt(h, blocks, y, n - 1);
      DotIsUnique(XorBits(x[n - 1], blocks[n - 1]), h, x[n], y[n]);
    }
  }

  /** The hash is a function of the key and the blocks. */
  lemma PolyvalIsUnique(h: Bits, blocks: seq<Bits>, s: Bits, t: Bits)
    requires IsPolyval(h, blocks, s) && IsPolyval(h, blocks, t)
    ensures s == t
  {
    var x: seq<Bits> :| IsTrace(h, blocks, x) && x[|blocks|] == s;
    var y: seq<Bits> :| IsTrace(h, blocks, y) && y[|blocks|] == t;
    TraceIsUnique(h, blocks, x, y, |blocks|);
  }

  lemma NextState(h: Bits, blocks: seq<Bits>, p: Bits, x: Bits, s: Bits)
    requires IsPolyval(h, blocks, p) && Mixes(h, p, x, s)
    ensures IsPolyval(h, blocks + [x], s)
  {
    var states: seq<Bits> :| IsTrace(h, blocks, states) && states[|blocks|] == p;
    var longer := states + [s];
    forall i: nat | i < |blocks + [x]|
      ensures MixesAt(h, blocks + [x], longer, i)
    {
      if i < |blocks| {
        assert MixesAt(h, blocks, states, i);
      }
    }
    assert IsTrace(h, blocks + [x], longer);
  }

  predicate AreBlocks(blocks: seq<Bits>) {
    forall b <- blocks :: |b| == 128
  }

  /** The hash of the first `n` blocks, as a function. */
  function Hash(h: Bits, blocks: seq<Bits>, n: nat): (s: Bits)
    requires n <= |blocks| && |h| == 128 && AreBlocks(blocks)
    ensures |s| == 128
  {
    if n == 0 then seq(128, _ => false) else Dot(XorBits(Hash(h, blocks, n - 1), blocks[n - 1]), h)
  }

  lemma {:induction false} HashIsPolyval(h: Bits, blocks: seq<Bits>, n: nat)
    requires n <= |blocks| && |h| == 128 && AreBlocks(blocks)
    ensures IsPolyval(h, blocks[..n], Hash(h, blocks, n))
  {
    if n == 0 {
      assert IsTrace(h, [], [Hash(h, blocks, 0)]);
      assert blocks[..0] == [];
    } else {
      HashIsPolyval(h, blocks, n - 1);
      var p, x := Hash(h, blocks, n - 1), blocks[n - 1];
      DotIsProduct(XorBits(p, x), h, Hash(h, blocks, n));
      NextState(h, blocks[..n - 1], p, x, Hash(h, blocks, n));
      assert blocks[..n] == blocks[..n - 1] + [x];
    }
  }

  /** Every sequence of blocks has exactly one hash. */
  lemma PolyvalIsHash(h: Bits, blocks: seq<Bits>, s: Bits)
    requires |h| == 128 && AreBlocks(blocks)
    ensures IsPolyval(h, blocks, s) <==> s == Hash(h, blocks, |blocks|)
  {
    HashIsPolyval(h, blocks, |blocks|);
    assert blocks[..|blocks|] == blocks;
    if IsPolyval(h, blocks, s) {
      PolyvalIsUnique(h, blocks, s, Hash(h, blocks, |blocks|));
    }
  }

  /** The string cut into 16-byte blocks, the last one padded with zeros. */
  function PaddedBlocks(s: seq<Byte>): seq<Bits> {
    if |s| == 0 then []
    else if |s| <= 16 then [BitsOf(PadTo(s, 16))]
    else [BitsOf(s[..16])] + PaddedBlocks(s[16..])
  }

  function LengthBlock(ad: seq<Byte>, pt: seq<Byte>): Bits {
    BitsOfNat(8 * |ad|, 64) + BitsOfNat(8 * |pt|, 64)
  }

  function HashBlocks(ad: seq<Byte>, pt: seq<Byte>): seq<Bits> {
    PaddedBlocks(ad) + PaddedBlocks(pt) + [LengthBlock(ad, pt)]
  }

  function LoadWord(s: seq<Byte>): Word
    requires |s| == 8
  {
    BitsOf(s)
  }

  method AbsorbBlock(r: array<Word>, h0: Word, h1: Word, w0: Word, w1: Word, ghost done: seq<Bits>)
    requires r.Length == 2 && IsPolyval(Wide(h0, h1), done, Wide(r[0], r[1]))
    modifies r
    ensures IsPolyval(Wide(h0, h1), done + [Wide(w0, w1)], Wide(r[0], r[1]))
  {
    ghost var p := Wide(r[0], r[1]);
    r[0] := Xor(r[0], w0);
    r[1] := Xor(r[1], w1);
    ghost var mixed := Wide(r[0], r[1]);
    assert mixed == XorBits(p, Wide(w0, w1)) by {
      forall i | 0 <= i < 128
        ensures mixed[i] == XorBits(p, Wide(w0, w1))[i]
      {
      }
    }
    Multiply(r, h0, h1);
    NextState(Wide(h0, h1), done, p, Wide(w0, w1), Wide(r[0], r[1]));
  }

  method AbsorbString(r: array<Word>, h0: Word, h1: Word, data: seq<Byte>, ghost done: seq<Bits>)
    requires r.Length == 2 && IsPolyval(Wide(h0, h1), done, Wide(r[0], r[1]))
    modifies r
    ensures IsPolyval(Wide(h0, h1), done + PaddedBlocks(data), Wide(r[0], r[1]))
  {
    var rest := data;
    ghost var taken := done;
    while |rest| >= 16
      invariant IsPolyval(Wide(h0, h1), taken, Wide(r[0], r[1]))
      invariant taken + PaddedBlocks(rest) == done + PaddedBlocks(data)
      decreases |rest|
    {
      BitsOfConcat(rest[..8], rest[8..16]);
      assert rest[..8] + rest[8..16] == rest[..16];
      AbsorbBlock(r, h0, h1, LoadWord(rest[..8]), LoadWord(rest[8..16]), taken);
      FirstBlock(rest);
      taken := taken + [BitsOf(rest[..16])];
      rest := rest[16..];
    }
    if |rest| > 0 {
      var buffer := PadTo(rest, 16);
      BitsOfConcat(buffer[..8], buffer[8..16]);
      assert buffer[..8] + buffer[8..16] == buffer;
      AbsorbBlock(r, h0, h1, LoadWord(buffer[..8]), LoadWord(buffer[8..16]), taken);
    } else {
      assert taken + PaddedBlocks(rest) == taken;
    }
  }

  lemma FirstBlock(s: seq<Byte>)
    requires |s| >= 16
    ensures PaddedBlocks(s) == [BitsOf(s[..16])] + PaddedBlocks(s[16..])
  {
    if |s| == 16 {
      assert PadTo(s, 16) == s == s[..16];
    }
  }

  /** `tag` is the hash of the padded data, the padded text and the length block. */
  ghost predicate IsTag(key: Block, ad: seq<Byte>, pt: seq<Byte>, tag: Block) {
    IsPolyval(BitsOf(key), HashBlocks(ad, pt), BitsOf(tag))
  }

  /** There is one tag. */
  lemma TagIsUnique(key: Block, ad: seq<Byte>, pt: seq<Byte>, tag: Block, other: Block)
    requires IsTag(key, ad, pt, tag) && IsTag(key, ad, pt, other)
    ensures tag == other
  {
    PolyvalIsUnique(BitsOf(key), HashBlocks(ad, pt), BitsOf(tag), BitsOf(other));
    BytesRoundTrip(tag);
    BytesRoundTrip(other);
  }

  lemma {:induction false} PaddedAreBlocks(s: seq<Byte>)
    ensures AreBlocks(PaddedBlocks(s))
  {
    if |s| > 16 {
      PaddedAreBlocks(s[16..]);
    }
  }

  lemma HashedAreBlocks(ad: seq<Byte>, pt: seq<Byte>)
    ensures AreBlocks(HashBlocks(ad, pt))
  {
    PaddedAreBlocks(ad);
    PaddedAreBlocks(pt);
  }

  /** The tag as a function. */
  function TagFor(key: Block, ad: seq<Byte>, pt: seq<Byte>): (tag: Block) {
    HashedAreBlocks(ad, pt);
    BytesOf(Hash(BitsOf(key), HashBlocks(ad, pt), |HashBlocks(ad, pt)|))
  }

  lemma TagIsTagFor(key: Block, ad: seq<Byte>, pt: seq<Byte>, tag: Block)
    ensures IsTag(key, ad, pt, tag) <==> tag == TagFor(key, ad, pt)
  {
    HashedAreBlocks(ad, pt);
    var blocks := HashBlocks(ad, pt);
    var hash := Hash(BitsOf(key), blocks, |blocks|);
    PolyvalIsHash(BitsOf(key), blocks, BitsOf(tag));
    BitsRoundTrip(hash);
    BytesRoundTrip(tag);
  }

  lemma StartsAtZero(h: Bits)
    ensures IsPolyval(h, [], Wide(ZERO_WORD, ZERO_WORD))
  {
    assert IsTrace(h, [], [Wide(ZERO_WORD, ZERO_WORD)]);
  }

  lemma BlockOfWords(w0: Word, w1: Word)
    ensures BitsOf(BytesOf(w0) + BytesOf(w1)) == Wide(w0, w1)
  {
    BitsOfConcat(BytesOf(w0), BytesOf(w1));
    BitsRoundTrip(w0);
    BitsRoundTrip(w1);
  }

  /** The POLYVAL tag of section 3 of RFC 8452 over the padded data and the length block. */
  method ComputePolyval(ad: seq<Byte>, pt: seq<Byte>, key: Block) returns (tag: Block)
    ensures IsTag(key, ad, pt, tag)
  {
    var r := new Word[2](_ => ZERO_WORD);
    var h0, h1 := LoadWord(key[..8]), LoadWord(key[8..]);
    BitsOfConcat(key[..8], key[8..]);
    assert key[..8] + key[8..] == key;
    StartsAtZero(Wide(h0, h1));
    AbsorbString(r, h0, h1, ad, []);
    assert [] + PaddedBlocks(ad) == PaddedBlocks(ad);
    AbsorbString(r, h0, h1, pt, PaddedBlocks(ad));
    AbsorbBlock(r, h0, h1, BitsOfNat(8 * |ad|, 64), BitsOfNat(8 * |pt|, 64), PaddedBlocks(ad) + PaddedBlocks(pt));
    tag := BytesOf(r[0]) + BytesOf(r[1]);
    BlockOfWords(r[0], r[1]);
  }
}
