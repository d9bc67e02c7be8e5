/** What a sealed message consists of, byte by byte, as section 4 of RFC 8452 and section 2.6 of RFC 5297
    prescribe: which blocks are encrypted, and how the two uses of one cipher are kept apart. */
module SealingRules {
  import opened MachineInt
  import opened Polynomial
  import opened Bytes
  import opened Polyval
  import opened Cmac
  import GcmSiv
  import Siv

  /** The number in four bytes, the first byte the least. */
  function Little(s: seq<Byte>): nat
    requires |s| == 4
  {
    Value(s[0]) + 0x100 * Value(s[1]) + 0x1_0000 * Value(s[2]) + 0x100_0000 * Value(s[3])
  }

  function Value(b: Byte): nat {
    NatOf(BitsOfByte(b))
  }

  lemma {:induction false} NatOfConcat(a: Bits, b: Bits, unit: nat)
    requires unit == Power2(|a|)
    ensures NatOf(a + b) == NatOf(a) + unit * NatOf(b)
  {
    if a == [] {
      assert a + b == b;
    } else {
      var half := Power2(|a| - 1);
      NatOfConcat(a[1..], b, half);
      FirstBit(a, b);
      Doubled(NatOf((a + b)[1..]), NatOf(a[1..]), half, NatOf(b));
    }
  }

  lemma FirstBit(a: Bits, b: Bits)
    requires a != []
    ensures (a + b)[1..] == a[1..] + b
    ensures NatOf(a + b) == (if a[0] then 1 else 0) + 2 * NatOf((a + b)[1..])
  {
  }

  lemma Doubled(whole: nat, front: nat, half: nat, n: nat)
    requires whole == front + half * n
    ensures 2 * whole == 2 * front + (2 * half) * n
  {
  }

  lemma OneMoreByte(s: seq<Byte>, b: Byte, unit: nat)
    requires unit == Power2(8 * |s|)
    ensures NatOf(BitsOf(s + [b])) == NatOf(BitsOf(s)) + unit * Value(b)
  {
    BitsOfAppend(s, b);
    NatOfConcat(BitsOf(s), BitsOfByte(b), unit);
  }

  lemma Units()
    ensures Power2(0) == 1 && Power2(8) == 0x100 && Power2(16) == 0x1_0000 && Power2(24) == 0x100_0000
  {
    assert Power2(4) == 16;
    GcmSiv.Power2Sum(4, 4);
    GcmSiv.Power2Sum(8, 8);
    GcmSiv.Power2Sum(16, 8);
  }

  lemma LoadIsLittle(s: seq<Byte>)
    requires |s| == 4
    ensures GcmSiv.LoadCounter(s) == Little(s)
  {
    Units();
    assert s[..0] == [] && s[..1] == s[..0] + [s[0]] && s[..2] == s[..1] + [s[1]];
    assert s[..3] == s[..2] + [s[2]] && s == s[..3] + [s[3]];
    OneMoreByte(s[..0], s[0], 1);
    OneMoreByte(s[..1], s[1], 0x100);
    OneMoreByte(s[..2], s[2], 0x1_0000);
    OneMoreByte(s[..3], s[3], 0x100_0000);
  }

  lemma StoreIsLittle(n: nat)
    requires n < 0x1_0000_0000
    ensures Little(GcmSiv.StoreCounter(n)) == n
  {
    GcmSiv.PowerOf32();
    LoadIsLittle(GcmSiv.StoreCounter(n));
    BitsRoundTrip(BitsOfNat(n, 32));
    ValueOfBits(n, 32);
  }

  // ----- AES-GCM-SIV -----

  /** The block whose encryption is the tag: the hash with the nonce xored in and its top bit cleared. */
  ghost predicate IsTagBlock(keys: GcmSiv.Keys, nonce: seq<Byte>, text: seq<Byte>, ad: seq<Byte>, tag: seq<Byte>, b: Block)
    requires |nonce| == 12
  {
    && b[15] < 0x80 && tag == keys.encrypt(b)
    && exists hash: Block ::
         && IsTag(keys.auth, ad, text, hash)
         && (forall k :: 0 <= k < 12 ==> b[k] == hash[k] ^ nonce[k])
         && b[12..15] == hash[12..15] && b[15] == hash[15] & 0x7f
  }

  /** The block whose encryption hides the j-th sixteen bytes: the tag with its top bit set, and j added to
      its first four bytes. */
  ghost predicate HidesPart(encrypt: Block -> Block, tag: Block, text: seq<Byte>, c: seq<Byte>, j: nat, b: Block)
    requires |text| <= |c|
  {
    && b[15] == tag[15] | 0x80 && b[4..15] == tag[4..15]
    && Little(b[..4]) == (Little(tag[..4]) + j) % 0x1_0000_0000
    && forall k :: 0 <= k < 16 && 16 * j + k < |text| ==> c[16 * j + k] == text[16 * j + k] ^ encrypt(b)[k]
  }

  lemma Masks(x: Byte)
    ensures x & 0x7f < 0x80 <= x | 0x80
  {
  }

  /** A sealed message is the text hidden part by part, and the tag. */
  lemma SealedAsPrescribed(keys: GcmSiv.Keys, nonce: seq<Byte>, text: seq<Byte>, ad: seq<Byte>, c: seq<Byte>)
    requires |nonce| == 12 && GcmSiv.IsSealed(keys, nonce, text, ad, c)
    ensures |c| == |text| + 16
    ensures exists b: Block :: IsTagBlock(keys, nonce, text, ad, c[|text|..], b)
    ensures forall j: nat :: 16 * j < |text| ==> exists b: Block :: HidesPart(keys.encrypt, c[|text|..], text, c, j, b)
  {
    var hash: Block :| IsTag(keys.auth, ad, text, hash)
                       && c == GcmSiv.SealedWith(keys.encrypt, GcmSiv.MaskedTag(keys, nonce, hash), text);
    var tag := GcmSiv.MaskedTag(keys, nonce, hash);
    assert c[|text|..] == tag;
    TagIsOfBlock(keys, nonce, text, ad, hash);
    forall j: nat | 16 * j < |text|
      ensures exists b: Block :: HidesPart(keys.encrypt, tag, text, c, j, b)
    {
      PartIsHidden(keys.encrypt, tag, text, j);
    }
  }

  lemma TagIsOfBlock(keys: GcmSiv.Keys, nonce: seq<Byte>, text: seq<Byte>, ad: seq<Byte>, hash: Block)
    requires |nonce| == 12 && IsTag(keys.auth, ad, text, hash)
    ensures exists b: Block :: IsTagBlock(keys, nonce, text, ad, GcmSiv.MaskedTag(keys, nonce, hash), b)
  {
    var s: Block := XorBytes(hash[..12], nonce) + hash[12..];
    var b: Block := s[15 := s[15] & 0x7f];
    Masks(hash[15]);
    assert b[12..15] == hash[12..15];
    assert IsTagBlock(keys, nonce, text, ad, GcmSiv.MaskedTag(keys, nonce, hash), b);
  }

  lemma PartIsHidden(encrypt: Block -> Block, tag: Block, text: seq<Byte>, j: nat)
    requires 16 * j < |text|
    ensures exists b: Block :: HidesPart(encrypt, tag, text, GcmSiv.SealedWith(encrypt, tag, text), j, b)
  {
    var start := GcmSiv.CounterStart(tag);
    var b := GcmSiv.CounterBlock(start, j);
    var c := GcmSiv.SealedWith(encrypt, tag, text);
    CounterCounts(tag, start, j);
    forall k | 0 <= k < 16 && 16 * j + k < |text|
      ensures c[16 * j + k] == text[16 * j + k] ^ encrypt(b)[k]
    {
      GcmSiv.StreamedByte(encrypt, start, text, j, k);
    }
    assert HidesPart(encrypt, tag, text, c, j, b);
  }

  lemma CounterCounts(tag: Block, start: Block, j: nat)
    requires start == tag[15 := tag[15] | 0x80]
    ensures var b := GcmSiv.CounterBlock(start, j);
            && b[15] == tag[15] | 0x80 && b[4..15] == tag[4..15]
            && Little(b[..4]) == (Little(tag[..4]) + j) % 0x1_0000_0000
  {
    StartParts(tag, start);
    CounterValue(start, j);
    BlockParts(GcmSiv.StoreCounter(GcmSiv.CounterAt(GcmSiv.LoadCounter(start[..4]), j)), start, GcmSiv.CounterBlock(start, j));
  }

  lemma StartParts(tag: Block, start: Block)
    requires start == tag[15 := tag[15] | 0x80]
    ensures start[..4] == tag[..4] && start[4..15] == tag[4..15] && start[15] == tag[15] | 0x80
  {
  }

  lemma CounterValue(start: Block, j: nat)
    ensures Little(GcmSiv.StoreCounter(GcmSiv.CounterAt(GcmSiv.LoadCounter(start[..4]), j)))
            == (Little(start[..4]) + j) % 0x1_0000_0000
  {
    LoadIsLittle(start[..4]);
    StoreIsLittle(GcmSiv.CounterAt(GcmSiv.LoadCounter(start[..4]), j));
  }

  lemma BlockParts(head: seq<Byte>, start: Block, b: Block)
    requires |head| == 4 && b == head + start[4..]
    ensures b[..4] == head && b[4..15] == start[4..15] && b[15] == start[15]
  {
  }

  /** No block that is encrypted for a tag is one that is encrypted to hide a part. */
  lemma DomainsAreApart(keys: GcmSiv.Keys, nonce: seq<Byte>, text: seq<Byte>, ad: seq<Byte>, tag: Block, other: Block,
                        hidden: seq<Byte>, c: seq<Byte>, j: nat, a: Block, b: Block)
    requires |nonce| == 12 && |hidden| <= |c|
    requires IsTagBlock(keys, nonce, text, ad, tag, a) && HidesPart(keys.encrypt, other, hidden, c, j, b)
    ensures a != b
  {
    Masks(other[15]);
  }

  // ----- AES-SIV -----

  /** The code with the top bits of its third and fourth words cleared. */
  ghost predicate IsMasked(v: Block, iv: Block) {
    && iv[8] == v[8] & 0x7f && iv[12] == v[12] & 0x7f
    && forall k :: 0 <= k < 16 && k != 8 && k != 12 ==> iv[k] == v[k]
  }

  /** A sealed message is the code of its text, and the text under the keystream that starts at the masked
      code. */
  lemma SivSealedAsPrescribed(cipher: Block -> Block, ks: Siv.Keystream, nonce: seq<Byte>, text: seq<Byte>, ad: seq<Byte>)
    ensures var c := Siv.Sealed(cipher, ks, nonce, text, ad);
            && |c| == 16 + |text|
            && c[..16] == Siv.S2V(cipher, if nonce != [] then [ad, nonce] else if ad != [] then [ad] else [], text)
            && exists iv: Block :: IsMasked(c[..16], iv) && forall i :: 0 <= i < |text| ==> c[16 + i] == text[i] ^ ks(iv, i)
  {
    var c := Siv.Sealed(cipher, ks, nonce, text, ad);
    var v := Siv.S2V(cipher, Siv.Header(ad, nonce), text);
    assert c[..16] == v;
    assert IsMasked(v, Siv.NewIV(v));
  }

  /** The code of a text under associated data and a nonce, by section 2.4 of RFC 5297. */
  lemma S2VWrittenOut(cipher: Block -> Block, ad: seq<Byte>, nonce: seq<Byte>, text: seq<Byte>)
    requires nonce != []
    ensures var d1 := XorBlock(Double(Mac(cipher, ZERO_BLOCK)), Mac(cipher, ad));
            var d2 := XorBlock(Double(d1), Mac(cipher, nonce));
            Siv.S2V(cipher, [ad, nonce], text) ==
              if |text| >= 16 then Mac(cipher, text[..|text| - 16] + XorBytes(text[|text| - 16..], d2))
              else Mac(cipher, XorBlock(Double(d2), PadTo(text + [0x80], 16)))
  {
    var d0 := Mac(cipher, ZERO_BLOCK);
    assert [ad, nonce][1..] == [nonce] && [nonce][1..] == [];
    assert Siv.Accumulated(cipher, d0, [ad, nonce]) == Siv.Accumulated(cipher, Siv.Mixed(cipher, d0, ad), [nonce]);
  }

  // ----- what POLYVAL hashes last -----

  /** The last block holds the two lengths in bits, that of the associated data first. */
  lemma LengthBlockIs(ad: seq<Byte>, text: seq<Byte>)
    requires |ad| < 0x2000_0000_0000_0000 && |text| < 0x2000_0000_0000_0000
    ensures |LengthBlock(ad, text)| == 128
    ensures NatOf(LengthBlock(ad, text)[..64]) == 8 * |ad| && NatOf(LengthBlock(ad, text)[64..]) == 8 * |text|
    ensures HashBlocks(ad, text) == PaddedBlocks(ad) + PaddedBlocks(text) + [LengthBlock(ad, text)]
  {
    GcmSiv.PowerOf32();
    GcmSiv.Power2Sum(32, 32);
    ValueOfBits(8 * |ad|, 64);
    ValueOfBits(8 * |text|, 64);
  }
}
