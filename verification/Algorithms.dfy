/** The two registered algorithms as the packets use them: both are what the packet code takes an
    authenticated encryption for. Ciphers and key derivation are arbitrary functions. */
module Algorithms {
  import opened MachineInt
  import opened Outcomes
  import opened Octets
  import opened Bytes
  import opened Extension
  import opened Budget
  import opened Packet
  import Siv
  import GcmSiv
  import Polyval

  // ----- octets and bytes -----

  function AsByte(x: Octet): Byte {
    ByteOfBits(BitsOfNat(x, 8))
  }

  function AsOctet(b: Byte): Octet {
    ByteIsSmall();
    NatOf(BitsOfByte(b))
  }

  lemma ByteIsSmall()
    ensures Power2(8) == 256
  {
    assert Power2(4) == 16;
  }

  function AsBytes(s: seq<Octet>): (b: seq<Byte>)
    ensures |b| == |s|
  {
    seq(|s|, i requires 0 <= i < |s| => AsByte(s[i]))
  }

  function AsOctets(b: seq<Byte>): (s: seq<Octet>)
    ensures |s| == |b|
  {
    seq(|b|, i requires 0 <= i < |b| => AsOctet(b[i]))
  }

  lemma OctetRoundTrip(x: Octet)
    ensures AsOctet(AsByte(x)) == x
  {
    ByteIsSmall();
    ValueOfBits(x, 8);
    ByteBits(BitsOfNat(x, 8));
  }

  lemma OneByteRoundTrip(b: Byte)
    ensures AsByte(AsOctet(b)) == b
  {
    NatRoundTrip(BitsOfByte(b));
    ByteRoundTrip(b);
  }

  lemma OctetsRoundTrip(s: seq<Octet>)
    ensures AsOctets(AsBytes(s)) == s
  {
    forall i | 0 <= i < |s|
      ensures AsOctets(AsBytes(s))[i] == s[i]
    {
      OctetRoundTrip(s[i]);
    }
  }

  lemma StringRoundTrip(b: seq<Byte>)
    ensures AsBytes(AsOctets(b)) == b
  {
    forall i | 0 <= i < |b|
      ensures AsBytes(AsOctets(b))[i] == b[i]
    {
      OneByteRoundTrip(b[i]);
    }
  }

  /** Opening gives only what was sealed. */
  ghost predicate OpensOnlySealed(a: Aead) {
    forall n, c, ad {:trigger a.open(n, c, ad)} :: a.open(n, c, ad).Some? ==> a.seal(n, a.open(n, c, ad).value, ad) == c
  }

  /** What the packet code relies on, and what the receiver relies on. */
  ghost predicate IsAuthenticated(a: Aead) {
    AddsTag(a) && OpensSealed(a) && OpensOnlySealed(a)
  }

  // ----- algorithm 15 -----

  /** The text of a sealed message, if it is one. */
  function SivOpened(mac: Block -> Block, ks: Siv.Keystream, nonce: seq<Byte>, c: seq<Byte>, ad: seq<Byte>)
    : (r: Option<seq<Byte>>)
    ensures r.Some? ==> Siv.Sealed(mac, ks, nonce, r.value, ad) == c
    ensures r.None? ==> forall p :: Siv.Sealed(mac, ks, nonce, p, ad) != c
  {
    if |c| < 16 then None
    else
      var text := Siv.Candidate(ks, c);
      assert forall p :: Siv.Sealed(mac, ks, nonce, p, ad) == c <==>
                           p == text && c[..16] == Siv.S2V(mac, Siv.Header(ad, nonce), text) by {
        forall p
          ensures Siv.Sealed(mac, ks, nonce, p, ad) == c <==>
                  p == text && c[..16] == Siv.S2V(mac, Siv.Header(ad, nonce), text)
        {
          Siv.SealedExactly(mac, ks, nonce, p, ad, c);
        }
      }
      if c[..16] == Siv.S2V(mac, Siv.Header(ad, nonce), text) then Some(text) else None
  }

  function SivAead(mac: Block -> Block, ks: Siv.Keystream): Aead {
    Aead(REGISTRY[15],
         (n, p, ad) => AsOctets(Siv.Sealed(mac, ks, AsBytes(n), AsBytes(p), AsBytes(ad))),
         (n, c, ad) => InOctets(SivOpened(mac, ks, AsBytes(n), AsBytes(c), AsBytes(ad))))
  }

  function InOctets(r: Option<seq<Byte>>): Option<seq<Octet>> {
    match r
    case None => None
    case Some(b) => Some(AsOctets(b))
  }

  lemma SivOpensSealed(mac: Block -> Block, ks: Siv.Keystream, n: seq<Octet>, p: seq<Octet>, ad: seq<Octet>)
    ensures SivAead(mac, ks).open(n, SivAead(mac, ks).seal(n, p, ad), ad) == Some(p)
  {
    var c := Siv.Sealed(mac, ks, AsBytes(n), AsBytes(p), AsBytes(ad));
    StringRoundTrip(c);
    Siv.SealedExactly(mac, ks, AsBytes(n), AsBytes(p), AsBytes(ad), c);
    OctetsRoundTrip(p);
  }

  lemma SivOpensOnlySealed(mac: Block -> Block, ks: Siv.Keystream, n: seq<Octet>, c: seq<Octet>, ad: seq<Octet>)
    requires SivAead(mac, ks).open(n, c, ad).Some?
    ensures SivAead(mac, ks).seal(n, SivAead(mac, ks).open(n, c, ad).value, ad) == c
  {
    StringRoundTrip(SivOpened(mac, ks, AsBytes(n), AsBytes(c), AsBytes(ad)).value);
    OctetsRoundTrip(c);
  }

  /** Algorithm 15 keeps what the packets rely on, under any cipher. */
  lemma SivIsAuthenticated(mac: Block -> Block, ks: Siv.Keystream)
    ensures IsAuthenticated(SivAead(mac, ks))
  {
    var a := SivAead(mac, ks);
    forall n, p, ad
      ensures |a.seal(n, p, ad)| == |p| + a.sizes.tag && a.open(n, a.seal(n, p, ad), ad) == Some(p)
    {
      SivOpensSealed(mac, ks, n, p, ad);
    }
    forall n, c, ad | a.open(n, c, ad).Some?
      ensures a.seal(n, a.open(n, c, ad).value, ad) == c
    {
      SivOpensOnlySealed(mac, ks, n, c, ad);
    }
  }

  /** The object seals as the function does ... */
  method SivSeal(siv: Siv.AesSivCmac, nonce: seq<Octet>, text: seq<Octet>, ad: seq<Octet>) returns (c: seq<Octet>)
    requires |nonce| == 0 || |nonce| == 16
    ensures c == SivAead(siv.macBlock, siv.keystream).seal(nonce, text, ad)
  {
    var dst := new Byte[16 + |text|];
    siv.Seal(dst, AsBytes(nonce), AsBytes(text), AsBytes(ad));
    c := AsOctets(dst[..]);
  }

  /** ... and opens as it does. */
  method SivOpen(siv: Siv.AesSivCmac, nonce: seq<Octet>, c: seq<Octet>, ad: seq<Octet>) returns (r: Option<seq<Octet>>)
    requires |nonce| == 0 || |nonce| == 16
    ensures r == SivAead(siv.macBlock, siv.keystream).open(nonce, c, ad)
  {
    var dst := new Byte[if |c| < 16 then 0 else |c| - 16];
    var ok := siv.Open(dst, AsBytes(nonce), AsBytes(c), AsBytes(ad));
    ghost var found := SivOpened(siv.macBlock, siv.keystream, AsBytes(nonce), AsBytes(c), AsBytes(ad));
    if !ok {
      return None;
    }
    Siv.SealedExactly(siv.macBlock, siv.keystream, AsBytes(nonce), dst[..], AsBytes(ad), AsBytes(c));
    Siv.SealedExactly(siv.macBlock, siv.keystream, AsBytes(nonce), found.value, AsBytes(ad), AsBytes(c));
    r := Some(AsOctets(dst[..]));
  }

  // ----- algorithm 30 -----

  /** Nonces of another length are a caller error; they count as zeros here. */
  function Nonce12(n: seq<Byte>): (r: seq<Byte>)
    ensures |r| == 12 && (|n| == 12 ==> r == n)
  {
    if |n| == 12 then n else seq(12, _ => 0)
  }

  function GcmOpened(keys: GcmSiv.Keys, nonce: seq<Byte>, c: seq<Byte>, ad: seq<Byte>): (r: Option<seq<Byte>>)
    requires |nonce| == 12
    ensures r.Some? ==> GcmSiv.Sealed(keys, nonce, r.value, ad) == c
    ensures r.None? ==> forall p :: GcmSiv.Sealed(keys, nonce, p, ad) != c
  {
    if |c| < 16 then None
    else
      var text := GcmSiv.Candidate(keys.encrypt, c);
      assert forall p :: GcmSiv.Sealed(keys, nonce, p, ad) == c ==> p == text by {
        forall p | GcmSiv.Sealed(keys, nonce, p, ad) == c
          ensures p == text
        {
          GcmSiv.SealedHasCandidate(keys.encrypt,
                                    GcmSiv.MaskedTag(keys, nonce, Polyval.TagFor(keys.auth, ad, p)), p);
        }
      }
      if GcmSiv.Sealed(keys, nonce, text, ad) == c then Some(text) else None
  }

  function GcmAead(derive: seq<Byte> -> GcmSiv.Keys): Aead {
    Aead(REGISTRY[30],
         (n, p, ad) => AsOctets(GcmSealed(derive, AsBytes(n), AsBytes(p), AsBytes(ad))),
         (n, c, ad) => InOctets(GcmText(derive, AsBytes(n), AsBytes(c), AsBytes(ad))))
  }

  function GcmText(derive: seq<Byte> -> GcmSiv.Keys, n: seq<Byte>, c: seq<Byte>, ad: seq<Byte>): Option<seq<Byte>> {
    GcmOpened(derive(Nonce12(n)), Nonce12(n), c, ad)
  }

  function GcmSealed(derive: seq<Byte> -> GcmSiv.Keys, n: seq<Byte>, p: seq<Byte>, ad: seq<Byte>): seq<Byte> {
    GcmSiv.Sealed(derive(Nonce12(n)), Nonce12(n), p, ad)
  }

  lemma GcmOpensSealed(derive: seq<Byte> -> GcmSiv.Keys, n: seq<Octet>, p: seq<Octet>, ad: seq<Octet>)
    ensures GcmAead(derive).open(n, GcmAead(derive).seal(n, p, ad), ad) == Some(p)
  {
    var nonce := Nonce12(AsBytes(n));
    var keys := derive(nonce);
    var c := GcmSiv.Sealed(keys, nonce, AsBytes(p), AsBytes(ad));
    StringRoundTrip(c);
    var found := GcmOpened(keys, nonce, c, AsBytes(ad));
    OneText(keys, nonce, found.value, AsBytes(p), AsBytes(ad));
    OctetsRoundTrip(p);
  }

  /** Different texts have different sealings. */
  lemma OneText(keys: GcmSiv.Keys, nonce: seq<Byte>, p: seq<Byte>, q: seq<Byte>, ad: seq<Byte>)
    requires |nonce| == 12 && GcmSiv.Sealed(keys, nonce, p, ad) == GcmSiv.Sealed(keys, nonce, q, ad)
    ensures p == q
  {
    GcmSiv.SealedHasCandidate(keys.encrypt, GcmSiv.MaskedTag(keys, nonce, Polyval.TagFor(keys.auth, ad, p)), p);
    GcmSiv.SealedHasCandidate(keys.encrypt, GcmSiv.MaskedTag(keys, nonce, Polyval.TagFor(keys.auth, ad, q)), q);
  }

  lemma GcmOpensOnlySealed(derive: seq<Byte> -> GcmSiv.Keys, n: seq<Octet>, c: seq<Octet>, ad: seq<Octet>)
    requires GcmAead(derive).open(n, c, ad).Some?
    ensures GcmAead(derive).seal(n, GcmAead(derive).open(n, c, ad).value, ad) == c
  {
    var found := GcmText(derive, AsBytes(n), AsBytes(c), AsBytes(ad));
    assert GcmAead(derive).open(n, c, ad) == InOctets(found);
    StringRoundTrip(found.value);
    OctetsRoundTrip(c);
  }

  /** Algorithm 30 keeps it too, under any cipher and key derivation. */
  lemma GcmIsAuthenticated(derive: seq<Byte> -> GcmSiv.Keys)
    ensures IsAuthenticated(GcmAead(derive))
  {
    var a := GcmAead(derive);
    forall n, p, ad
      ensures |a.seal(n, p, ad)| == |p| + a.sizes.tag && a.open(n, a.seal(n, p, ad), ad) == Some(p)
    {
      GcmOpensSealed(derive, n, p, ad);
    }
    forall n, c, ad | a.open(n, c, ad).Some?
      ensures a.seal(n, a.open(n, c, ad).value, ad) == c
    {
      GcmOpensOnlySealed(derive, n, c, ad);
    }
  }

  method GcmSeal(gcm: GcmSiv.AesGcmSiv, nonce: seq<Octet>, text: seq<Octet>, ad: seq<Octet>) returns (c: seq<Octet>)
    requires |nonce| == 12
    ensures c == GcmAead(gcm.deriveKeys).seal(nonce, text, ad)
  {
    var dst := new Byte[|text| + 16];
    gcm.Seal(dst, AsBytes(nonce), AsBytes(text), AsBytes(ad));
    GcmSiv.IsSealedExactly(gcm.deriveKeys(AsBytes(nonce)), AsBytes(nonce), AsBytes(text), AsBytes(ad), dst[..]);
    c := AsOctets(dst[..]);
  }

  method GcmOpen(gcm: GcmSiv.AesGcmSiv, nonce: seq<Octet>, c: seq<Octet>, ad: seq<Octet>) returns (r: Option<seq<Octet>>)
    requires |nonce| == 12
    ensures r == GcmAead(gcm.deriveKeys).open(nonce, c, ad)
  {
    var dst := new Byte[if |c| < 16 then 0 else |c| - 16];
    var ok := gcm.Open(dst, AsBytes(nonce), AsBytes(c), AsBytes(ad));
    r := if ok then Some(AsOctets(dst[..])) else None;
    GcmOpensAs(gcm.deriveKeys, nonce, c, ad, ok, dst[..]);
  }

  lemma GcmOpensAs(derive: seq<Byte> -> GcmSiv.Keys, n: seq<Octet>, c: seq<Octet>, ad: seq<Octet>, ok: bool, text: seq<Byte>)
    requires |n| == 12
    requires ok ==> GcmSiv.IsSealed(derive(AsBytes(n)), AsBytes(n), text, AsBytes(ad), AsBytes(c))
    requires !ok ==> forall p :: !GcmSiv.IsSealed(derive(AsBytes(n)), AsBytes(n), p, AsBytes(ad), AsBytes(c))
    ensures GcmAead(derive).open(n, c, ad) == if ok then Some(AsOctets(text)) else None
  {
    GcmFound(derive(AsBytes(n)), AsBytes(n), AsBytes(c), AsBytes(ad), ok, text);
    assert GcmAead(derive).open(n, c, ad) == InOctets(GcmText(derive, AsBytes(n), AsBytes(c), AsBytes(ad)));
  }

  lemma GcmFound(keys: GcmSiv.Keys, nonce: seq<Byte>, c: seq<Byte>, ad: seq<Byte>, ok: bool, text: seq<Byte>)
    requires |nonce| == 12
    requires ok ==> GcmSiv.IsSealed(keys, nonce, text, ad, c)
    requires !ok ==> forall p :: !GcmSiv.IsSealed(keys, nonce, p, ad, c)
    ensures GcmOpened(keys, nonce, c, ad) == if ok then Some(text) else None
  {
    var found := GcmOpened(keys, nonce, c, ad);
    if found.Some? {
      GcmSiv.IsSealedExactly(keys, nonce, found.value, ad, c);
    }
    if ok {
      GcmSiv.IsSealedExactly(keys, nonce, text, ad, c);
      OneText(keys, nonce, text, found.value, ad);
    }
  }

  // ----- packets under a registered algorithm -----

  /** An algorithm that the registry offers, under some keys. */
  ghost predicate IsRegistered(a: Aead) {
    || (exists mac, ks :: a == SivAead(mac, ks))
    || (exists derive :: a == GcmAead(derive))
  }

  lemma RegisteredIsAuthenticated(a: Aead)
    requires IsRegistered(a)
    ensures IsAuthenticated(a) && a.sizes in REGISTRY.Values
  {
    if mac, ks :| a == SivAead(mac, ks) {
      SivIsAuthenticated(mac, ks);
    } else {
      var derive :| a == GcmAead(derive);
      GcmIsAuthenticated(derive);
    }
  }

  /** Under a registered algorithm a response is authentic exactly if it is well formed and ours, and its
      ciphertext is the sealing of the text over the octets before the authenticator. */
  lemma AuthenticIsSealed(header: seq<Octet>, fields: seq<Field>, expected: seq<Octet>, aead: Aead, text: seq<Octet>)
    requires IsRegistered(aead) && fields != [] && NonceAndCiphertext(fields[|fields| - 1].wire).Some?
    ensures var (nonce, sealed) := NonceAndCiphertext(fields[|fields| - 1].wire).value;
            IsAuthentic(header, fields, expected, aead, text) <==>
              && |header| == HEADER && TotalSize(fields, |fields|) <= MAX_PACKET
              && fields[|fields| - 1].kind == AUTHENTICATOR
              && FirstUniqueId(fields, 0, |fields| - 1) == Some(expected)
              && sealed == aead.seal(nonce, text, header + Encoded(fields[..|fields| - 1]))
  {
    RegisteredIsAuthenticated(aead);
    var (nonce, sealed) := NonceAndCiphertext(fields[|fields| - 1].wire).value;
    SealedIffOpened(aead, nonce, text, header + Encoded(fields[..|fields| - 1]), sealed);
  }

  lemma SealedIffOpened(a: Aead, n: seq<Octet>, p: seq<Octet>, ad: seq<Octet>, c: seq<Octet>)
    requires IsAuthenticated(a)
    ensures a.open(n, c, ad) == Some(p) <==> c == a.seal(n, p, ad)
  {
    assert a.open(n, a.seal(n, p, ad), ad) == Some(p);
    if a.open(n, c, ad).Some? {
      assert a.seal(n, a.open(n, c, ad).value, ad) == c;
    }
  }
}
