/** AES-GCM-SIV of RFC 8452 over arbitrary block ciphers, with an arbitrary key derivation. */
module GcmSiv {
  import opened MachineInt
  import opened Polynomial
  import opened Bytes
  import opened Polyval

  type Cipher = Block -> Block

  /** The keys derived for one nonce: the encryption cipher and the hash key. */
  datatype Keys = Keys(encrypt: Cipher, auth: Block)

  const TWO_32: int := 0x1_0000_0000

  lemma {:induction false} Power2Sum(a: nat, b: nat)
    ensures Power2(a + b) == Power2(a) * Power2(b)
  {
    if a > 0 {
      Power2Sum(a - 1, b);
    }
  }

  lemma PowerOf32()
    ensures Power2(32) == TWO_32
  {
    assert Power2(4) == 16;
    Power2Sum(4, 4);
    Power2Sum(8, 8);
    Power2Sum(16, 16);
  }

  /** The little-endian value of four bytes. */
  function LoadCounter(s: seq<Byte>): (n: nat)
    requires |s| == 4
    ensures n < TWO_32
  {
    PowerOf32();
    NatOf(BitsOf(s))
  }

  function StoreCounter(n: nat): (s: seq<Byte>)
    ensures |s| == 4
  {
    BytesOf(BitsOfNat(n, 32))
  }

  lemma CounterRoundTrip(s: seq<Byte>)
    requires |s| == 4
    ensures StoreCounter(LoadCounter(s)) == s
  {
    NatRoundTrip(BitsOf(s));
    BytesRoundTrip(s);
  }

  /** The block with its first four bytes replaced by a counter. */
  function WithCounter(iv: Block, n: nat): Block {
    StoreCounter(n) + iv[4..]
  }

  /** The j-th counter block: the low 32 bits count up and wrap, the rest is fixed. */
  function CounterBlock(iv: Block, j: nat): Block {
    WithCounter(iv, CounterAt(LoadCounter(iv[..4]), j))
  }

  function CounterAt(start: nat, j: nat): nat {
    (start + j) % TWO_32
  }

  lemma FirstCounterBlock(iv: Block)
    ensures CounterBlock(iv, 0) == iv
  {
    var n := LoadCounter(iv[..4]);
    assert CounterAt(n, 0) == n;
    CounterRoundTrip(iv[..4]);
    assert WithCounter(iv, n) == iv[..4] + iv[4..] == iv;
  }

  function KeystreamByte(encrypt: Cipher, iv: Block, i: nat): Byte {
    encrypt(CounterBlock(iv, i / 16))[i % 16]
  }

  function Streamed(encrypt: Cipher, iv: Block, text: seq<Byte>): (r: seq<Byte>)
    ensures |r| == |text|
  {
    seq(|text|, i requires 0 <= i < |text| => text[i] ^ KeystreamByte(encrypt, iv, i))
  }

  lemma StreamedTwice(encrypt: Cipher, iv: Block, text: seq<Byte>)
    ensures Streamed(encrypt, iv, Streamed(encrypt, iv, text)) == text
  {
    var once := Streamed(encrypt, iv, text);
    forall i | 0 <= i < |text|
      ensures Streamed(encrypt, iv, once)[i] == text[i]
    {
      XorByteTwice(text[i], KeystreamByte(encrypt, iv, i));
    }
  }

  /** xors at most one block of keystream into `dst` from `at` on. */
  method XorBlockInto(dst: array<Byte>, at: nat, src: seq<Byte>, tmp: Block)
    requires |src| <= 16 && at + |src| <= dst.Length
    modifies dst
    ensures dst[..at] == old(dst[..at])
    ensures dst[at..at + |src|] == XorBytes(src, tmp[..|src|])
  {
    for i := 0 to |src|
      invariant dst[..at] == old(dst[..at])
      invariant forall k :: 0 <= k < i ==> dst[at + k] == src[k] ^ tmp[k]
    {
      dst[at + i] := src[i] ^ tmp[i];
    }
  }

  lemma StreamedByte(encrypt: Cipher, iv: Block, text: seq<Byte>, j: nat, k: nat)
    requires k < 16 && 16 * j + k < |text|
    ensures Streamed(encrypt, iv, text)[16 * j + k] == text[16 * j + k] ^ encrypt(CounterBlock(iv, j))[k]
  {
    var i := 16 * j + k;
    assert i / 16 == j && i % 16 == k;
  }

  lemma StreamedBlock(encrypt: Cipher, iv: Block, text: seq<Byte>, at: nat, j: nat, n: nat)
    requires at == 16 * j && at + n <= |text| && n <= 16
    ensures Streamed(encrypt, iv, text)[at..at + n] ==
            XorBytes(text[at..at + n], encrypt(CounterBlock(iv, j))[..n])
  {
    var x := Streamed(encrypt, iv, text)[at..at + n];
    var y := XorBytes(text[at..at + n], encrypt(CounterBlock(iv, j))[..n]);
    forall k | 0 <= k < n
      ensures x[k] == y[k]
    {
      StreamedByte(encrypt, iv, text, j, k);
    }
    SameBytes(x, y);
  }

  lemma SameBytes(x: seq<Byte>, y: seq<Byte>)
    requires |x| == |y| && forall k :: 0 <= k < |x| ==> x[k] == y[k]
    ensures x == y
  {
  }

  lemma ExtendPrefix(dst: seq<Byte>, target: seq<Byte>, at: nat, n: nat)
    requires at + n <= |dst| && at + n <= |target|
    requires dst[..at] == target[..at] && dst[at..at + n] == target[at..at + n]
    ensures dst[..at + n] == target[..at + n]
  {
    assert dst[..at + n] == dst[..at] + dst[at..at + n];
    assert target[..at + n] == target[..at] + target[at..at + n];
  }

  lemma NextCounter(start: nat, j: nat)
    ensures (CounterAt(start, j) + 1) % TWO_32 == CounterAt(start, j + 1)
  {
  }

  lemma WithCounterTwice(iv: Block, m: nat, n: nat)
    ensures StoreCounter(n) + WithCounter(iv, m)[4..] == WithCounter(iv, n)
  {
  }

  /** The counter and its block before the j-th block is encrypted. */
  ghost predicate AtCounter(iv: Block, j: nat, counter: nat, ctr: Block) {
    counter == CounterAt(LoadCounter(iv[..4]), j) && ctr == WithCounter(iv, counter) == CounterBlock(iv, j)
  }

  /** Counting on, with the other bytes kept. */
  lemma CountsOn(iv: Block, j: nat, counter: nat, ctr: Block)
    requires AtCounter(iv, j, counter, ctr)
    ensures AtCounter(iv, j + 1, (counter + 1) % TWO_32, StoreCounter((counter + 1) % TWO_32) + ctr[4..])
  {
    NextCounter(LoadCounter(iv[..4]), j);
    WithCounterTwice(iv, counter, (counter + 1) % TWO_32);
  }

  /** `dst` holds the first `at` bytes of the encrypted text. */
  ghost predicate IsEncrypted(encrypt: Cipher, iv: Block, src: seq<Byte>, dst: seq<Byte>, at: nat) {
    at <= |src| && at <= |dst| && dst[..at] == Streamed(encrypt, iv, src)[..at]
  }

  /** One block, or the last part of one. */
  method EncryptPart(dst: array<Byte>, src: seq<Byte>, encrypt: Cipher, iv: Block, ctr: Block, at: nat, n: nat,
                     ghost j: nat)
    requires at == 16 * j && n <= 16 && at + n <= |src| <= dst.Length && ctr == CounterBlock(iv, j)
    requires IsEncrypted(encrypt, iv, src, dst[..], at)
    modifies dst
    ensures IsEncrypted(encrypt, iv, src, dst[..], at + n)
  {
    ghost var before := dst[..at];
    XorBlockInto(dst, at, src[at..at + n], encrypt(ctr));
    StreamedBlock(encrypt, iv, src, at, j, n);
    ExtendPrefix(dst[..], Streamed(encrypt, iv, src), at, n);
  }

  /** One whole block, and the counter for the next. */
  method EncryptBlock(dst: array<Byte>, src: seq<Byte>, encrypt: Cipher, iv: Block, counter: nat, ctr: Block,
                      at: nat, ghost j: nat) returns (counter': nat, ctr': Block)
    requires at == 16 * j && at + 16 <= |src| <= dst.Length && AtCounter(iv, j, counter, ctr)
    requires IsEncrypted(encrypt, iv, src, dst[..], at)
    modifies dst
    ensures AtCounter(iv, j + 1, counter', ctr') && IsEncrypted(encrypt, iv, src, dst[..], at + 16)
  {
    EncryptPart(dst, src, encrypt, iv, ctr, at, 16, j);
    CountsOn(iv, j, counter, ctr);
    counter' := (counter + 1) % TWO_32;
    ctr' := StoreCounter(counter') + ctr[4..];
  }

  /** What is left after the whole blocks. */
  method EncryptRest(dst: array<Byte>, src: seq<Byte>, encrypt: Cipher, iv: Block, ghost counter: nat, ctr: Block,
                     at: nat, ghost j: nat)
    requires at == 16 * j && at <= |src| <= dst.Length && |src| - at < 16 && AtCounter(iv, j, counter, ctr)
    requires IsEncrypted(encrypt, iv, src, dst[..], at)
    modifies dst
    ensures dst[..|src|] == Streamed(encrypt, iv, src)
  {
    if |src| > at {
      EncryptPart(dst, src, encrypt, iv, ctr, at, |src| - at, j);
    }
    WholePrefix(encrypt, iv, src, dst[..]);
  }

  lemma StartsCounting(iv: Block)
    ensures AtCounter(iv, 0, LoadCounter(iv[..4]), iv)
  {
    FirstCounterBlock(iv);
  }

  lemma StartsEncrypted(encrypt: Cipher, iv: Block, src: seq<Byte>, dst: seq<Byte>)
    ensures IsEncrypted(encrypt, iv, src, dst, 0)
  {
  }

  /** Encrypts `src` into the front of `dst`; the 32-bit counter wraps. */
  method XorKeystream(dst: array<Byte>, src: seq<Byte>, encrypt: Cipher, iv: Block)
    requires |src| <= dst.Length
    modifies dst
    ensures dst[..|src|] == Streamed(encrypt, iv, src)
  {
    var ctr := iv;
    var counter: nat := LoadCounter(ctr[..4]);
    StartsCounting(iv);
    StartsEncrypted(encrypt, iv, src, dst[..]);
    ghost var j: nat := 0;
    var at: nat := 0;
    while |src| - at >= 16
      invariant at == 16 * j <= |src|
      invariant AtCounter(iv, j, counter, ctr)
      invariant IsEncrypted(encrypt, iv, src, dst[..], at)
    {
      counter, ctr := EncryptBlock(dst, src, encrypt, iv, counter, ctr, at, j);
      j, at := j + 1, at + 16;
    }
    EncryptRest(dst, src, encrypt, iv, counter, ctr, at, j);
  }

  lemma WholePrefix(encrypt: Cipher, iv: Block, src: seq<Byte>, dst: seq<Byte>)
    requires IsEncrypted(encrypt, iv, src, dst, |src|)
    ensures dst[..|src|] == Streamed(encrypt, iv, src)
  {
    var target := Streamed(encrypt, iv, src);
    assert target[..|src|] == target;
  }

  // ----- authenticated encryption -----

  /** The tag from the hash: the nonce is xored in, the top bit cleared, the block encrypted. */
  function MaskedTag(keys: Keys, nonce: seq<Byte>, hash: Block): Block
    requires |nonce| == 12
  {
    var s: Block := XorBytes(hash[..12], nonce) + hash[12..];
    keys.encrypt(s[15 := s[15] & 0x7f])
  }

  /** The counter start: the tag with its top bit set. */
  function CounterStart(tag: Block): Block {
    tag[15 := tag[15] | 0x80]
  }

  function SealedWith(encrypt: Cipher, tag: Block, text: seq<Byte>): seq<Byte> {
    Streamed(encrypt, CounterStart(tag), text) + tag
  }

  /** `c` is `text` sealed under the keys, nonce and associated data. */
  ghost predicate IsSealed(keys: Keys, nonce: seq<Byte>, text: seq<Byte>, ad: seq<Byte>, c: seq<Byte>)
    requires |nonce| == 12
  {
    exists hash: Block :: IsTag(keys.auth, ad, text, hash) &&
                          c == SealedWith(keys.encrypt, MaskedTag(keys, nonce, hash), text)
  }

  /** Sealing is a function. */
  lemma SealedIsUnique(keys: Keys, nonce: seq<Byte>, text: seq<Byte>, ad: seq<Byte>, c: seq<Byte>, d: seq<Byte>)
    requires |nonce| == 12 && IsSealed(keys, nonce, text, ad, c) && IsSealed(keys, nonce, text, ad, d)
    ensures c == d
  {
    var x: Block :| IsTag(keys.auth, ad, text, x) && c == SealedWith(keys.encrypt, MaskedTag(keys, nonce, x), text);
    var y: Block :| IsTag(keys.auth, ad, text, y) && d == SealedWith(keys.encrypt, MaskedTag(keys, nonce, y), text);
    TagIsUnique(keys.auth, ad, text, x, y);
  }

  /** The sealed message as a function. */
  function Sealed(keys: Keys, nonce: seq<Byte>, text: seq<Byte>, ad: seq<Byte>): seq<Byte>
    requires |nonce| == 12
  {
    SealedWith(keys.encrypt, MaskedTag(keys, nonce, TagFor(keys.auth, ad, text)), text)
  }

  /** Every text has exactly one sealing. */
  lemma IsSealedExactly(keys: Keys, nonce: seq<Byte>, text: seq<Byte>, ad: seq<Byte>, c: seq<Byte>)
    requires |nonce| == 12
    ensures IsSealed(keys, nonce, text, ad, c) <==> c == Sealed(keys, nonce, text, ad)
  {
    TagIsTagFor(keys.auth, ad, text, TagFor(keys.auth, ad, text));
    if IsSealed(keys, nonce, text, ad, c) {
      SealedIsUnique(keys, nonce, text, ad, c, Sealed(keys, nonce, text, ad));
    }
  }

  function TagOf(c: seq<Byte>): Block
    requires |c| >= 16
  {
    c[|c| - 16..]
  }

  /** The only candidate for the plaintext of a sealed message. */
  function Candidate(encrypt: Cipher, c: seq<Byte>): seq<Byte>
    requires |c| >= 16
  {
    Streamed(encrypt, CounterStart(TagOf(c)), c[..|c| - 16])
  }

  lemma SealedHasCandidate(encrypt: Cipher, tag: Block, text: seq<Byte>)
    ensures TagOf(SealedWith(encrypt, tag, text)) == tag
    ensures Candidate(encrypt, SealedWith(encrypt, tag, text)) == text
  {
    var c := SealedWith(encrypt, tag, text);
    assert c[..|c| - 16] == Streamed(encrypt, CounterStart(tag), text);
    StreamedTwice(encrypt, CounterStart(tag), text);
  }

  lemma CandidateIsSealed(encrypt: Cipher, c: seq<Byte>)
    requires |c| >= 16
    ensures SealedWith(encrypt, TagOf(c), Candidate(encrypt, c)) == c
  {
    StreamedTwice(encrypt, CounterStart(TagOf(c)), c[..|c| - 16]);
    assert c == c[..|c| - 16] + c[|c| - 16..];
  }

  /** With `hash` the hash of the candidate, a message is sealed from `text` exactly when `text` is
      the candidate and the tag is the one the hash gives. */
  lemma SealedExactly(keys: Keys, nonce: seq<Byte>, text: seq<Byte>, ad: seq<Byte>, c: seq<Byte>, hash: Block)
    requires |nonce| == 12 && |c| >= 16 && IsTag(keys.auth, ad, Candidate(keys.encrypt, c), hash)
    ensures IsSealed(keys, nonce, text, ad, c) <==>
            text == Candidate(keys.encrypt, c) && MaskedTag(keys, nonce, hash) == TagOf(c)
  {
    if IsSealed(keys, nonce, text, ad, c) {
      var x: Block :| IsTag(keys.auth, ad, text, x) && c == SealedWith(keys.encrypt, MaskedTag(keys, nonce, x), text);
      SealedHasCandidate(keys.encrypt, MaskedTag(keys, nonce, x), text);
      TagIsUnique(keys.auth, ad, text, x, hash);
    }
    if text == Candidate(keys.encrypt, c) && MaskedTag(keys, nonce, hash) == TagOf(c) {
      CandidateIsSealed(keys.encrypt, c);
    }
  }

  lemma ShortIsNotSealed(keys: Keys, nonce: seq<Byte>, text: seq<Byte>, ad: seq<Byte>, c: seq<Byte>)
    requires |nonce| == 12 && IsSealed(keys, nonce, text, ad, c)
    ensures |c| == |text| + 16
  {
  }

  class AesGcmSiv {
    const deriveKeys: seq<Byte> -> Keys

    constructor (deriveKeys: seq<Byte> -> Keys)
      ensures this.deriveKeys == deriveKeys
    {
      this.deriveKeys := deriveKeys;
    }

    /** The tag of a text, by the hash. */
    method ComputeTag(keys: Keys, nonce: seq<Byte>, text: seq<Byte>, ad: seq<Byte>)
        returns (tag: Block, ghost hash: Block)
      requires |nonce| == 12
      ensures IsTag(keys.auth, ad, text, hash) && tag == MaskedTag(keys, nonce, hash)
    {
      var sum := ComputePolyval(ad, text, keys.auth);
      hash := sum;
      var s := new Byte[16];
      for i := 0 to 16
        invariant forall k :: 0 <= k < i ==> s[k] == sum[k]
      {
        s[i] := sum[i];
      }
      for i := 0 to |nonce|
        invariant forall k :: 0 <= k < 16 ==> s[k] == if k < i then hash[k] ^ nonce[k] else hash[k]
      {
        s[i] := s[i] ^ nonce[i];
      }
      assert s[..] == XorBytes(hash[..12], nonce) + hash[12..];
      s[15] := s[15] & 0x7f;
      tag := keys.encrypt(s[..]);
    }

    /** Fills `dst` with the sealed message; another nonce length is a caller error. */
    method Seal(dst: array<Byte>, nonce: seq<Byte>, plaintext: seq<Byte>, ad: seq<Byte>)
      requires |nonce| == 12 && dst.Length == |plaintext| + 16
      modifies dst
      ensures IsSealed(deriveKeys(nonce), nonce, plaintext, ad, dst[..])
    {
      var keys := deriveKeys(nonce);
      var tag, hash := ComputeTag(keys, nonce, plaintext, ad);
      XorKeystream(dst, plaintext, keys.encrypt, CounterStart(tag));
      WriteTag(dst, |plaintext|, tag);
      assert dst[..] == SealedWith(keys.encrypt, tag, plaintext);
    }

    /** Puts the tag behind the text. */
    method WriteTag(dst: array<Byte>, n: nat, tag: Block)
      requires dst.Length == n + 16
      modifies dst
      ensures dst[..] == old(dst[..n]) + tag
    {
      for i := 0 to 16
        invariant dst[..n] == old(dst[..n])
        invariant forall k :: 0 <= k < i ==> dst[n + k] == tag[k]
      {
        dst[n + i] := tag[i];
      }
    }

    /** Accepts exactly the sealed messages, and leaves zeros in `dst` otherwise. */
    method Open(dst: array<Byte>, nonce: seq<Byte>, ciphertext: seq<Byte>, ad: seq<Byte>) returns (ok: bool)
      requires |nonce| == 12
      requires |ciphertext| >= 16 ==> dst.Length == |ciphertext| - 16
      modifies dst
      ensures ok ==> IsSealed(deriveKeys(nonce), nonce, dst[..], ad, ciphertext)
      ensures !ok ==> forall p :: !IsSealed(deriveKeys(nonce), nonce, p, ad, ciphertext)
      ensures !ok && |ciphertext| >= 16 ==> forall i :: 0 <= i < dst.Length ==> dst[i] == 0
    {
      var keys := deriveKeys(nonce);
      if |ciphertext| < 16 {
        forall p
          ensures !IsSealed(keys, nonce, p, ad, ciphertext)
        {
          if IsSealed(keys, nonce, p, ad, ciphertext) {
            ShortIsNotSealed(keys, nonce, p, ad, ciphertext);
          }
        }
        return false;
      }
      var tag := TagOf(ciphertext);
      XorKeystream(dst, ciphertext[..|ciphertext| - 16], keys.encrypt, CounterStart(tag));
      assert dst[..] == dst[..dst.Length] == Candidate(keys.encrypt, ciphertext);
      var expected, hash := ComputeTag(keys, nonce, dst[..], ad);
      forall p
        ensures IsSealed(keys, nonce, p, ad, ciphertext) <==> p == dst[..] && expected == tag
      {
        SealedExactly(keys, nonce, p, ad, ciphertext, hash);
      }
      ok := expected == tag;
      if !ok {
        for i := 0 to dst.Length
          invariant forall k :: 0 <= k < i ==> dst[k] == 0
        {
          dst[i] := 0;
        }
      }
    }
  }
}
