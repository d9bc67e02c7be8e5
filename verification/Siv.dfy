/** AES-SIV over arbitrary block ciphers: the string-to-vector code of section 2.4 of RFC 5297 and
    the deterministic encryption built on it. The counter mode of the Go library is an arbitrary
    keystream. */
module Siv {
  import opened Bytes
  import opened Cmac

  /** Doubles the block in place. */
  method Dbl(b: array<Byte>)
    requires b.Length == 16
    modifies b
    ensures b[..] == Double(old(b[..]))
  {
    ghost var was: Block := b[..];
    var carry: Byte := 0;
    var i := 15;
    while i >= 0
      invariant -1 <= i <= 15
      invariant carry == if i < 15 then was[i + 1] >> 7 else 0
      invariant forall k :: 0 <= k <= i ==> b[k] == was[k]
      invariant forall k :: i < k < 16 ==> b[k] == ShiftedByte(was, k)
    {
      var bit := b[i] >> 7;
      b[i] := (b[i] << 1) | carry;
      carry := bit;
      i := i - 1;
    }
    assert b[..] == Shifted(was);
    b[15] := b[15] ^ (if carry == 1 then 0x87 else 0);
    assert Shifted(was)[15] ^ 0 == Shifted(was)[15];
  }

  // ----- string to vector -----

  /** The accumulator D after the strings before the last. */
  function Accumulated(cipher: Block -> Block, d: Block, strings: seq<seq<Byte>>): Block
    decreases |strings|
  {
    if strings == [] then d else Accumulated(cipher, Mixed(cipher, d, strings[0]), strings[1..])
  }

  function Mixed(cipher: Block -> Block, d: Block, s: seq<Byte>): Block {
    XorBlock(Double(d), Mac(cipher, s))
  }

  /** xors a block into the end of a string. */
  function XorEnd(s: seq<Byte>, d: Block): (r: seq<Byte>)
    requires |s| >= 16
    ensures |r| == |s|
  {
    s[..|s| - 16] + XorBytes(s[|s| - 16..], d)
  }

  /** The code of the last string, given the accumulator. */
  function Finished(cipher: Block -> Block, d: Block, last: seq<Byte>): Block {
    if |last| >= 16 then Mac(cipher, XorEnd(last, d)) else Mac(cipher, XorBlock(Double(d), PadOne(last)))
  }

  function S2V(cipher: Block -> Block, strings: seq<seq<Byte>>, last: seq<Byte>): Block {
    Finished(cipher, Accumulated(cipher, Mac(cipher, ZERO_BLOCK), strings), last)
  }

  /** The strings before the plaintext: an absent nonce is no string, and neither are empty
      associated data without one. */
  function Header(ad: seq<Byte>, nonce: seq<Byte>): seq<seq<Byte>> {
    if nonce != [] then [ad, nonce] else if ad != [] then [ad] else []
  }

  /** Writes one string through the running code, leaves its value in `out` and starts over. */
  method MacInto(mac: Cmac, out: array<Byte>, s: seq<Byte>)
    requires mac.Valid() && out.Length == 16 && out != mac.buf
    modifies mac`off, mac`message, mac.buf, out
    ensures mac.Valid() && mac.message == [] && out[..] == Mac(mac.cipher, old(mac.message) + s)
  {
    mac.Write(s);
    var tag := mac.Sum();
    Store(out, tag);
    mac.Reset();
  }

  /** One step of the accumulator: d becomes dbl(d) xor the code of `s`. */
  method MixString(mac: Cmac, d: array<Byte>, out: array<Byte>, s: seq<Byte>)
    requires mac.Valid() && mac.message == [] && out.Length == 16 && out != mac.buf
    requires d.Length == 16 && d != out && d != mac.buf
    modifies mac`off, mac`message, mac.buf, out, d
    ensures mac.Valid() && mac.message == []
    ensures d[..] == Mixed(mac.cipher, old(d[..]), s)
  {
    MacInto(mac, out, s);
    assert [] + s == s;
    Dbl(d);
    ghost var doubled := d[..];
    XorInto(d, 0, out[..]);
    assert d[..] == XorBlock(doubled, out[..]);
  }

  /** The synthetic initialisation vector of (AD, nonce, plaintext), (AD, plaintext) or (plaintext). */
  method ComputeS2V(ad: seq<Byte>, nonce: seq<Byte>, plaintext: seq<Byte>, mac: Cmac) returns (tag: Block)
    requires mac.Valid() && mac.message == []
    modifies mac`off, mac`message, mac.buf
    ensures mac.Valid() && mac.message == []
    ensures tag == S2V(mac.cipher, Header(ad, nonce), plaintext)
  {
    var b0 := new Byte[16](_ => 0);
    var b1 := new Byte[16](_ => 0);
    MacInto(mac, b1, ZERO_BLOCK);
    assert [] + ZERO_BLOCK == ZERO_BLOCK;
    ghost var d0: Block := b1[..];
    if |ad| > 0 || |nonce| > 0 {
      MixString(mac, b1, b0, ad);
      ghost var d1: Block := b1[..];
      if |nonce| > 0 {
        MixString(mac, b1, b0, nonce);
        AccumulatedStep(mac.cipher, d1, nonce, []);
        assert Header(ad, nonce) == [ad] + ([nonce] + []);
        AccumulatedStep(mac.cipher, d0, ad, [nonce] + []);
      } else {
        assert Header(ad, nonce) == [ad] + [];
        AccumulatedStep(mac.cipher, d0, ad, []);
      }
    }
    assert b1[..] == Accumulated(mac.cipher, d0, Header(ad, nonce));
    tag := FinishS2V(mac, b0, b1, plaintext);
  }

  lemma AccumulatedStep(cipher: Block -> Block, d: Block, s: seq<Byte>, rest: seq<seq<Byte>>)
    ensures Accumulated(cipher, d, [s] + rest) == Accumulated(cipher, Mixed(cipher, d, s), rest)
  {
    assert ([s] + rest)[1..] == rest;
  }

  method FinishS2V(mac: Cmac, b0: array<Byte>, b1: array<Byte>, plaintext: seq<Byte>) returns (tag: Block)
    requires mac.Valid() && mac.message == [] && b0.Length == 16 && b1.Length == 16
    requires b0 != b1 && b0 != mac.buf && b1 != mac.buf
    modifies mac`off, mac`message, mac.buf, b0, b1
    ensures mac.Valid() && mac.message == []
    ensures tag == Finished(mac.cipher, old(b1[..]), plaintext)
  {
    ghost var d: Block := b1[..];
    ghost var front: seq<Byte> := [];
    if |plaintext| >= 16 {
      var n := |plaintext| - 16;
      front := plaintext[..n];
      Store(b0, plaintext[n..]);
      mac.Write(plaintext[..n]);
      assert mac.message == front;
    } else {
      Store(b0, PadTo(plaintext, 16));
      b0[|plaintext|] := 0x80;
      assert b0[..] == PadOne(plaintext);
      Dbl(b1);
    }
    ghost var end: Block := b0[..];
    ghost var e: Block := b1[..];
    XorInto(b0, 0, b1[..]);
    assert b0[..] == XorBlock(end, e);
    MacInto(mac, b0, b0[..]);
    tag := b0[..];
    if |plaintext| >= 16 {
      assert front + XorBlock(end, e) == XorEnd(plaintext, d);
      assert tag == Mac(mac.cipher, XorEnd(plaintext, d));
    } else {
      XorBlockCommutes(end, e);
      assert [] + XorBlock(end, e) == XorBlock(e, end);
      assert tag == Mac(mac.cipher, XorBlock(Double(d), PadOne(plaintext)));
    }
  }

  lemma XorBlockCommutes(a: Block, b: Block)
    ensures XorBlock(a, b) == XorBlock(b, a)
  {
    forall i | 0 <= i < 16
      ensures XorBlock(a, b)[i] == XorBlock(b, a)[i]
    {
      XorByteCommutes(a[i], b[i]);
    }
    BlocksAreEqual(XorBlock(a, b), XorBlock(b, a));
  }

  lemma XorByteCommutes(x: Byte, y: Byte)
    ensures x ^ y == y ^ x
  {
  }

  // ----- authenticated encryption -----

  /** The counter start: two bits cleared. */
  function NewIV(v: Block): Block {
    v[8 := v[8] & 0x7f][12 := v[12] & 0x7f]
  }

  /** A keystream names a byte for every counter start and position. */
  type Keystream = (Block, nat) -> Byte

  function Streamed(ks: Keystream, iv: Block, text: seq<Byte>): (r: seq<Byte>)
    ensures |r| == |text|
  {
    seq(|text|, i requires 0 <= i < |text| => text[i] ^ ks(iv, i))
  }

  lemma StreamedTwice(ks: Keystream, iv: Block, text: seq<Byte>)
    ensures Streamed(ks, iv, Streamed(ks, iv, text)) == text
  {
    var once := Streamed(ks, iv, text);
    forall i | 0 <= i < |text|
      ensures Streamed(ks, iv, once)[i] == text[i]
    {
      XorByteTwice(text[i], ks(iv, i));
    }
  }

  /** A code and the text encrypted under it. */
  function SealedWith(ks: Keystream, v: Block, text: seq<Byte>): seq<Byte> {
    v + Streamed(ks, NewIV(v), text)
  }

  /** The sealed message. */
  function Sealed(cipher: Block -> Block, ks: Keystream, nonce: seq<Byte>, text: seq<Byte>, ad: seq<Byte>)
    : seq<Byte>
  {
    SealedWith(ks, S2V(cipher, Header(ad, nonce), text), text)
  }

  /** The only candidate for the plaintext of a sealed message. */
  function Candidate(ks: Keystream, c: seq<Byte>): seq<Byte>
    requires |c| >= 16
  {
    Streamed(ks, NewIV(c[..16]), c[16..])
  }

  /** What was sealed is the candidate, and its code is in front. */
  lemma SealedHasCandidate(ks: Keystream, v: Block, text: seq<Byte>)
    ensures SealedWith(ks, v, text)[..16] == v
    ensures Candidate(ks, SealedWith(ks, v, text)) == text
  {
    var c := SealedWith(ks, v, text);
    assert c[..16] == v && c[16..] == Streamed(ks, NewIV(v), text);
    StreamedTwice(ks, NewIV(v), text);
  }

  lemma CandidateIsSealed(ks: Keystream, c: seq<Byte>)
    requires |c| >= 16
    ensures SealedWith(ks, c[..16], Candidate(ks, c)) == c
  {
    StreamedTwice(ks, NewIV(c[..16]), c[16..]);
    assert c == c[..16] + c[16..];
  }

  /** A message is sealed from `text` exactly when `text` is the candidate and its code is in front. */
  lemma SealedExactly(cipher: Block -> Block, ks: Keystream, nonce: seq<Byte>, text: seq<Byte>, ad: seq<Byte>,
                      c: seq<Byte>)
    requires |c| >= 16
    ensures Sealed(cipher, ks, nonce, text, ad) == c <==>
            text == Candidate(ks, c) && c[..16] == S2V(cipher, Header(ad, nonce), text)
  {
    SealedHasCandidate(ks, S2V(cipher, Header(ad, nonce), text), text);
    CandidateIsSealed(ks, c);
  }

  class AesSivCmac {
    const macBlock: Block -> Block
    const keystream: Keystream

    constructor (macBlock: Block -> Block, keystream: Keystream)
      ensures this.macBlock == macBlock && this.keystream == keystream
    {
      this.macBlock := macBlock;
      this.keystream := keystream;
    }

    /** xors the keystream over `src` into the end of `dst`. */
    method XorKeyStream(dst: array<Byte>, at: nat, iv: Block, src: seq<Byte>)
      requires at + |src| == dst.Length
      modifies dst
      ensures dst[..at] == old(dst[..at]) && dst[at..] == Streamed(keystream, iv, src)
    {
      for i := 0 to |src|
        invariant dst[..at] == old(dst[..at])
        invariant forall k :: 0 <= k < i ==> dst[at + k] == src[k] ^ keystream(iv, k)
      {
        dst[at + i] := src[i] ^ keystream(iv, i);
      }
    }

    method Emit(dst: array<Byte>, v: Block, plaintext: seq<Byte>)
      requires dst.Length == 16 + |plaintext|
      modifies dst
      ensures dst[..] == SealedWith(keystream, v, plaintext)
    {
      for i := 0 to 16
        invariant forall k :: 0 <= k < i ==> dst[k] == v[k]
      {
        dst[i] := v[i];
      }
      assert dst[..16] == v;
      XorKeyStream(dst, 16, NewIV(v), plaintext);
      assert dst[..] == dst[..16] + dst[16..];
    }

    method Clear(dst: array<Byte>)
      modifies dst
      ensures forall i :: 0 <= i < dst.Length ==> dst[i] == 0
    {
      for i := 0 to dst.Length
        invariant forall k :: 0 <= k < i ==> dst[k] == 0
      {
        dst[i] := 0;
      }
    }

    method Code(nonce: seq<Byte>, plaintext: seq<Byte>, ad: seq<Byte>) returns (v: Block)
      ensures v == S2V(macBlock, Header(ad, nonce), plaintext)
    {
      var mac := new Cmac(macBlock);
      v := ComputeS2V(ad, nonce, plaintext, mac);
    }

    /** Fills `dst` with the sealed message; another nonce length is a caller error. */
    method Seal(dst: array<Byte>, nonce: seq<Byte>, plaintext: seq<Byte>, ad: seq<Byte>)
      requires |nonce| == 0 || |nonce| == 16
      requires dst.Length == 16 + |plaintext|
      modifies dst
      ensures dst[..] == Sealed(macBlock, keystream, nonce, plaintext, ad)
    {
      var v := Code(nonce, plaintext, ad);
      Emit(dst, v, plaintext);
    }

    /** Accepts exactly the sealed messages, and leaves zeros in `dst` otherwise. */
    method Open(dst: array<Byte>, nonce: seq<Byte>, ciphertext: seq<Byte>, ad: seq<Byte>) returns (ok: bool)
      requires |nonce| == 0 || |nonce| == 16
      requires |ciphertext| >= 16 ==> dst.Length == |ciphertext| - 16
      modifies dst
      ensures ok ==> Sealed(macBlock, keystream, nonce, dst[..], ad) == ciphertext
      ensures !ok ==> forall p :: Sealed(macBlock, keystream, nonce, p, ad) != ciphertext
      ensures !ok && |ciphertext| >= 16 ==> forall i :: 0 <= i < dst.Length ==> dst[i] == 0
    {
      if |ciphertext| < 16 {
        return false;
      }
      var tag := ciphertext[..16];
      XorKeyStream(dst, 0, NewIV(tag), ciphertext[16..]);
      assert dst[..] == dst[0..] == Candidate(keystream, ciphertext);
      var v := Code(nonce, dst[..], ad);
      forall p
        ensures Sealed(macBlock, keystream, nonce, p, ad) == ciphertext <==> p == dst[..] && v == tag
      {
        SealedExactly(macBlock, keystream, nonce, p, ad, ciphertext);
      }
      ok := v == tag;
      if !ok {
        Clear(dst);
      }
    }
  }
}
