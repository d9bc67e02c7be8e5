/** Streaming CMAC over an arbitrary block cipher, against the one-shot definition of section 2.4
    of RFC 4493. */
module Cmac {
  import opened Bytes

  function XorBlock(a: Block, b: Block): Block {
    XorBytes(a, b)
  }

  // ----- doubling in GF(2^128) -----

  /** The coefficient of x^e, the first byte holding the highest ones. */
  function Coefficient(b: Block, e: int): bool {
    0 <= e < 128 && Bit(b, 15 - e / 8, e % 8)
  }

  /** A byte of the block shifted left by one bit. */
  function ShiftedByte(b: Block, i: nat): Byte
    requires i < 16
  {
    (b[i] << 1) | (if i < 15 then b[i + 1] >> 7 else 0)
  }

  function Shifted(b: Block): Block {
    seq(16, i requires 0 <= i < 16 => ShiftedByte(b, i))
  }

  function Double(b: Block): Block {
    var s := Shifted(b);
    if b[0] >> 7 == 1 then s[15 := s[15] ^ 0x87] else s
  }

  /** Bit `k` of byte `i`. */
  function Bit(b: Block, i: nat, k: nat): bool
    requires i < 16 && k < 8
  {
    BitsOfByte(b[i])[k]
  }

  lemma ShiftedBits(x: Byte, low: Byte, k: nat)
    requires k < 8
    ensures BitsOfByte((x << 1) | (low >> 7))[k] == if k == 0 then BitsOfByte(low)[7] else BitsOfByte(x)[k - 1]
  {
    ShiftedLowBits(x, low);
    ShiftedHighBits(x, low);
  }

  lemma ShiftedLowBits(x: Byte, low: Byte)
    ensures var y := (x << 1) | (low >> 7);
            && (y & 1 != 0) == (low & 128 != 0) && (y & 2 != 0) == (x & 1 != 0)
            && (y & 4 != 0) == (x & 2 != 0) && (y & 8 != 0) == (x & 4 != 0)
  {
  }

  lemma ShiftedHighBits(x: Byte, low: Byte)
    ensures var y := (x << 1) | (low >> 7);
            && (y & 16 != 0) == (x & 8 != 0) && (y & 32 != 0) == (x & 16 != 0)
            && (y & 64 != 0) == (x & 32 != 0) && (y & 128 != 0) == (x & 64 != 0)
  {
  }

  lemma ShiftedBit(b: Block, i: nat, k: nat)
    requires i < 16 && k < 8
    ensures Bit(Shifted(b), i, k) == if k > 0 then Bit(b, i, k - 1) else i < 15 && Bit(b, i + 1, 7)
  {
    if i < 15 {
      ShiftedBits(b[i], b[i + 1], k);
    } else {
      ShiftedBits(b[i], 0, k);
      assert (0 as bv8) >> 7 == 0;
    }
  }

  lemma FoldedBits(x: Byte, k: nat)
    requires k < 8
    ensures BitsOfByte(x ^ 0x87)[k] == (BitsOfByte(x)[k] != (k == 0 || k == 1 || k == 2 || k == 7))
  {
  }

  lemma TopBit(x: Byte)
    ensures (x >> 7 == 1) == BitsOfByte(x)[7]
  {
  }

  lemma DoubleBit(b: Block, i: nat, k: nat)
    requires i < 16 && k < 8
    ensures Bit(Double(b), i, k) ==
            (Bit(Shifted(b), i, k) != (Bit(b, 0, 7) && i == 15 && (k == 0 || k == 1 || k == 2 || k == 7)))
  {
    TopBit(b[0]);
    FoldedBits(Shifted(b)[15], k);
  }

  /** Doubling is multiplication by x modulo x^128 + x^7 + x^2 + x + 1. */
  lemma DoubleIsTimesX(b: Block, e: nat)
    requires e < 128
    ensures Coefficient(Double(b), e) ==
            (Coefficient(b, e - 1) != (Coefficient(b, 127) && (e == 0 || e == 1 || e == 2 || e == 7)))
  {
    DoubleBit(b, 15 - e / 8, e % 8);
    ShiftedBit(b, 15 - e / 8, e % 8);
    if e % 8 > 0 {
      assert (e - 1) / 8 == e / 8 && (e - 1) % 8 == e % 8 - 1;
    } else if e > 0 {
      assert (e - 1) / 8 == e / 8 - 1 && (e - 1) % 8 == 7;
    }
  }

  /** Shifts `src` left by one bit into `dst` and returns the bit that fell out. */
  method ShiftLeft(dst: array<Byte>, src: Block) returns (carry: Byte)
    requires dst.Length == 16
    modifies dst
    ensures dst[..] == Shifted(src) && carry == src[0] >> 7
  {
    carry := 0;
    var i := 15;
    while i >= 0
      invariant -1 <= i <= 15
      invariant carry == if i < 15 then src[i + 1] >> 7 else 0
      invariant forall k :: i < k < 16 ==> dst[k] == ShiftedByte(src, k)
    {
      var bit := src[i] >> 7;
      dst[i] := (src[i] << 1) | carry;
      carry := bit;
      i := i - 1;
    }
  }

  /** `after` is `before` with `src` xored in from `at` on. */
  ghost predicate XoredAt(before: seq<Byte>, at: nat, src: seq<Byte>, after: seq<Byte>) {
    && |after| == |before| && at + |src| <= |before|
    && forall k :: 0 <= k < |before| ==>
         after[k] == if at <= k < at + |src| then before[k] ^ src[k - at] else before[k]
  }

  /** xors `src` into the bytes of `dst` from `at` on. */
  method XorInto(dst: array<Byte>, at: nat, src: seq<Byte>)
    requires at + |src| <= dst.Length
    modifies dst
    ensures XoredAt(old(dst[..]), at, src, dst[..])
  {
    for i := 0 to |src|
      invariant forall k :: 0 <= k < dst.Length ==>
                  dst[k] == if at <= k < at + i then old(dst[k]) ^ src[k - at] else old(dst[k])
    {
      dst[at + i] := dst[at + i] ^ src[i];
    }
  }

  /** Stores a block. */
  method Store(dst: array<Byte>, b: Block)
    requires dst.Length == 16
    modifies dst
    ensures dst[..] == b
  {
    for i := 0 to 16
      invariant forall k :: 0 <= k < i ==> dst[k] == b[k]
    {
      dst[i] := b[i];
    }
  }

  // ----- the definition -----

  /** A short block followed by a one bit and zeros. */
  function PadOne(m: seq<Byte>): Block
    requires |m| < 16
  {
    PadTo(m + [0x80], 16)
  }

  function SubKey1(cipher: Block -> Block): Block {
    Double(cipher(ZERO_BLOCK))
  }

  function SubKey2(cipher: Block -> Block): Block {
    Double(SubKey1(cipher))
  }

  /** CMAC of `m` continued from the chaining value `x`, with the two subkeys. */
  function MacFrom(cipher: Block -> Block, k1: Block, k2: Block, x: Block, m: seq<Byte>): Block
    decreases |m|
  {
    if |m| > 16 then MacFrom(cipher, k1, k2, cipher(XorBlock(x, m[..16])), m[16..])
    else if |m| == 16 then cipher(XorBlock(XorBlock(m, k1), x))
    else cipher(XorBlock(XorBlock(PadOne(m), k2), x))
  }

  /** The one-shot CMAC. */
  function Mac(cipher: Block -> Block, m: seq<Byte>): Block {
    MacFrom(cipher, SubKey1(cipher), SubKey2(cipher), ZERO_BLOCK, m)
  }

  /** The code written out: whole blocks before the last are chained, a whole last block takes the first
      subkey, a short one is followed by a one bit and zeros and takes the second. */
  lemma MacWrittenOut(cipher: Block -> Block, before: seq<Byte>, last: seq<Byte>)
    requires |before| % 16 == 0 && (0 < |last| <= 16 || before == last == [])
    ensures var l := cipher(ZERO_BLOCK);
            var key := if |last| == 16 then Double(l) else Double(Double(l));
            var block := if |last| == 16 then last else PadTo(last + [0x80], 16);
            Mac(cipher, before + last) == cipher(XorBlock(XorBlock(block, key), Chain(cipher, ZERO_BLOCK, before)))
  {
    MacAfterBlocks(cipher, SubKey1(cipher), SubKey2(cipher), ZERO_BLOCK, before, last);
  }

  lemma {:induction false} MacAfterBlocks(cipher: Block -> Block, k1: Block, k2: Block, x: Block, before: seq<Byte>, last: seq<Byte>)
    requires |before| % 16 == 0 && (0 < |last| <= 16 || before == last == [])
    ensures MacFrom(cipher, k1, k2, x, before + last) == MacFrom(cipher, k1, k2, Chain(cipher, x, before), last)
    decreases |before|
  {
    if before == [] {
      assert before + last == last;
    } else {
      assert (before + last)[..16] == before[..16] && (before + last)[16..] == before[16..] + last;
      MacAfterBlocks(cipher, k1, k2, cipher(XorBlock(x, before[..16])), before[16..], last);
    }
  }

  // ----- what the buffer holds -----

  /** The chaining value after whole blocks. */
  function Chain(cipher: Block -> Block, x: Block, m: seq<Byte>): Block
    decreases |m|
  {
    if |m| < 16 then x else Chain(cipher, cipher(XorBlock(x, m[..16])), m[16..])
  }

  /** The chaining value with the last, possibly whole, block xored in but not encrypted. */
  function Held(cipher: Block -> Block, x: Block, m: seq<Byte>): Block
    decreases |m|
  {
    if |m| > 16 then Held(cipher, cipher(XorBlock(x, m[..16])), m[16..])
    else XorBlock(x, PadTo(m, 16))
  }

  /** The length of the held block: zero only for the empty message. */
  function Tail(m: seq<Byte>): nat {
    if |m| == 0 then 0 else (|m| - 1) % 16 + 1
  }

  lemma {:induction false} HeldAfterBlocks(cipher: Block -> Block, x: Block, m: seq<Byte>, t: seq<Byte>)
    requires |m| % 16 == 0 && 0 < |t| <= 16
    ensures Held(cipher, x, m + t) == XorBlock(Chain(cipher, x, m), PadTo(t, 16))
    decreases |m|
  {
    if m == [] {
      assert m + t == t;
    } else {
      assert (m + t)[..16] == m[..16] && (m + t)[16..] == m[16..] + t;
      HeldAfterBlocks(cipher, cipher(XorBlock(x, m[..16])), m[16..], t);
    }
  }

  lemma {:induction false} ChainAppend(cipher: Block -> Block, x: Block, m: seq<Byte>, b: Block)
    requires |m| % 16 == 0
    ensures Chain(cipher, x, m + b) == cipher(XorBlock(Chain(cipher, x, m), b))
    decreases |m|
  {
    if m == [] {
      assert m + b == b && b[..16] == b && b[16..] == [];
    } else {
      assert (m + b)[..16] == m[..16] && (m + b)[16..] == m[16..] + b;
      ChainAppend(cipher, cipher(XorBlock(x, m[..16])), m[16..], b);
    }
  }

  /** The block given to the cipher at the end, from what is held. */
  function LastBlock(k1: Block, k2: Block, held: Block, off: nat): Block
    requires off <= 16
  {
    if off < 16 then Marked(XorBlock(k2, held), off) else XorBlock(k1, held)
  }

  function Marked(b: Block, off: nat): Block
    requires off < 16
  {
    b[off := b[off] ^ 0x80]
  }

  lemma XorOfThree(x: Byte, m: Byte, k: Byte)
    ensures k ^ (x ^ m) == (m ^ k) ^ x
  {
  }

  lemma XorWithMark(x: Byte, k: Byte)
    ensures (k ^ (x ^ 0)) ^ 0x80 == (0x80 ^ k) ^ x
  {
  }

  lemma BlocksAreEqual(a: Block, b: Block)
    requires forall i :: 0 <= i < 16 ==> a[i] == b[i]
    ensures a == b
  {
  }

  lemma ShortLastByte(x: Block, m: seq<Byte>, k: Block, i: nat)
    requires |m| < 16 && i < 16
    ensures Marked(XorBlock(k, XorBlock(x, PadTo(m, 16))), |m|)[i] == XorBlock(XorBlock(PadOne(m), k), x)[i]
  {
    var p, q := PadTo(m, 16), PadOne(m);
    assert i != |m| ==> p[i] == q[i];
    assert p[|m|] == 0 && q[|m|] == 0x80;
    if i == |m| {
      XorWithMark(x[i], k[i]);
    } else {
      XorOfThree(x[i], p[i], k[i]);
    }
  }

  lemma FullLastByte(x: Block, m: Block, k: Block, i: nat)
    requires i < 16
    ensures XorBlock(k, XorBlock(x, m))[i] == XorBlock(XorBlock(m, k), x)[i]
  {
    XorOfThree(x[i], m[i], k[i]);
  }

  lemma ShortLastBlock(x: Block, m: seq<Byte>, k: Block)
    requires |m| < 16
    ensures Marked(XorBlock(k, XorBlock(x, PadTo(m, 16))), |m|) == XorBlock(XorBlock(PadOne(m), k), x)
  {
    forall i | 0 <= i < 16
      ensures Marked(XorBlock(k, XorBlock(x, PadTo(m, 16))), |m|)[i] == XorBlock(XorBlock(PadOne(m), k), x)[i]
    {
      ShortLastByte(x, m, k, i);
    }
    BlocksAreEqual(Marked(XorBlock(k, XorBlock(x, PadTo(m, 16))), |m|), XorBlock(XorBlock(PadOne(m), k), x));
  }

  lemma FullLastBlock(x: Block, m: Block, k: Block)
    ensures XorBlock(k, XorBlock(x, m)) == XorBlock(XorBlock(m, k), x)
  {
    forall i | 0 <= i < 16
      ensures XorBlock(k, XorBlock(x, m))[i] == XorBlock(XorBlock(m, k), x)[i]
    {
      FullLastByte(x, m, k, i);
    }
    BlocksAreEqual(XorBlock(k, XorBlock(x, m)), XorBlock(XorBlock(m, k), x));
  }

  lemma FinishFull(cipher: Block -> Block, k1: Block, k2: Block, x: Block, m: Block)
    ensures cipher(LastBlock(k1, k2, Held(cipher, x, m), 16)) == MacFrom(cipher, k1, k2, x, m)
  {
    assert PadTo(m, 16) == m;
    FullLastBlock(x, m, k1);
  }

  lemma FinishShort(cipher: Block -> Block, k1: Block, k2: Block, x: Block, m: seq<Byte>)
    requires |m| < 16
    ensures cipher(LastBlock(k1, k2, Held(cipher, x, m), |m|)) == MacFrom(cipher, k1, k2, x, m)
  {
    ShortLastBlock(x, m, k2);
  }

  lemma SameTail(m: seq<Byte>)
    requires |m| > 16
    ensures Tail(m[16..]) == Tail(m)
  {
  }

  lemma HeldStep(cipher: Block -> Block, x: Block, m: seq<Byte>)
    requires |m| > 16
    ensures Held(cipher, x, m) == Held(cipher, cipher(XorBlock(x, m[..16])), m[16..])
  {
  }

  lemma MacStep(cipher: Block -> Block, k1: Block, k2: Block, x: Block, m: seq<Byte>)
    requires |m| > 16
    ensures MacFrom(cipher, k1, k2, x, m) == MacFrom(cipher, k1, k2, cipher(XorBlock(x, m[..16])), m[16..])
  {
  }

  /** Finishing what is held gives the one-shot CMAC. */
  lemma {:induction false} FinishIsMac(cipher: Block -> Block, k1: Block, k2: Block, x: Block, m: seq<Byte>)
    ensures cipher(LastBlock(k1, k2, Held(cipher, x, m), Tail(m))) == MacFrom(cipher, k1, k2, x, m)
    decreases |m|
  {
    if |m| > 16 {
      var y := cipher(XorBlock(x, m[..16]));
      FinishIsMac(cipher, k1, k2, y, m[16..]);
      SameTail(m);
      HeldStep(cipher, x, m);
      MacStep(cipher, k1, k2, x, m);
    } else if |m| == 16 {
      FinishFull(cipher, k1, k2, x, m);
    } else {
      FinishShort(cipher, k1, k2, x, m);
    }
  }

  // ----- the three moves of a write -----

  /** The buffer and offset after writing `message`. */
  ghost predicate Holds(cipher: Block -> Block, message: seq<Byte>, buf: Block, off: nat) {
    off == Tail(message) && buf == Held(cipher, ZERO_BLOCK, message)
  }

  /** The buffer between two blocks. */
  ghost predicate Flushed(cipher: Block -> Block, done: seq<Byte>, buf: Block) {
    |done| % 16 == 0 && buf == Chain(cipher, ZERO_BLOCK, done)
  }

  lemma EmptyIsFlushed(cipher: Block -> Block, buf: Block)
    ensures Holds(cipher, [], buf, 0) <==> Flushed(cipher, [], buf)
  {
    XorWithZero(ZERO_BLOCK, PadTo([], 16));
  }

  lemma ZeroHoldsNothing(cipher: Block -> Block, buf: Block)
    requires forall i :: 0 <= i < 16 ==> buf[i] == 0
    ensures Holds(cipher, [], buf, 0)
  {
    XorWithZero(ZERO_BLOCK, PadTo([], 16));
    BlocksAreEqual(buf, ZERO_BLOCK);
  }

  lemma XoredIntoPadded(c: Block, part: seq<Byte>, p: seq<Byte>, before: Block, after: Block)
    requires |part| + |p| <= 16
    requires before == XorBlock(c, PadTo(part, 16)) && XoredAt(before, |part|, p, after)
    ensures after == XorBlock(c, PadTo(part + p, 16))
  {
    var whole := PadTo(part + p, 16);
    forall i | 0 <= i < 16
      ensures after[i] == XorBlock(c, whole)[i]
    {
      if i < |part| {
        assert whole[i] == part[i] == PadTo(part, 16)[i];
      } else if i < |part| + |p| {
        assert whole[i] == p[i - |part|] && PadTo(part, 16)[i] == 0;
        assert (c[i] ^ 0) ^ p[i - |part|] == c[i] ^ p[i - |part|];
      } else {
        assert whole[i] == 0 == PadTo(part, 16)[i];
      }
    }
    BlocksAreEqual(after, XorBlock(c, whole));
  }

  /** More bytes for a partly filled block. */
  lemma HoldMore(cipher: Block -> Block, message: seq<Byte>, buf: Block, off: nat, p: seq<Byte>, after: Block)
    requires Holds(cipher, message, buf, off) && 0 < off <= off + |p| <= 16 && XoredAt(buf, off, p, after)
    ensures Holds(cipher, message + p, after, off + |p|)
    ensures off + |p| == 16 ==> Flushed(cipher, message + p, cipher(after))
  {
    var m, part := message[..|message| - off], message[|message| - off..];
    assert message == m + part && message + p == m + (part + p);
    HeldAfterBlocks(cipher, ZERO_BLOCK, m, part);
    XoredIntoPadded(Chain(cipher, ZERO_BLOCK, m), part, p, buf, after);
    HeldAfterBlocks(cipher, ZERO_BLOCK, m, part + p);
    if off + |p| == 16 {
      FullIsPadded(part + p);
      FullBlockIsChained(cipher, m, part + p, after);
    }
  }

  lemma FullIsPadded(s: seq<Byte>)
    requires |s| == 16
    ensures PadTo(s, 16) == s
  {
    assert PadTo(s, 16)[..16] == PadTo(s, 16);
  }

  lemma FullBlockIsChained(cipher: Block -> Block, done: seq<Byte>, last: Block, after: Block)
    requires |done| % 16 == 0 && after == XorBlock(Chain(cipher, ZERO_BLOCK, done), last)
    ensures Chain(cipher, ZERO_BLOCK, done + last) == cipher(after)
  {
    ChainAppend(cipher, ZERO_BLOCK, done, last);
  }

  /** The first bytes of a new block. */
  lemma HoldNew(cipher: Block -> Block, done: seq<Byte>, buf: Block, p: seq<Byte>, after: Block)
    requires Flushed(cipher, done, buf) && 0 < |p| <= 16 && XoredAt(buf, 0, p, after)
    ensures Holds(cipher, done + p, after, |p|)
    ensures |p| == 16 ==> Flushed(cipher, done + p, cipher(after))
  {
    XorWithZero(buf, PadTo([], 16));
    XoredIntoPadded(buf, [], p, buf, after);
    assert [] + p == p;
    HeldAfterBlocks(cipher, ZERO_BLOCK, done, p);
    if |p| == 16 {
      FullIsPadded(p);
      FullBlockIsChained(cipher, done, p, after);
    }
  }

  /** The shifted block, folded when a bit fell out. */
  method SubKey(src: Block) returns (k: Block)
    ensures k == Double(src)
  {
    var dst := new Byte[16];
    var carry := ShiftLeft(dst, src);
    assert Shifted(src)[15] ^ 0 == Shifted(src)[15];
    dst[15] := dst[15] ^ (if carry == 1 then 0x87 else 0);
    k := dst[..];
  }

  class Cmac {
    const cipher: Block -> Block
    var k1: Block
    var k2: Block
    const buf: array<Byte>
    var off: nat
    /** Everything written since the last reset. */
    ghost var message: seq<Byte>

    ghost predicate Keyed()
      reads this
    {
      buf.Length == 16 && k1 == SubKey1(cipher) && k2 == SubKey2(cipher)
    }

    ghost predicate Valid()
      reads this, buf
    {
      && Keyed()
      && Holds(cipher, message, buf[..], off)
    }

    constructor (c: Block -> Block)
      ensures Valid() && fresh(buf) && cipher == c && message == []
    {
      cipher := c;
      buf := new Byte[16](_ => 0);
      off := 0;
      message := [];
      k1, k2 := ZERO_BLOCK, ZERO_BLOCK;
      new;
      k1 := SubKey(c(ZERO_BLOCK));
      k2 := SubKey(k1);
      ZeroHoldsNothing(c, buf[..]);
    }

    method Reset()
      requires Keyed()
      modifies buf, `off, `message
      ensures Valid() && message == []
    {
      for i := 0 to 16
        invariant forall k :: 0 <= k < i ==> buf[k] == 0
      {
        buf[i] := 0;
      }
      off := 0;
      message := [];
      ZeroHoldsNothing(cipher, buf[..]);
    }

    /** Appends `p`: however a message is split into writes, the same is held. */
    method Write(p: seq<Byte>)
      requires Valid()
      modifies buf, `off, `message
      ensures Valid() && message == old(message) + p
    {
      ghost var written := message;
      var rest := p;
      if off > 0 {
        written, rest := FillBlock(p, message);
      } else {
        EmptyIsFlushed(cipher, buf[..]);
      }
      if off == 0 {
        rest, written := EncryptBlocks(rest, written);
        if |rest| > 0 {
          HoldBytes(rest, written);
        } else {
          EmptyIsFlushed(cipher, buf[..]);
        }
      }
      message := message + p;
      assert written + rest == message;
      if rest == [] {
        assert written == message;
      }
    }

    /** Fills the partly filled block; it is encrypted once it is known not to be the last. */
    method FillBlock(p: seq<Byte>, ghost start: seq<Byte>) returns (ghost done: seq<Byte>, rest: seq<Byte>)
      requires buf.Length == 16 && off > 0 && Holds(cipher, start, buf[..], off)
      modifies buf, `off
      ensures done + rest == start + p
      ensures off == 0 ==> rest != [] && Flushed(cipher, done, buf[..])
      ensures off > 0 ==> rest == [] && Holds(cipher, done, buf[..], off)
    {
      ghost var before := buf[..];
      var needed := 16 - off;
      if |p| > needed {
        XorInto(buf, off, p[..needed]);
        HoldMore(cipher, start, before, off, p[..needed], buf[..]);
        done, rest := start + p[..needed], p[needed..];
        Store(buf, cipher(buf[..]));
        off := 0;
      } else {
        XorInto(buf, off, p);
        HoldMore(cipher, start, before, off, p, buf[..]);
        done, rest := start + p, [];
        off := off + |p|;
      }
    }

    method HoldBytes(p: seq<Byte>, ghost done: seq<Byte>)
      requires buf.Length == 16 && off == 0 && 0 < |p| <= 16 && Flushed(cipher, done, buf[..])
      modifies buf, `off
      ensures Holds(cipher, done + p, buf[..], off)
    {
      ghost var before := buf[..];
      XorInto(buf, off, p);
      HoldNew(cipher, done, before, p, buf[..]);
      off := off + |p|;
    }

    /** Absorbs and encrypts whole blocks while more than one block remains. */
    method EncryptBlocks(p: seq<Byte>, ghost start: seq<Byte>) returns (rest: seq<Byte>, ghost done: seq<Byte>)
      requires buf.Length == 16 && Flushed(cipher, start, buf[..])
      requires p == [] ==> start == []
      modifies buf
      ensures Flushed(cipher, done, buf[..]) && done + rest == start + p && |rest| <= 16
      ensures rest == [] ==> done == []
    {
      rest, done := p, start;
      while |rest| > 16
        invariant done + rest == start + p
        invariant rest == [] ==> done == []
        invariant Flushed(cipher, done, buf[..])
        decreases |rest|
      {
        ghost var before := buf[..];
        XorInto(buf, 0, rest[..16]);
        HoldNew(cipher, done, before, rest[..16], buf[..]);
        Store(buf, cipher(buf[..]));
        done := done + rest[..16];
        rest := rest[16..];
      }
    }

    /** The code for everything written so far is the one-shot CMAC of it. */
    method Sum() returns (tag: Block)
      requires Valid()
      ensures tag == Mac(cipher, message)
    {
      var block := new Byte[16];
      if off < 16 {
        Store(block, k2);
        XorInto(block, 0, buf[..]);
        block[off] := block[off] ^ 0x80;
      } else {
        Store(block, k1);
        XorInto(block, 0, buf[..]);
      }
      assert block[..] == LastBlock(k1, k2, buf[..], off);
      tag := cipher(block[..]);
      FinishIsMac(cipher, k1, k2, ZERO_BLOCK, message);
    }
  }
}
