/** The canonical encoding of leap histories. */
module LeapCodec {
  import opened MachineInt
  import opened Outcomes
  import opened Octets
  import opened Leap

  const MAGIC: seq<Octet> := [71, 83, 84, 76, 49]

  type Int32 = x: int | -0x8000_0000 <= x <= 0x7FFF_FFFF

  /** Sixteen octets: the second, the delta and seven zeros. */
  function EntryOctets(e: LeapEntry): (s: seq<Octet>)
    ensures |s| == 16
  {
    BigEndian(ToUnsigned(e.second), 8) + [e.delta % 256] + Zeros(7)
  }

  function EntriesOctets(entries: seq<LeapEntry>, n: nat): (s: seq<Octet>)
    requires n <= |entries|
    ensures |s| == 16 * n
  {
    if n == 0 then [] else EntriesOctets(entries, n - 1) + EntryOctets(entries[n - 1])
  }

  function Preamble(initial: Int32, count: nat): (s: seq<Octet>)
    ensures |s| == 13
  {
    MAGIC + BigEndian(initial % 0x1_0000_0000, 4) + BigEndian(count, 4)
  }

  /** The canonical octets; the count keeps its low 32 bits. */
  function Canonical(initial: Int32, entries: seq<LeapEntry>): seq<Octet> {
    Preamble(initial, |entries|) + EntriesOctets(entries, |entries|)
  }

  /** The octets before the entries: the name and version, the initial offset, and the count. */
  lemma PreambleOctets(initial: Int32, count: nat)
    ensures Preamble(initial, count)[..5] == [71, 83, 84, 76, 49]
    ensures Preamble(initial, count)[5..9] == BigEndian(if initial < 0 then initial + 0x1_0000_0000 else initial, 4)
    ensures Preamble(initial, count)[9..] == BigEndian(count, 4)
  {
    assert initial % 0x1_0000_0000 == if initial < 0 then initial + 0x1_0000_0000 else initial;
  }

  /** Strictly ascending, deltas of one second. */
  ghost predicate InOrder(entries: seq<LeapEntry>, n: nat)
    requires n <= |entries|
  {
    && (forall i :: 0 <= i < n ==> IsUnit(entries[i]))
    && (forall i :: 0 < i < n ==> Follows(entries, i))
  }

  predicate Follows(entries: seq<LeapEntry>, i: nat)
    requires 0 < i < |entries|
  {
    entries[i - 1].second < entries[i].second
  }

  /** Neighbours in order put all in order. */
  lemma {:induction false} OrderIsTransitive(entries: seq<LeapEntry>, i: nat, j: nat)
    requires InOrder(entries, |entries|) && i < j < |entries|
    ensures entries[i].second < entries[j].second
    decreases j
  {
    assert Follows(entries, j);
    if i < j - 1 {
      OrderIsTransitive(entries, i, j - 1);
    }
  }

  lemma InOrderIsValid(entries: seq<LeapEntry>)
    requires InOrder(entries, |entries|) && |entries| < 0x1_0000_0000
    ensures ValidHistory(entries)
  {
    forall i, j | 0 <= i < j < |entries|
      ensures Precedes(entries[i], entries[j])
    {
      OrderIsTransitive(entries, i, j);
    }
  }

  lemma InOrderMore(entries: seq<LeapEntry>, n: nat)
    requires n < |entries| && InOrder(entries, n)
    ensures InOrder(entries, n + 1) <==> IsUnit(entries[n]) && (n > 0 ==> Follows(entries, n))
  {
  }

  lemma InOrderPrefix(entries: seq<LeapEntry>, n: nat)
    requires n <= |entries| && !InOrder(entries, n)
    ensures !InOrder(entries, |entries|)
  {
  }

  lemma EntriesGrow(before: seq<Octet>, entries: seq<LeapEntry>, i: nat)
    requires i < |entries|
    ensures before + EntriesOctets(entries, i + 1) == before + EntriesOctets(entries, i) + EntryOctets(entries[i])
  {
  }

  /** Checks the entries while writing them out. */
  method NewLeapHistory(initial: Int32, entries: seq<LeapEntry>) returns (r: Result<seq<Octet>>)
    ensures r.Success? <==> InOrder(entries, |entries|)
    ensures r.Success? ==> r.value == Canonical(initial, entries)
  {
    var buffer := MAGIC;
    buffer := buffer + BigEndian(initial % 0x1_0000_0000, 4);
    buffer := buffer + BigEndian(|entries|, 4);
    var last: Int64 := INT64_MIN;
    for i := 0 to |entries|
      invariant InOrder(entries, i) && (i > 0 ==> last == entries[i - 1].second)
      invariant buffer == Preamble(initial, |entries|) + EntriesOctets(entries, i)
    {
      var fault := CheckEntry(entries, i, last);
      if fault.Some? {
        return Failure(fault.value);
      }
      last := entries[i].second;
      EntriesGrow(Preamble(initial, |entries|), entries, i);
      buffer := buffer + EntryOctets(entries[i]);
    }
    return Success(buffer);
  }

  /** Whether the i-th entry continues the history. */
  method CheckEntry(entries: seq<LeapEntry>, i: nat, last: Int64) returns (fault: Option<Fault>)
    requires i < |entries| && InOrder(entries, i) && (i > 0 ==> last == entries[i - 1].second)
    ensures fault.None? ==> InOrder(entries, i + 1)
    ensures fault.Some? ==> !InOrder(entries, |entries|)
  {
    var e := entries[i];
    InOrderMore(entries, i);
    if !InOrder(entries, i + 1) {
      InOrderPrefix(entries, i + 1);
    }
    if i > 0 && e.second <= last {
      return Some(if e.second == last then DuplicateTransition else UnsortedTransitions);
    }
    if e.delta != 1 && e.delta != -1 {
      return Some(InvalidDelta);
    }
    return None;
  }

  // ----- reading -----

  lemma {:induction false} EntryAt(entries: seq<LeapEntry>, n: nat, k: nat)
    requires k < n <= |entries|
    ensures EntriesOctets(entries, n)[16 * k..16 * k + 16] == EntryOctets(entries[k])
  {
    if k < n - 1 {
      EntryAt(entries, n - 1, k);
    }
  }

  lemma Widths()
    ensures Power256(4) == 0x1_0000_0000 && Power256(8) == TWO_64
  {
    assert Power256(2) == 0x1_0000;
    assert Power256(6) == 0x1_0000_0000_0000;
  }

  function SignedWord(n: nat): int {
    if n < 0x8000_0000 then n else n - 0x1_0000_0000
  }

  function SignedOctet(b: Octet): int {
    var n: int := b;
    if n < 128 then n else n - 256
  }

  /** The entry in sixteen octets. */
  function EntryFrom(s: seq<Octet>): LeapEntry
    requires |s| == 16
  {
    LeapEntry(ToSigned(BigValue(s[..8])), SignedOctet(s[8]))
  }

  ghost predicate ReservedIsZero(s: seq<Octet>)
    requires |s| == 16
  {
    s[9..] == Zeros(7)
  }

  lemma EntryRoundTrip(e: LeapEntry)
    requires IsUnit(e)
    ensures EntryFrom(EntryOctets(e)) == e && ReservedIsZero(EntryOctets(e))
  {
    var s := EntryOctets(e);
    Widths();
    BigEndianRoundTrip(ToUnsigned(e.second), 8);
    assert s[..8] == BigEndian(ToUnsigned(e.second), 8) && s[9..] == Zeros(7);
    ToSignedFits(e.second);
    assert ToSigned(ToUnsigned(e.second)) == ToSigned(e.second);
  }

  lemma EntryIsItsOctets(s: seq<Octet>)
    requires |s| == 16 && ReservedIsZero(s) && IsUnit(EntryFrom(s))
    ensures EntryOctets(EntryFrom(s)) == s
  {
    Widths();
    BigValueRoundTrip(s[..8]);
    SignedAndBack(BigValue(s[..8]));
    OctetAndBack(s[8]);
    assert s == s[..8] + [s[8]] + s[9..];
  }

  lemma OctetAndBack(b: Octet)
    ensures SignedOctet(b) % 256 == b
  {
  }

  lemma SignedAndBack(n: nat)
    requires n < TWO_64
    ensures ToUnsigned(ToSigned(n)) == n
  {
  }

  lemma PreambleParts(initial: Int32, count: nat)
    requires count < 0x1_0000_0000
    ensures var p := Preamble(initial, count);
            p[..5] == MAGIC && SignedWord(BigValue(p[5..9])) == initial && BigValue(p[9..13]) == count
  {
    var p := Preamble(initial, count);
    Widths();
    BigEndianRoundTrip(initial % 0x1_0000_0000, 4);
    BigEndianRoundTrip(count, 4);
    assert p[5..9] == BigEndian(initial % 0x1_0000_0000, 4) && p[9..13] == BigEndian(count, 4);
  }

  lemma PreambleFromParts(p: seq<Octet>)
    requires |p| == 13 && p[..5] == MAGIC
    ensures -0x8000_0000 <= SignedWord(BigValue(p[5..9])) <= 0x7FFF_FFFF
    ensures p == Preamble(SignedWord(BigValue(p[5..9])), BigValue(p[9..13]))
  {
    Widths();
    BigValueRoundTrip(p[5..9]);
    BigValueRoundTrip(p[9..13]);
    assert SignedWord(BigValue(p[5..9])) % 0x1_0000_0000 == BigValue(p[5..9]);
    assert p == p[..5] + p[5..9] + p[9..13];
  }

  /** The data are the encoding of a valid history. */
  ghost predicate Encodes(data: seq<Octet>, initial: Int32, entries: seq<LeapEntry>) {
    |entries| < 0x1_0000_0000 && InOrder(entries, |entries|) && data == Canonical(initial, entries)
  }

  /** What any encoded history must look like. */
  lemma EncodedParts(data: seq<Octet>, initial: Int32, entries: seq<LeapEntry>)
    requires Encodes(data, initial, entries)
    ensures |data| == 13 + 16 * |entries| && data[..5] == MAGIC
    ensures SignedWord(BigValue(data[5..9])) == initial && BigValue(data[9..13]) == |entries|
    ensures forall k :: 0 <= k < |entries| ==>
              EntryFrom(data[13 + 16 * k..29 + 16 * k]) == entries[k] && ReservedIsZero(data[13 + 16 * k..29 + 16 * k])
  {
    PreambleParts(initial, |entries|);
    assert data[..5] == Preamble(initial, |entries|)[..5];
    assert data[5..9] == Preamble(initial, |entries|)[5..9] && data[9..13] == Preamble(initial, |entries|)[9..13];
    forall k | 0 <= k < |entries|
      ensures EntryFrom(data[13 + 16 * k..29 + 16 * k]) == entries[k] && ReservedIsZero(data[13 + 16 * k..29 + 16 * k])
    {
      EntryAt(entries, |entries|, k);
      assert data[13 + 16 * k..29 + 16 * k] == EntriesOctets(entries, |entries|)[16 * k..16 * k + 16];
      assert IsUnit(entries[k]);
      EntryRoundTrip(entries[k]);
    }
  }

  /** Two histories with the same encoding are the same. */
  lemma EncodingIsInjective(data: seq<Octet>, x: Int32, a: seq<LeapEntry>, y: Int32, b: seq<LeapEntry>)
    requires Encodes(data, x, a) && Encodes(data, y, b)
    ensures x == y && a == b
  {
    EncodedParts(data, x, a);
    EncodedParts(data, y, b);
    forall k | 0 <= k < |a|
      ensures a[k] == b[k]
    {
      assert EntryFrom(data[13 + 16 * k..29 + 16 * k]) == b[k];
    }
  }

  /** Parses the canonical encoding; it fails exactly on data that are not the encoding of a history. */
  method ParseLeapHistory(data: seq<Octet>) returns (r: Result<(Int32, seq<LeapEntry>)>)
    ensures r.Success? ==> Encodes(data, r.value.0, r.value.1) && ValidHistory(r.value.1)
    ensures r.Failure? ==> forall initial, entries :: !Encodes(data, initial, entries)
  {
    forall initial, entries | Encodes(data, initial, entries)
      ensures |data| == 13 + 16 * |entries| && data[..5] == MAGIC && BigValue(data[9..13]) == |entries|
    {
      EncodedParts(data, initial, entries);
    }
    if |data| < 13 {
      return Failure(LengthMismatch);
    }
    if data[..5] != MAGIC {
      return Failure(InvalidMagic);
    }
    PreambleFromParts(data[..13]);
    assert data[..13][..5] == data[..5] && data[..13][5..9] == data[5..9] && data[..13][9..13] == data[9..13];
    var initial := SignedWord(BigValue(data[5..9]));
    var count := BigValue(data[9..13]);
    Widths();
    if |data| != 13 + count * 16 {
      return Failure(LengthMismatch);
    }
    var parsed := ParseEntries(data, count);
    match parsed {
      case Failure(e) =>
        NoEntriesNoHistory(data, count);
        return Failure(e);
      case Success(entries) =>
        InOrderIsValid(entries);
        SplitAt(data, 13);
        return Success((initial, entries));
    }
  }

  ghost predicate EntriesEncode(data: seq<Octet>, entries: seq<LeapEntry>, n: nat)
    requires |data| >= 13 + 16 * n
  {
    |entries| == n && InOrder(entries, n) && data[13..13 + 16 * n] == EntriesOctets(entries, n)
  }

  lemma NoEntriesNoHistory(data: seq<Octet>, count: nat)
    requires |data| == 13 + 16 * count && BigValue(data[9..13]) == count
    requires forall entries :: !EntriesEncode(data, entries, count)
    ensures forall initial, entries :: !Encodes(data, initial, entries)
  {
    forall initial, entries
      ensures !Encodes(data, initial, entries)
    {
      if Encodes(data, initial, entries) {
        EncodedParts(data, initial, entries);
        assert data[13..13 + 16 * count] == EntriesOctets(entries, count);
        assert EntriesEncode(data, entries, count);
      }
    }
  }

  /** The k-th entry of encoded entries. */
  lemma EncodedEntry(data: seq<Octet>, entries: seq<LeapEntry>, n: nat, k: nat)
    requires |data| >= 13 + 16 * n && EntriesEncode(data, entries, n) && k < n
    ensures var s := data[13 + 16 * k..29 + 16 * k]; EntryFrom(s) == entries[k] && ReservedIsZero(s) && IsUnit(entries[k])
  {
    EntryAt(entries, n, k);
    SliceOfSlice(data, 13, 13 + 16 * n, 16 * k, 16 * k + 16);
    assert IsUnit(entries[k]);
    EntryRoundTrip(entries[k]);
  }

  lemma EncodedNeighbours(data: seq<Octet>, entries: seq<LeapEntry>, n: nat, k: nat)
    requires |data| >= 13 + 16 * n && EntriesEncode(data, entries, n) && 0 < k < n
    ensures EntryFrom(data[16 * k - 3..16 * k + 13]).second < EntryFrom(data[13 + 16 * k..29 + 16 * k]).second
  {
    EncodedEntry(data, entries, n, k - 1);
    EncodedEntry(data, entries, n, k);
    assert Follows(entries, k);
  }

  lemma NotEncoded(data: seq<Octet>, n: nat, k: nat)
    requires |data| >= 13 + 16 * n && k < n
    requires var s := data[13 + 16 * k..29 + 16 * k];
             || !IsUnit(EntryFrom(s)) || !ReservedIsZero(s)
             || (k > 0 && EntryFrom(s).second <= EntryFrom(data[16 * k - 3..16 * k + 13]).second)
    ensures forall entries :: !EntriesEncode(data, entries, n)
  {
    forall entries
      ensures !EntriesEncode(data, entries, n)
    {
      if EntriesEncode(data, entries, n) {
        EncodedEntry(data, entries, n, k);
        if k > 0 {
          EncodedNeighbours(data, entries, n, k);
        }
      }
    }
  }

  method ParseEntries(data: seq<Octet>, count: nat) returns (r: Result<seq<LeapEntry>>)
    requires |data| == 13 + count * 16
    ensures r.Success? ==> EntriesEncode(data, r.value, count)
    ensures r.Failure? ==> forall entries :: !EntriesEncode(data, entries, count)
  {
    var entries: seq<LeapEntry> := [];
    var offset := 13;
    var last: Int64 := INT64_MIN;
    for i := 0 to count
      invariant offset == 13 + 16 * i && EntriesEncode(data, entries, i)
      invariant i > 0 ==> last == entries[i - 1].second && last == EntryFrom(data[offset - 16..offset]).second
    {
      ghost var s := data[offset..offset + 16];
      var e, clean := ReadEntry(data, offset);
      if i > 0 && e.second <= last {
        NotEncoded(data, count, i);
        return Failure(if e.second == last then DuplicateTransition else UnsortedTransitions);
      }
      if e.delta != 1 && e.delta != -1 {
        NotEncoded(data, count, i);
        return Failure(InvalidDelta);
      }
      if !clean {
        NotEncoded(data, count, i);
        return Failure(ReservedNonzero);
      }
      EntryIsItsOctets(s);
      MoreEntries(data, entries, i, e);
      last := e.second;
      entries := entries + [e];
      offset := offset + 16;
    }
    return Success(entries);
  }

  /** The entry at the offset, and whether its reserved octets are zero. */
  method ReadEntry(data: seq<Octet>, offset: nat) returns (e: LeapEntry, clean: bool)
    requires offset + 16 <= |data|
    ensures e == EntryFrom(data[offset..offset + 16]) && clean == ReservedIsZero(data[offset..offset + 16])
  {
    SliceOfSlice(data, offset, offset + 16, 0, 8);
    SliceOfSlice(data, offset, offset + 16, 9, 16);
    e := LeapEntry(ToSigned(BigValue(data[offset..offset + 8])), SignedOctet(data[offset + 8]));
    clean := data[offset + 9..offset + 16] == Zeros(7);
  }

  lemma MoreEntries(data: seq<Octet>, entries: seq<LeapEntry>, n: nat, e: LeapEntry)
    requires |data| >= 13 + 16 * (n + 1) && EntriesEncode(data, entries, n) && IsUnit(e)
    requires data[13 + 16 * n..29 + 16 * n] == EntryOctets(e)
    requires n > 0 ==> entries[n - 1].second < e.second
    ensures EntriesEncode(data, entries + [e], n + 1)
  {
    var more := entries + [e];
    forall i | 0 < i < n + 1
      ensures Follows(more, i)
    {
      assert i < n ==> Follows(entries, i);
    }
    forall i | 0 <= i < n + 1
      ensures IsUnit(more[i])
    {
      assert i < n ==> IsUnit(entries[i]);
    }
    SameOctets(entries, e, n);
    var to: nat := 13 + 16 * n;
    assert data[13..to + 16] == data[13..to] + data[to..to + 16];
  }

  lemma {:induction false} SameOctets(entries: seq<LeapEntry>, e: LeapEntry, n: nat)
    requires n <= |entries|
    ensures EntriesOctets(entries + [e], n) == EntriesOctets(entries, n)
  {
    if n > 0 {
      SameOctets(entries, e, n - 1);
    }
  }
}
