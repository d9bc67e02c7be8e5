/** The record framing of NTS key establishment: section 4 of RFC 8915. */
module Records {
  import opened Octets
  import opened Outcomes

  const CRITICAL_BIT: nat := 0x8000

  datatype Record = Record(critical: bool, kind: nat, body: seq<Octet>)

  /** The record can be framed: 15 bits of type, 16 bits of length. */
  predicate IsFramable(r: Record) {
    r.kind < CRITICAL_BIT && |r.body| < 65536
  }

  function TypeWord(r: Record): nat {
    r.kind % CRITICAL_BIT + if r.critical then CRITICAL_BIT else 0
  }

  function EncodeRecord(r: Record): (w: seq<Octet>)
    ensures |w| == 4 + |r.body|
  {
    Word16(TypeWord(r)) + Word16(|r.body|) + r.body
  }

  function Encoded(records: seq<Record>): seq<Octet> {
    if records == [] then [] else EncodeRecord(records[0]) + Encoded(records[1..])
  }

  /** The data hold a whole record. */
  predicate HasHead(data: seq<Octet>) {
    |data| >= 4 && |data| >= 4 + Value16(data[2..4])
  }

  /** The record in front of the data. */
  function Head(data: seq<Octet>): Record
    requires HasHead(data)
  {
    var word := Value16(data[..2]);
    Record(word >= CRITICAL_BIT, word % CRITICAL_BIT, data[4..4 + Value16(data[2..4])])
  }

  function Rest(data: seq<Octet>): (r: seq<Octet>)
    requires HasHead(data)
    ensures |r| < |data|
  {
    data[4 + Value16(data[2..4])..]
  }

  lemma HeadIsFramed(data: seq<Octet>)
    requires HasHead(data)
    ensures IsFramable(Head(data)) && data == EncodeRecord(Head(data)) + Rest(data)
  {
    assert TypeWord(Head(data)) == Value16(data[..2]);
    Value16RoundTrip(data[..2]);
    Value16RoundTrip(data[2..4]);
    assert data == data[..2] + data[2..4] + Head(data).body + Rest(data);
  }

  lemma FramedIsHead(r: Record, rest: seq<Octet>)
    requires IsFramable(r)
    ensures HasHead(EncodeRecord(r) + rest)
    ensures Head(EncodeRecord(r) + rest) == r && Rest(EncodeRecord(r) + rest) == rest
  {
    var data := EncodeRecord(r) + rest;
    Word16RoundTrip(|r.body|);
    Word16RoundTrip(TypeWord(r));
    assert data[..2] == Word16(TypeWord(r)) && data[2..4] == Word16(|r.body|);
    assert data[4..4 + |r.body|] == r.body && data[4 + |r.body|..] == rest;
  }

  /** The records that the data frame, or why there are none. */
  function Parsed(data: seq<Octet>, cap: int): Result<seq<Record>>
    decreases |data|
  {
    if data == [] then Success([])
    else if |data| < 4 then Failure(RecordTooShort)
    else if cap > 0 && Value16(data[2..4]) > cap then Failure(RecordCapExceeded)
    else if !HasHead(data) then Failure(TruncatedRecord)
    else Prepended([Head(data)], Parsed(Rest(data), cap))
  }

  function Prepended(records: seq<Record>, r: Result<seq<Record>>): Result<seq<Record>> {
    match r
    case Failure(e) => Failure(e)
    case Success(rest) => Success(records + rest)
  }

  lemma PrependedTwice(a: seq<Record>, b: seq<Record>, r: Result<seq<Record>>)
    ensures Prepended(a, Prepended(b, r)) == Prepended(a + b, r)
  {
    if r.Success? {
      assert a + (b + r.value) == a + b + r.value;
    }
  }

  lemma PrependedNothing(r: Result<seq<Record>>)
    ensures Prepended([], r) == r
  {
    if r.Success? {
      assert [] + r.value == r.value;
    }
  }

  /** Reads record after record from a buffer. */
  method ParseRecords(data: seq<Octet>, cap: int) returns (r: Result<seq<Record>>)
    ensures r == Parsed(data, cap)
  {
    var records: seq<Record> := [];
    var offset := 0;
    assert data[0..] == data && Prepended([], Parsed(data, cap)) == Parsed(data, cap) by {
      PrependedNothing(Parsed(data, cap));
    }
    while offset < |data|
      invariant offset <= |data|
      invariant Parsed(data, cap) == Prepended(records, Parsed(data[offset..], cap))
    {
      ghost var rest := data[offset..];
      if |data| - offset < 4 {
        return Failure(RecordTooShort);
      }
      SliceOfRest(data, offset, 2, 4);
      SliceOfRest(data, offset, 0, 2);
      var word := Value16(data[offset..offset + 2]);
      var size := Value16(data[offset + 2..offset + 4]);
      if cap > 0 && size > cap {
        return Failure(RecordCapExceeded);
      }
      if |data| - offset < 4 + size {
        return Failure(TruncatedRecord);
      }
      var record := Record(word >= CRITICAL_BIT, word % CRITICAL_BIT, data[offset + 4..offset + 4 + size]);
      SliceOfRest(data, offset, 4, 4 + size);
      RestOfRest(data, offset, 4 + size);
      assert record == Head(rest) && data[offset + 4 + size..] == Rest(rest);
      PrependedTwice(records, [record], Parsed(Rest(rest), cap));
      records := records + [record];
      offset := offset + 4 + size;
    }
    assert data[offset..] == [] && records + [] == records;
    return Success(records);
  }

  // ----- parsing and encoding are inverse -----

  ghost predicate AllFramable(records: seq<Record>, cap: int) {
    forall r :: r in records ==> IsFramable(r) && (cap > 0 ==> |r.body| <= cap)
  }

  /** Framable records within the cap are parsed from their encoding. */
  lemma {:induction false} EncodedIsParsed(records: seq<Record>, cap: int)
    requires AllFramable(records, cap)
    ensures Parsed(Encoded(records), cap) == Success(records)
    decreases |records|
  {
    if records != [] {
      var r := records[0];
      EncodedIsParsed(records[1..], cap);
      var data := EncodeRecord(r) + Encoded(records[1..]);
      FramedIsHead(r, Encoded(records[1..]));
      assert Value16(data[2..4]) == |Head(data).body| == |r.body|;
      assert r in records;
      assert Encoded(records) == data;
      assert [r] + records[1..] == records;
      assert Prepended([r], Success(records[1..])) == Success(records);
      assert Parsed(data, cap) == Success(records);
    }
  }

  /** What is parsed encodes to the data, and is framable within the cap. */
  lemma {:induction false} ParsedIsEncoded(data: seq<Octet>, cap: int)
    requires Parsed(data, cap).Success?
    ensures Encoded(Parsed(data, cap).value) == data && AllFramable(Parsed(data, cap).value, cap)
    decreases |data|
  {
    if data != [] {
      ParsedIsEncoded(Rest(data), cap);
      HeadIsFramed(data);
      var rest := Parsed(Rest(data), cap).value;
      assert ([Head(data)] + rest)[1..] == rest;
    }
  }

  // ----- the client's request -----

  const END: Record := Record(true, 0, [])

  function AlgorithmList(offered: seq<nat>, n: nat): (s: seq<Octet>)
    requires n <= |offered|
    ensures |s| == 2 * n
  {
    if n == 0 then [] else AlgorithmList(offered, n - 1) + Word16(offered[n - 1])
  }

  function RequestRecords(offered: seq<nat>, marker: bool): seq<Record> {
    [Record(true, 1, Word16(0)), Record(true, 4, AlgorithmList(offered, |offered|))]
    + (if marker then [Record(false, 1024, [])] else []) + [END]
  }

  lemma {:induction false} EncodedConcat(a: seq<Record>, b: seq<Record>)
    ensures Encoded(a + b) == Encoded(a) + Encoded(b)
    decreases |a|
  {
    if a == [] {
      assert a + b == b;
    } else {
      EncodedConcat(a[1..], b);
      assert (a + b)[1..] == a[1..] + b;
    }
  }

  lemma EncodedOne(r: Record)
    ensures Encoded([r]) == EncodeRecord(r)
  {
    assert [r][1..] == [];
  }

  method AppendRecord(sent: seq<Octet>, r: Record, ghost before: seq<Record>) returns (out: seq<Octet>)
    requires sent == Encoded(before)
    ensures out == Encoded(before + [r])
  {
    out := sent + EncodeRecord(r);
    EncodedConcat(before, [r]);
    EncodedOne(r);
  }

  method BuildClientRequest(offered: seq<nat>, marker: bool) returns (out: seq<Octet>)
    ensures out == Encoded(RequestRecords(offered, marker))
  {
    out := AppendRecord([], Record(true, 1, Word16(0)), []);
    var list: seq<Octet> := [];
    for i := 0 to |offered|
      invariant list == AlgorithmList(offered, i)
    {
      list := list + Word16(offered[i]);
    }
    ghost var records := [] + [Record(true, 1, Word16(0))];
    out := AppendRecord(out, Record(true, 4, list), records);
    records := records + [Record(true, 4, list)];
    if marker {
      out := AppendRecord(out, Record(false, 1024, []), records);
      records := records + [Record(false, 1024, [])];
    }
    out := AppendRecord(out, END, records);
    assert records + [END] == RequestRecords(offered, marker);
  }

  /** A request for any list of algorithms that fits a record is read back as sent. */
  lemma RequestIsParsed(offered: seq<nat>, marker: bool)
    requires 2 * |offered| < 65536
    ensures Parsed(Encoded(RequestRecords(offered, marker)), 0) == Success(RequestRecords(offered, marker))
  {
    EncodedIsParsed(RequestRecords(offered, marker), 0);
  }

  lemma RecordOctets(critical: bool, kind: nat, body: seq<Octet>)
    requires kind < 0x8000 && |body| < 256
    ensures EncodeRecord(Record(critical, kind, body)) ==
              [(if critical then 128 else 0) + kind / 256, kind % 256, 0, |body|] + body
  {
    TypeOctets(critical, kind, body);
    assert Word16(|body|) == [0, |body|];
  }

  lemma TypeOctets(critical: bool, kind: nat, body: seq<Octet>)
    requires kind < 0x8000
    ensures Word16(TypeWord(Record(critical, kind, body))) == [(if critical then 128 else 0) + kind / 256, kind % 256]
  {
  }

  lemma TwoAlgorithms(x: nat, y: nat)
    requires x < 256 && y < 256
    ensures AlgorithmList([x, y], 2) == [0, x, 0, y]
  {
    assert AlgorithmList([x, y], 1) == AlgorithmList([x, y], 0) + [0, x];
  }

  lemma FourRecords()
    ensures RequestRecords([15, 30], true) ==
              [Record(true, 1, [0, 0])] + [Record(true, 4, [0, 15, 0, 30])] + [Record(false, 1024, [])] + [END]
  {
    TwoAlgorithms(15, 30);
  }

  /** What is sent to a server, octet by octet. */
  lemma RequestOctets()
    ensures Encoded(RequestRecords([15, 30], true)) ==
              ([0x80, 1, 0, 2] + [0, 0]) + ([0x80, 4, 0, 4] + [0, 15, 0, 30]) + ([4, 0, 0, 0] + []) + ([0x80, 0, 0, 0] + [])
  {
    var a, b, c := Record(true, 1, [0, 0]), Record(true, 4, [0, 15, 0, 30]), Record(false, 1024, []);
    FourRecords();
    RecordOctets(true, 1, [0, 0]);
    RecordOctets(true, 4, [0, 15, 0, 30]);
    RecordOctets(false, 1024, []);
    RecordOctets(true, 0, []);
    FourEncoded(a, b, c, END);
  }

  lemma FourEncoded(a: Record, b: Record, c: Record, d: Record)
    ensures Encoded([a] + [b] + [c] + [d]) == EncodeRecord(a) + EncodeRecord(b) + EncodeRecord(c) + EncodeRecord(d)
  {
    EncodedConcat([a] + [b] + [c], [d]);
    EncodedConcat([a] + [b], [c]);
    EncodedConcat([a], [b]);
    EncodedOne(a);
    EncodedOne(b);
    EncodedOne(c);
    EncodedOne(d);
  }
}
