/** NTP extension fields: section 7.5 of RFC 5905 as updated by RFC 7822. */
module Extension {
  import opened Octets
  import opened Outcomes

  datatype Field = Field(kind: nat, value: seq<Octet>, wire: seq<Octet>)

  /** The field's wire image is its header and its value, in whole words. */
  ghost predicate IsWireField(f: Field) {
    && f.kind < 65536 && 4 <= |f.wire| < 65536 && |f.wire| % 4 == 0
    && f.wire == Word16(f.kind) + Word16(|f.wire|) + f.value
  }

  function Wires(fields: seq<Field>): seq<Octet> {
    if fields == [] then [] else Wires(fields[..|fields| - 1]) + fields[|fields| - 1].wire
  }

  /** The data are the wires of the fields, then fewer than four octets. */
  ghost predicate IsFraming(data: seq<Octet>, fields: seq<Field>, trailing: seq<Octet>) {
    data == Wires(fields) + trailing && |trailing| < 4 && forall f :: f in fields ==> IsWireField(f)
  }

  lemma {:induction false} WiresConcat(a: seq<Field>, b: seq<Field>)
    ensures Wires(a + b) == Wires(a) + Wires(b)
  {
    if b == [] {
      assert a + b == a;
    } else {
      assert (a + b)[..|a + b| - 1] == a + b[..|b| - 1];
      WiresConcat(a, b[..|b| - 1]);
    }
  }

  lemma WiresOfOne(f: Field)
    ensures Wires([f]) == f.wire
  {
    assert [f][..0] == [];
  }

  lemma WireIsRead(f: Field)
    requires IsWireField(f)
    ensures Value16(f.wire[2..4]) == |f.wire| && Value16(f.wire[..2]) == f.kind && f.value == f.wire[4..]
  {
    assert f.wire[..2] == Word16(f.kind) && f.wire[2..4] == Word16(|f.wire|) && f.wire[4..] == f.value;
    Word16RoundTrip(f.kind);
    Word16RoundTrip(|f.wire|);
  }

  /** The first field of a framing can be read off the data. */
  lemma FirstField(data: seq<Octet>, fields: seq<Field>, trailing: seq<Octet>)
    requires IsFraming(data, fields, trailing) && fields != []
    ensures var f := fields[0];
            && IsWireField(f) && |f.wire| <= |data| && data[..|f.wire|] == f.wire
            && IsFraming(data[|f.wire|..], fields[1..], trailing)
  {
    var f := fields[0];
    assert f in fields && IsWireField(f);
    WiresOfOne(f);
    assert [f] + fields[1..] == fields;
    WiresConcat([f], fields[1..]);
    assert data == f.wire + (Wires(fields[1..]) + trailing);
  }

  lemma FirstHeader(data: seq<Octet>, fields: seq<Field>, trailing: seq<Octet>)
    requires IsFraming(data, fields, trailing) && fields != []
    ensures var f := fields[0];
            && 4 <= |f.wire| <= |data| && |f.wire| % 4 == 0
            && Value16(data[2..4]) == |f.wire| && Value16(data[..2]) == f.kind
  {
    FirstField(data, fields, trailing);
    WireIsRead(fields[0]);
    assert data[..2] == fields[0].wire[..2] && data[2..4] == fields[0].wire[2..4];
  }

  lemma LongEnoughHasField(data: seq<Octet>, fields: seq<Field>, trailing: seq<Octet>)
    requires IsFraming(data, fields, trailing)
    ensures |data| >= 4 <==> fields != []
  {
    if fields == [] {
      assert Wires(fields) == [];
    } else {
      FirstHeader(data, fields, trailing);
    }
  }

  /** Data have at most one framing. */
  lemma {:induction false} FramingIsUnique(data: seq<Octet>, a: seq<Field>, x: seq<Octet>, b: seq<Field>, y: seq<Octet>)
    requires IsFraming(data, a, x) && IsFraming(data, b, y)
    ensures a == b && x == y
    decreases |a|
  {
    LongEnoughHasField(data, a, x);
    LongEnoughHasField(data, b, y);
    if a == [] {
      assert Wires(a) + x == x && Wires(b) + y == y;
    } else {
      FirstField(data, a, x);
      FirstField(data, b, y);
      FirstHeader(data, a, x);
      FirstHeader(data, b, y);
      WireIsRead(a[0]);
      WireIsRead(b[0]);
      FramingIsUnique(data[|a[0].wire|..], a[1..], x, b[1..], y);
      assert a == [a[0]] + a[1..] && b == [b[0]] + b[1..];
    }
  }

  /** A framing of everything starts with the fields read so far. */
  lemma {:induction false} FramingOfRest(data: seq<Octet>, done: seq<Field>, offset: nat, fields: seq<Field>,
                                         trailing: seq<Octet>)
    requires offset <= |data| && data[..offset] == Wires(done) && (forall f :: f in done ==> IsWireField(f))
    requires IsFraming(data, fields, trailing)
    ensures |done| <= |fields| && IsFraming(data[offset..], fields[|done|..], trailing)
    decreases |done|
  {
    if done == [] {
      assert data[0..] == data && fields[0..] == fields;
    } else {
      var n := |done| - 1;
      var d := done[n];
      var start := offset - |d.wire|;
      assert data[..start] == Wires(done[..n]) && data[start..offset] == d.wire;
      FramingOfRest(data, done[..n], start, fields, trailing);
      NextField(data[start..], d, fields[n..], trailing);
      RestOfRest(data, start, |d.wire|);
      assert fields[n..][1..] == fields[n + 1..];
    }
  }

  lemma NextField(rest: seq<Octet>, d: Field, fields: seq<Field>, trailing: seq<Octet>)
    requires IsFraming(rest, fields, trailing) && IsWireField(d) && |d.wire| <= |rest| && rest[..|d.wire|] == d.wire
    ensures fields != [] && IsFraming(rest[|d.wire|..], fields[1..], trailing)
  {
    WireIsRead(d);
    LongEnoughHasField(rest, fields, trailing);
    FirstField(rest, fields, trailing);
    FirstHeader(rest, fields, trailing);
    assert rest[2..4] == d.wire[2..4];
  }

  /** The header in front of the data does not announce a field that fits. */
  lemma NoFieldHere(data: seq<Octet>)
    requires |data| >= 4
    requires var n := Value16(data[2..4]); n < 4 || n > |data| || n % 4 != 0
    ensures forall fields, trailing :: !IsFraming(data, fields, trailing)
  {
    forall fields, trailing
      ensures !IsFraming(data, fields, trailing)
    {
      if IsFraming(data, fields, trailing) {
        LongEnoughHasField(data, fields, trailing);
        FirstHeader(data, fields, trailing);
      }
    }
  }

  lemma NoFramingOfRest(data: seq<Octet>, done: seq<Field>, offset: nat)
    requires offset <= |data| && data[..offset] == Wires(done) && (forall f :: f in done ==> IsWireField(f))
    requires forall fields, trailing :: !IsFraming(data[offset..], fields, trailing)
    ensures forall fields, trailing :: !IsFraming(data, fields, trailing)
  {
    forall fields, trailing
      ensures !IsFraming(data, fields, trailing)
    {
      if IsFraming(data, fields, trailing) {
        FramingOfRest(data, done, offset, fields, trailing);
      }
    }
  }

  lemma FieldIsRead(data: seq<Octet>, offset: nat, length: nat)
    requires offset + length <= |data| && 4 <= length && length % 4 == 0
    requires length == Value16(data[offset + 2..offset + 4])
    ensures var wire := data[offset..offset + length];
            IsWireField(Field(Value16(data[offset..offset + 2]), wire[4..], wire))
  {
    var wire := data[offset..offset + length];
    Value16RoundTrip(data[offset..offset + 2]);
    Value16RoundTrip(data[offset + 2..offset + 4]);
    assert wire == data[offset..offset + 2] + data[offset + 2..offset + 4] + wire[4..];
  }

  lemma AppendWire(data: seq<Octet>, fields: seq<Field>, offset: nat, f: Field)
    requires offset + |f.wire| <= |data| && data[offset..offset + |f.wire|] == f.wire && data[..offset] == Wires(fields)
    ensures data[..offset + |f.wire|] == Wires(fields + [f])
  {
    assert (fields + [f])[..|fields|] == fields;
    assert data[..offset + |f.wire|] == data[..offset] + f.wire;
  }

  /** Finds the framing of the data, and fails exactly when there is none. */
  method ParseExtensionFields(data: seq<Octet>) returns (r: Result<(seq<Field>, seq<Octet>)>)
    ensures r.Success? ==> IsFraming(data, r.value.0, r.value.1)
    ensures r.Failure? ==> r.error == MalformedExtension && forall fields, trailing :: !IsFraming(data, fields, trailing)
  {
    var fields: seq<Field> := [];
    var offset := 0;
    while offset < |data|
      invariant offset <= |data| && data[..offset] == Wires(fields)
      invariant forall f :: f in fields ==> IsWireField(f)
    {
      var remaining := |data| - offset;
      if remaining < 4 {
        break;
      }
      ghost var rest := data[offset..];
      SliceOfRest(data, offset, 2, 4);
      var kind := Value16(data[offset..offset + 2]);
      var length := Value16(data[offset + 2..offset + 4]);
      if length < 4 || length > remaining || length % 4 != 0 {
        NoFieldHere(rest);
        NoFramingOfRest(data, fields, offset);
        return Failure(MalformedExtension);
      }
      var wire := data[offset..offset + length];
      var f := Field(kind, wire[4..], wire);
      FieldIsRead(data, offset, length);
      AppendWire(data, fields, offset, f);
      fields := fields + [f];
      offset := offset + length;
    }
    SplitAt(data, offset);
    return Success((fields, data[offset..]));
  }

  // ----- encoding -----

  /** The wire image of a value: header, value, and zeros up to a whole word. */
  function EncodedField(f: Field): (w: seq<Octet>)
    ensures |w| == 4 + |f.value| + Padding(|f.value|)
  {
    Word16(f.kind) + Word16(4 + |f.value| + Padding(|f.value|)) + f.value + Zeros(Padding(|f.value|))
  }

  function Encoded(fields: seq<Field>): seq<Octet> {
    if fields == [] then [] else Encoded(fields[..|fields| - 1]) + EncodedField(fields[|fields| - 1])
  }

  function EncodedLength(fields: seq<Field>, n: nat): nat
    requires n <= |fields|
  {
    if n == 0 then 0 else EncodedLength(fields, n - 1) + |EncodedField(fields[n - 1])|
  }

  lemma {:induction false} EncodedHasLength(fields: seq<Field>, n: nat)
    requires n <= |fields|
    ensures |Encoded(fields[..n])| == EncodedLength(fields, n)
  {
    if n > 0 {
      assert fields[..n][..n - 1] == fields[..n - 1];
      EncodedHasLength(fields, n - 1);
    }
  }

  lemma {:induction false} LengthsAscend(fields: seq<Field>, m: nat, n: nat)
    requires m <= n <= |fields|
    ensures EncodedLength(fields, m) <= EncodedLength(fields, n)
    decreases n
  {
    if m < n {
      LengthsAscend(fields, m, n - 1);
    }
  }

  /** Copies a string into the buffer. */
  method CopyInto(out: array<Octet>, at: nat, src: seq<Octet>)
    requires at + |src| <= out.Length
    modifies out
    ensures out[..] == old(out[..at]) + src + old(out[at + |src|..])
  {
    for i := 0 to |src|
      invariant forall k :: 0 <= k < out.Length ==> out[k] == if at <= k < at + i then src[k - at] else old(out[k])
    {
      out[at + i] := src[i];
    }
  }

  lemma ZerosSplit(n: nat, k: nat)
    requires k <= n
    ensures Zeros(n)[k..] == Zeros(n - k) && Zeros(n) == Zeros(k) + Zeros(n - k)
  {
  }

  /** Copies a string to the start of the zeroed room. */
  method Append(out: array<Octet>, at: nat, src: seq<Octet>, ghost done: seq<Octet>, ghost room: nat)
    requires at == |done| && |src| <= room && out[..] == done + Zeros(room)
    modifies out
    ensures out[..] == done + src + Zeros(room - |src|)
  {
    assert out.Length == |out[..]|;
    ZerosSplit(room, |src|);
    assert out[..at] == out[..][..at] == done;
    assert out[at + |src|..] == out[..][at + |src|..] == Zeros(room - |src|);
    CopyInto(out, at, src);
  }

  /** Writes one field into zeroed space; its padding stays zero. */
  method EncodeOne(out: array<Octet>, offset: nat, f: Field, pad: nat, ghost done: seq<Octet>, ghost room: nat)
    requires pad == Padding(|f.value|) && offset == |done| && |EncodedField(f)| <= room
    requires out[..] == done + Zeros(room)
    modifies out
    ensures out[..] == done + EncodedField(f) + Zeros(room - |EncodedField(f)|)
  {
    Append(out, offset, Word16(f.kind), done, room);
    ghost var kind := done + Word16(f.kind);
    Append(out, offset + 2, Word16(4 + |f.value| + pad), kind, room - 2);
    ghost var head := kind + Word16(4 + |f.value| + pad);
    Append(out, offset + 4, f.value, head, room - 4);
    ZerosSplit(room - 4 - |f.value|, pad);
    assert head + f.value + Zeros(pad) == done + EncodedField(f);
  }

  lemma EncodedGrows(fields: seq<Field>, i: nat)
    requires i < |fields|
    ensures Encoded(fields[..i + 1]) == Encoded(fields[..i]) + EncodedField(fields[i])
  {
    assert fields[..i + 1][..i] == fields[..i];
  }

  method TotalLength(fields: seq<Field>) returns (total: nat)
    ensures total == EncodedLength(fields, |fields|)
  {
    total := 0;
    for i := 0 to |fields|
      invariant total == EncodedLength(fields, i)
    {
      var n := |fields[i].value|;
      total := total + (4 + n + (4 - n % 4) % 4);
    }
  }

  /** Writes the fields one after another. */
  method EncodeExtensionFields(fields: seq<Field>) returns (out: array<Octet>)
    ensures fresh(out) && out[..] == Encoded(fields)
  {
    var total := TotalLength(fields);
    out := new Octet[total](_ => 0);
    assert out[..] == [] + Zeros(out.Length - 0);
    var offset := 0;
    for i := 0 to |fields|
      invariant fresh(out) && offset == EncodedLength(fields, i) <= out.Length == EncodedLength(fields, |fields|)
      invariant out[..] == Encoded(fields[..i]) + Zeros(out.Length - offset)
    {
      offset := EncodeNext(out, offset, fields, i);
    }
    assert fields[..|fields|] == fields;
  }

  /** Writes the i-th field behind those before it. */
  method EncodeNext(out: array<Octet>, offset: nat, fields: seq<Field>, i: nat) returns (next: nat)
    requires i < |fields| && offset == EncodedLength(fields, i) <= out.Length == EncodedLength(fields, |fields|)
    requires out[..] == Encoded(fields[..i]) + Zeros(out.Length - offset)
    modifies out
    ensures next == EncodedLength(fields, i + 1) <= out.Length
    ensures out[..] == Encoded(fields[..i + 1]) + Zeros(out.Length - next)
  {
    var pad := (4 - |fields[i].value| % 4) % 4;
    LengthsAscend(fields, i + 1, |fields|);
    EncodedHasLength(fields, i);
    EncodeOne(out, offset, fields[i], pad, Encoded(fields[..i]), out.Length - offset);
    EncodedGrows(fields, i);
    next := offset + 4 + |fields[i].value| + pad;
  }

  // ----- the two together -----

  lemma ParsedFieldReencodes(f: Field)
    requires IsWireField(f)
    ensures EncodedField(f) == f.wire
  {
    assert |f.value| % 4 == 0;
    assert Padding(|f.value|) == 0;
  }

  /** Re-encoding parsed fields gives back the octets they were parsed from. */
  lemma {:induction false} ParsedFieldsReencode(fields: seq<Field>)
    requires forall f :: f in fields ==> IsWireField(f)
    ensures Encoded(fields) == Wires(fields)
  {
    if fields != [] {
      ParsedFieldsReencode(fields[..|fields| - 1]);
      ParsedFieldReencodes(fields[|fields| - 1]);
    }
  }

  /** In particular the fields before the n-th, as the prefix of the received data. */
  lemma PrefixReencodes(data: seq<Octet>, fields: seq<Field>, trailing: seq<Octet>, n: nat)
    requires IsFraming(data, fields, trailing) && n <= |fields|
    ensures |Encoded(fields[..n])| <= |data| && Encoded(fields[..n]) == data[..|Encoded(fields[..n])|]
    ensures |Encoded(fields[..n])| + |Wires(fields[n..])| + |trailing| == |data|
  {
    assert fields == fields[..n] + fields[n..];
    WiresConcat(fields[..n], fields[n..]);
    ParsedFieldsReencode(fields[..n]);
  }

  /** The field a receiver sees: the value with its padding. */
  function Received(f: Field): Field {
    Field(f.kind, Padded(f.value), EncodedField(f))
  }

  function AllReceived(fields: seq<Field>): (r: seq<Field>)
    ensures |r| == |fields| && forall i :: 0 <= i < |r| ==> r[i] == Received(fields[i])
  {
    seq(|fields|, i requires 0 <= i < |fields| => Received(fields[i]))
  }

  lemma {:induction false} EncodedIsWires(fields: seq<Field>)
    ensures Encoded(fields) == Wires(AllReceived(fields))
  {
    if fields != [] {
      var front := fields[..|fields| - 1];
      EncodedIsWires(front);
      assert AllReceived(fields)[..|fields| - 1] == AllReceived(front);
    }
  }

  /** What is encoded is received field by field, each value padded; the receiver can see nothing else. */
  lemma EncodingIsReceived(fields: seq<Field>)
    requires forall f :: f in fields ==> f.kind < 65536 && |f.value| <= 65528
    ensures IsFraming(Encoded(fields), AllReceived(fields), [])
  {
    EncodedIsWires(fields);
    var r := AllReceived(fields);
    forall f | f in r
      ensures IsWireField(f)
    {
      var i :| 0 <= i < |r| && r[i] == f;
      assert fields[i] in fields;
      ReceivedIsWireField(fields[i]);
    }
    assert Wires(r) + [] == Wires(r);
  }

  lemma ReceivedIsWireField(f: Field)
    requires f.kind < 65536 && |f.value| <= 65528
    ensures IsWireField(Received(f))
  {
  }
}
