/** Protected requests and responses: sections 5.6 and 5.7 of RFC 8915. */
module Packet {
  import opened Octets
  import opened Outcomes
  import opened Extension
  import opened Budget

  const UNIQUE_ID: nat := 0x0104
  const COOKIE: nat := 0x0204
  const PLACEHOLDER: nat := 0x0304
  const AUTHENTICATOR: nat := 0x0404

  /** An authenticated encryption algorithm with its key: nonce, text and associated data. */
  datatype Aead = Aead(sizes: Sizes,
                       seal: (seq<Octet>, seq<Octet>, seq<Octet>) -> seq<Octet>,
                       open: (seq<Octet>, seq<Octet>, seq<Octet>) -> Option<seq<Octet>>)

  /** Sealing adds the tag. */
  ghost predicate AddsTag(a: Aead) {
    forall n, p, ad {:trigger a.seal(n, p, ad)} :: |a.seal(n, p, ad)| == |p| + a.sizes.tag
  }

  /** Opening inverts sealing. */
  ghost predicate OpensSealed(a: Aead) {
    forall n, p, ad {:trigger a.seal(n, p, ad)} :: a.open(n, a.seal(n, p, ad), ad) == Some(p)
  }

  // ----- requests -----

  function Plain(kind: nat, value: seq<Octet>): Field {
    Field(kind, value, [])
  }

  function Placeholders(size: nat, n: nat): (p: seq<Field>)
    ensures |p| == n && forall i :: 0 <= i < n ==> p[i] == Plain(PLACEHOLDER, Zeros(size))
  {
    seq(n, _ => Plain(PLACEHOLDER, Zeros(size)))
  }

  /** The fields before the authenticator. */
  function RequestFields(uniqueId: seq<Octet>, cookie: seq<Octet>, n: nat): seq<Field> {
    [Plain(UNIQUE_ID, uniqueId), Plain(COOKIE, cookie)] + Placeholders(|cookie|, n)
  }

  /** The body of the authenticator field. */
  function AuthenticatorBody(nonce: seq<Octet>, sealed: seq<Octet>): (b: seq<Octet>)
    ensures |b| == 4 + |nonce| + |sealed| + Padding(4 + |nonce| + |sealed|)
  {
    Word16(|nonce|) + Word16(|sealed|) + nonce + sealed + Zeros(Padding(4 + |nonce| + |sealed|))
  }

  function Authenticator(aead: Aead, nonce: seq<Octet>, text: seq<Octet>, ad: seq<Octet>): Field {
    Plain(AUTHENTICATOR, AuthenticatorBody(nonce, aead.seal(nonce, text, ad)))
  }

  /** The whole request payload; the associated data are the header and the encoded earlier fields. */
  function Request(header: seq<Octet>, cookie: seq<Octet>, n: nat, aead: Aead, uniqueId: seq<Octet>,
                   nonce: seq<Octet>): seq<Field>
  {
    var fields := RequestFields(uniqueId, cookie, n);
    fields + [Authenticator(aead, nonce, [], header + Encoded(fields))]
  }

  method FillAuthenticator(nonce: seq<Octet>, sealed: seq<Octet>) returns (body: array<Octet>)
    ensures fresh(body) && body[..] == AuthenticatorBody(nonce, sealed)
  {
    var raw := 2 + 2 + |nonce| + |sealed|;
    var pad := (4 - raw % 4) % 4;
    body := new Octet[raw + pad](_ => 0);
    ghost var room := raw + pad;
    assert body[..] == [] + Zeros(room);
    Append(body, 0, Word16(|nonce|), [], room);
    ghost var done := [] + Word16(|nonce|);
    Append(body, 2, Word16(|sealed|), done, room - 2);
    done := done + Word16(|sealed|);
    Append(body, 4, nonce, done, room - 4);
    done := done + nonce;
    Append(body, 4 + |nonce|, sealed, done, room - 4 - |nonce|);
  }

  /** Builds a request. The random identifier and nonce are parameters. */
  method BuildProtectedRequest(header: seq<Octet>, cookie: seq<Octet>, requested: int, aead: Option<Aead>,
                               uniqueId: seq<Octet>, nonce: seq<Octet>) returns (r: Result<seq<Octet>>)
    requires |uniqueId| == 32
    requires aead.Some? ==> AddsTag(aead.value) && (aead.value.sizes.nonce > 0 ==> |nonce| == aead.value.sizes.nonce)
    ensures |header| != HEADER ==> r == Failure(InvalidHeader)
    ensures |header| == HEADER ==>
              match RequestPlaceholderCount(|cookie|, requested, SizesOf(aead))
              case Failure(e) => r == Failure(e)
              case Success(n) => r == Success(Encoded(Request(header, cookie, n, aead.value, uniqueId, nonce)))
  {
    if |header| != HEADER {
      return Failure(InvalidHeader);
    }
    var n :- RequestPlaceholderCount(|cookie|, requested, SizesOf(aead));
    var a := aead.value;
    var fields := [Plain(UNIQUE_ID, uniqueId)];
    fields := fields + [Plain(COOKIE, cookie)];
    for i := 0 to n
      invariant fields == RequestFields(uniqueId, cookie, i)
    {
      fields := fields + [Plain(PLACEHOLDER, Zeros(|cookie|))];
      assert fields == RequestFields(uniqueId, cookie, i + 1);
    }
    var encoded := EncodeExtensionFields(fields);
    var ad := header + encoded[..];
    var sealed := a.seal(nonce, [], ad);
    var body := FillAuthenticator(nonce, sealed);
    fields := fields + [Plain(AUTHENTICATOR, body[..])];
    var total := EncodeExtensionFields(fields);
    return Success(total[..]);
  }

  function SizesOf(aead: Option<Aead>): Option<Sizes> {
    match aead
    case None => None
    case Some(a) => Some(a.sizes)
  }

  // ----- what a request looks like to its receiver -----

  /** A request was built with `n` placeholders. */
  ghost predicate IsBuilt(header: seq<Octet>, cookie: seq<Octet>, requested: int, n: nat, aead: Aead,
                          uniqueId: seq<Octet>, nonce: seq<Octet>) {
    && |header| == HEADER && |uniqueId| == 32 && |nonce| == aead.sizes.nonce && AddsTag(aead)
    && RequestPlaceholderCount(|cookie|, requested, Some(aead.sizes)) == Success(n)
  }

  lemma EncodedGrowsBy(fields: seq<Field>, f: Field)
    ensures Encoded(fields + [f]) == Encoded(fields) + EncodedField(f)
  {
    assert (fields + [f])[..|fields|] == fields;
  }

  lemma {:induction false} EncodedConcat(a: seq<Field>, b: seq<Field>)
    ensures Encoded(a + b) == Encoded(a) + Encoded(b)
  {
    if b == [] {
      assert a + b == a;
    } else {
      var front, last := b[..|b| - 1], b[|b| - 1];
      EncodedConcat(a, front);
      GrownConcat(a, front, last, b);
    }
  }

  lemma GrownConcat(a: seq<Field>, front: seq<Field>, last: Field, b: seq<Field>)
    requires Encoded(a + front) == Encoded(a) + Encoded(front) && b == front + [last]
    ensures Encoded(a + b) == Encoded(a) + Encoded(b)
  {
    EncodedGrowsBy(a + front, last);
    EncodedGrowsBy(front, last);
    assert a + b == (a + front) + [last];
    Associate(Encoded(a), Encoded(front), EncodedField(last));
  }

  lemma Associate(a: seq<Octet>, b: seq<Octet>, c: seq<Octet>)
    ensures a + (b + c) == (a + b) + c
  {
  }

  /** The size of a field with a value of `size` octets. */
  function FieldSize(size: nat): nat {
    4 + size + Padding(size)
  }

  lemma FieldSizeIsCookieFieldSize(size: nat)
    ensures FieldSize(size) == CookieFieldSize(size)
  {
  }

  lemma OneMore(n: int, c: int)
    ensures (n - 1) * c + c == n * c
  {
  }

  lemma {:induction false} PlaceholdersSize(size: nat, n: nat)
    ensures |Encoded(Placeholders(size, n))| == n * FieldSize(size)
  {
    if n > 0 {
      PlaceholdersSize(size, n - 1);
      assert Placeholders(size, n)[..n - 1] == Placeholders(size, n - 1);
      OneMore(n, FieldSize(size));
    }
  }

  lemma RequestFieldsSize(uniqueId: seq<Octet>, cookie: seq<Octet>, n: nat)
    requires |uniqueId| == 32
    ensures |Encoded(RequestFields(uniqueId, cookie, n))| == 36 + (n + 1) * CookieFieldSize(|cookie|)
  {
    var id, field := Plain(UNIQUE_ID, uniqueId), Plain(COOKIE, cookie);
    PairSize(id, field);
    EncodedConcat([id, field], Placeholders(|cookie|, n));
    PlaceholdersSize(|cookie|, n);
    FieldSizeIsCookieFieldSize(|cookie|);
    OneMore(n + 1, CookieFieldSize(|cookie|));
    assert FieldSize(32) == 36;
  }

  lemma PairSize(f: Field, g: Field)
    ensures |Encoded([f, g])| == FieldSize(|f.value|) + FieldSize(|g.value|)
  {
    EncodedGrowsBy([], f);
    EncodedGrowsBy([f], g);
    assert [] + [f] == [f] && [f] + [g] == [f, g];
  }

  lemma PaddedParts(a: nat, b: nat)
    ensures FieldSize(4 + a + b + Padding(4 + a + b)) <= 8 + PaddedLength(a) + PaddedLength(b)
  {
  }

  lemma AuthenticatorSize(aead: Aead, nonce: seq<Octet>, ad: seq<Octet>)
    requires AddsTag(aead) && aead.sizes.tag >= 0
    ensures |EncodedField(Authenticator(aead, nonce, [], ad))| <= 8 + PaddedLength(|nonce|) + PaddedLength(aead.sizes.tag)
  {
    var sealed := aead.seal(nonce, [], ad);
    assert |sealed| == aead.sizes.tag;
    var body := AuthenticatorBody(nonce, sealed);
    assert |EncodedField(Plain(AUTHENTICATOR, body))| == FieldSize(|body|);
    PaddedParts(|nonce|, |sealed|);
  }

  /** The complete packet keeps the limits: the hard one always, the preferred one when it carries
      placeholders. */
  lemma RequestKeepsBudget(header: seq<Octet>, cookie: seq<Octet>, requested: int, n: nat, aead: Aead,
                           uniqueId: seq<Octet>, nonce: seq<Octet>)
    requires IsBuilt(header, cookie, requested, n, aead, uniqueId, nonce)
    ensures var packet := header + Encoded(Request(header, cookie, n, aead, uniqueId, nonce));
            |packet| <= 65_507 && (n > 0 ==> |packet| <= 1_232)
  {
    PlaceholdersFit(|cookie|, requested, aead.sizes, n);
    var fields := RequestFields(uniqueId, cookie, n);
    var ad := header + Encoded(fields);
    RequestFieldsSize(uniqueId, cookie, n);
    EncodedGrowsBy(fields, Authenticator(aead, nonce, [], ad));
    AuthenticatorSize(aead, nonce, ad);
  }

  /** Under a registered algorithm the sizes that were budgeted are the sizes sent. */
  lemma RequestSizeIsExact(header: seq<Octet>, cookie: seq<Octet>, n: nat, aead: Aead, uniqueId: seq<Octet>, nonce: seq<Octet>)
    requires |header| == 48 && |uniqueId| == 32 && AddsTag(aead) && |nonce| == aead.sizes.nonce
    requires aead.sizes in {Sizes(16, 16), Sizes(12, 16)}
    ensures |header + Encoded(Request(header, cookie, n, aead, uniqueId, nonce))| == RequestSize(|cookie|, n, aead.sizes)
  {
    var fields := RequestFields(uniqueId, cookie, n);
    var ad := header + Encoded(fields);
    RequestFieldsSize(uniqueId, cookie, n);
    EncodedGrowsBy(fields, Authenticator(aead, nonce, [], ad));
    RegisteredAuthenticatorSize(aead, nonce, ad);
    SumOfSizes(n, CookieFieldSize(|cookie|));
  }

  lemma SumOfSizes(n: nat, c: int)
    ensures (n + 1) * c == c + n * c
  {
  }

  lemma RegisteredAuthenticatorSize(aead: Aead, nonce: seq<Octet>, ad: seq<Octet>)
    requires AddsTag(aead) && |nonce| == aead.sizes.nonce && aead.sizes in {Sizes(16, 16), Sizes(12, 16)}
    ensures |EncodedField(Authenticator(aead, nonce, [], ad))| == 8 + PaddedLength(|nonce|) + PaddedLength(aead.sizes.tag)
  {
    var sealed := aead.seal(nonce, [], ad);
    assert |sealed| == 16;
    var body := AuthenticatorBody(nonce, sealed);
    assert |EncodedField(Plain(AUTHENTICATOR, body))| == FieldSize(|body|);
  }

  /** A received field counts for its wire image, any other for no less than its encoding. */
  lemma CountedOctets(f: Field)
    ensures IsWireField(f) ==> CountedSize(f) == |f.wire|
    ensures CountedSize(f) == if |EncodedField(f)| >= |f.wire| then |EncodedField(f)| else |f.wire|
  {
    FieldSizeIsCookieFieldSize(|f.value|);
    if IsWireField(f) {
      ParsedFieldReencodes(f);
    }
  }

  lemma RequestFieldsAreShort(cookie: seq<Octet>, n: nat, uniqueId: seq<Octet>)
    requires ValidCookieSize(|cookie|) && |uniqueId| == 32
    ensures forall f :: f in RequestFields(uniqueId, cookie, n) ==> f.kind < 65536 && |f.value| <= 65528
  {
  }

  lemma AuthenticatorIsShort(aead: Aead, nonce: seq<Octet>, ad: seq<Octet>)
    requires AddsTag(aead) && aead.sizes.tag >= 0 && |EncodedField(Authenticator(aead, nonce, [], ad))| <= 65507
    ensures |Authenticator(aead, nonce, [], ad).value| <= 65528
  {
  }

  /** The request parses, in one way only, to its fields: identifier, cookie, placeholders and
      authenticator, and the octets before the authenticator are the ones its associated data end with. */
  lemma RequestIsReadBack(header: seq<Octet>, cookie: seq<Octet>, requested: int, n: nat, aead: Aead,
                          uniqueId: seq<Octet>, nonce: seq<Octet>, got: seq<Field>, trailing: seq<Octet>)
    requires IsBuilt(header, cookie, requested, n, aead, uniqueId, nonce)
    requires IsFraming(Encoded(Request(header, cookie, n, aead, uniqueId, nonce)), got, trailing)
    ensures var ext := Encoded(Request(header, cookie, n, aead, uniqueId, nonce));
            && trailing == [] && |got| == n + 3
            && got[0].kind == 0x0104 && got[0].value == uniqueId
            && got[1].kind == 0x0204 && got[1].value == Padded(cookie)
            && (forall i :: 2 <= i < n + 2 ==> got[i].kind == 0x0304 && got[i].value == Padded(Zeros(|cookie|)))
            && |got[n + 2].wire| <= |ext|
            && got[n + 2].kind == 0x0404
            && got[n + 2] == Received(Authenticator(aead, nonce, [], header + ext[..|ext| - |got[n + 2].wire|]))
  {
    var fields := RequestFields(uniqueId, cookie, n);
    var auth := Authenticator(aead, nonce, [], header + Encoded(fields));
    var all := fields + [auth];
    RequestKeepsBudget(header, cookie, requested, n, aead, uniqueId, nonce);
    assert all[..|fields|] == fields;
    RequestFieldsAreShort(cookie, n, uniqueId);
    AuthenticatorIsShort(aead, nonce, header + Encoded(fields));
    EncodingIsReceived(all);
    FramingIsUnique(Encoded(all), got, trailing, AllReceived(all), []);
    assert got[n + 2] == Received(auth);
    assert Encoded(all)[..|Encoded(all)| - |got[n + 2].wire|] == Encoded(fields);
    forall i | 2 <= i < n + 2
      ensures got[i].kind == PLACEHOLDER && got[i].value == Padded(Zeros(|cookie|))
    {
      assert all[i] == Placeholders(|cookie|, n)[i - 2];
    }
  }

  // ----- responses -----

  /** The value of the first identifier field among the first `n` fields, from `i` on. */
  function FirstUniqueId(fields: seq<Field>, i: nat, n: nat): Option<seq<Octet>>
    requires i <= n <= |fields|
    decreases n - i
  {
    if i == n then None
    else if fields[i].kind == UNIQUE_ID then Some(fields[i].value)
    else FirstUniqueId(fields, i + 1, n)
  }

  /** The nonce and the ciphertext of an authenticator, if its wire image holds them. */
  function NonceAndCiphertext(wire: seq<Octet>): Option<(seq<Octet>, seq<Octet>)> {
    if |wire| < 12 then None
    else
      var nonce, sealed := Value16(wire[4..6]), Value16(wire[6..8]);
      if |wire| < 8 + nonce + sealed then None
      else Some((wire[8..8 + nonce], wire[8 + nonce..8 + nonce + sealed]))
  }

  /** The text authenticated by the last field, under the header and the re-encoded earlier fields. */
  function Authenticated(header: seq<Octet>, fields: seq<Field>, aead: Aead): Option<seq<Octet>>
    requires fields != []
  {
    var last := |fields| - 1;
    match NonceAndCiphertext(fields[last].wire)
    case None => None
    case Some(pair) => aead.open(pair.0, pair.1, header + Encoded(fields[..last]))
  }

  /** The response is well formed, ours and authentic, with this text inside. */
  ghost predicate IsAuthentic(header: seq<Octet>, fields: seq<Field>, expected: seq<Octet>, aead: Aead, text: seq<Octet>) {
    && |header| == HEADER && TotalSize(fields, |fields|) <= MAX_PACKET
    && fields != [] && fields[|fields| - 1].kind == AUTHENTICATOR
    && FirstUniqueId(fields, 0, |fields| - 1) == Some(expected)
    && Authenticated(header, fields, aead) == Some(text)
  }

  /** Why a response is rejected before its cookies are looked at; the first reason counts. */
  function RejectionOf(header: seq<Octet>, fields: seq<Field>, expected: seq<Octet>, aead: Aead): Option<Fault> {
    if |header| != HEADER then Some(InvalidHeader)
    else if TotalSize(fields, |fields|) > MAX_PACKET then Some(PacketTooLarge)
    else if fields == [] then Some(MissingAuthenticator)
    else if fields[|fields| - 1].kind != AUTHENTICATOR then Some(AuthenticatorNotLast)
    else
      match FirstUniqueId(fields, 0, |fields| - 1)
      case None => Some(MissingUniqueId)
      case Some(id) =>
        if id != expected then Some(UniqueIdMismatch)
        else if NonceAndCiphertext(fields[|fields| - 1].wire).None? then Some(AuthenticatorTooShort)
        else if Authenticated(header, fields, aead).None? then Some(AuthenticationFailed)
        else None
  }

  /** Nothing but the listed reasons keeps a response from being authentic. */
  lemma AuthenticOrRejected(header: seq<Octet>, fields: seq<Field>, expected: seq<Octet>, aead: Aead)
    ensures RejectionOf(header, fields, expected, aead).None?
            <==> exists text :: IsAuthentic(header, fields, expected, aead, text)
  {
    if RejectionOf(header, fields, expected, aead).None? {
      assert IsAuthentic(header, fields, expected, aead, Authenticated(header, fields, aead).value);
    }
  }

  /** The identifier that counts is the value of the first field of type 0x0104. */
  lemma {:induction false} FirstUniqueIdIs(fields: seq<Field>, i: nat, n: nat)
    requires i <= n <= |fields|
    ensures FirstUniqueId(fields, i, n).None? <==> forall k :: i <= k < n ==> fields[k].kind != 0x0104
    ensures forall id: seq<Octet> :: FirstUniqueId(fields, i, n) == Some(id) <==>
              exists k :: i <= k < n && fields[k].kind == 0x0104 && fields[k].value == id
                          && forall j :: i <= j < k ==> fields[j].kind != 0x0104
    decreases n - i
  {
    if i < n && fields[i].kind != 0x0104 {
      FirstUniqueIdIs(fields, i + 1, n);
    }
  }

  function CookiesOf(fields: seq<Field>, n: nat): seq<seq<Octet>>
    requires n <= |fields|
  {
    if n == 0 then []
    else CookiesOf(fields, n - 1) + if fields[n - 1].kind == COOKIE then [fields[n - 1].value] else []
  }

  ghost predicate CookiesAreValid(fields: seq<Field>, n: nat)
    requires n <= |fields|
  {
    forall i :: 0 <= i < n && fields[i].kind == COOKIE ==> ValidCookieSize(|fields[i].value|)
  }

  /** The response yields these cookies. */
  ghost predicate Yields(header: seq<Octet>, fields: seq<Field>, expected: seq<Octet>, aead: Aead,
                         cookies: seq<seq<Octet>>) {
    exists text, inner :: IsAuthentic(header, fields, expected, aead, text) && IsFraming(text, inner, [])
                          && CookiesAreValid(inner, |inner|) && cookies == CookiesOf(inner, |inner|)
  }

  lemma YieldsNothing(header: seq<Octet>, fields: seq<Field>, expected: seq<Octet>, aead: Aead)
    requires forall text :: !IsAuthentic(header, fields, expected, aead, text)
    ensures forall cookies :: !Yields(header, fields, expected, aead, cookies)
  {
  }

  method FindUniqueId(fields: seq<Field>) returns (found: Option<seq<Octet>>)
    requires fields != []
    ensures found == FirstUniqueId(fields, 0, |fields| - 1)
  {
    for i := 0 to |fields| - 1
      invariant FirstUniqueId(fields, 0, |fields| - 1) == FirstUniqueId(fields, i, |fields| - 1)
    {
      if fields[i].kind == UNIQUE_ID {
        return Some(fields[i].value);
      }
    }
    return None;
  }

  /** The authenticated text of a response. */
  method OpenResponse(header: seq<Octet>, fields: seq<Field>, expected: seq<Octet>, aead: Aead)
      returns (r: Result<seq<Octet>>)
    ensures r.Success? ==> IsAuthentic(header, fields, expected, aead, r.value)
    ensures r.Failure? ==> RejectionOf(header, fields, expected, aead) == Some(r.error)
  {
    var fault := CheckResponsePacketSize(header, fields);
    match fault {
      case Some(f) => return Failure(f);
      case None =>
    }
    if |fields| == 0 {
      return Failure(MissingAuthenticator);
    }
    var last := fields[|fields| - 1];
    if last.kind != AUTHENTICATOR {
      return Failure(AuthenticatorNotLast);
    }
    var found := FindUniqueId(fields);
    if found == None {
      return Failure(MissingUniqueId);
    }
    if found != Some(expected) {
      return Failure(UniqueIdMismatch);
    }
    var wire := last.wire;
    if |wire| < 12 {
      return Failure(AuthenticatorTooShort);
    }
    var nonceLength, cipherLength := Value16(wire[4..6]), Value16(wire[6..8]);
    if |wire| < 8 + nonceLength + cipherLength {
      return Failure(AuthenticatorTooShort);
    }
    var nonce := wire[8..8 + nonceLength];
    var sealed := wire[8 + nonceLength..8 + nonceLength + cipherLength];
    var encoded := EncodeExtensionFields(fields[..|fields| - 1]);
    var ad := header + encoded[..];
    var text := aead.open(nonce, sealed, ad);
    match text {
      case None => return Failure(AuthenticationFailed);
      case Some(t) => return Success(t);
    }
  }

  /** Succeeds exactly when the response yields cookies, and returns them in order. */
  method VerifyAndDecryptResponse(header: seq<Octet>, fields: seq<Field>, expected: seq<Octet>, aead: Aead)
      returns (r: Result<seq<seq<Octet>>>)
    ensures r.Success? ==> Yields(header, fields, expected, aead, r.value)
    ensures r.Failure? ==> forall cookies :: !Yields(header, fields, expected, aead, cookies)
  {
    var outcome := OpenResponse(header, fields, expected, aead);
    match outcome {
      case Failure(e) =>
        AuthenticOrRejected(header, fields, expected, aead);
        YieldsNothing(header, fields, expected, aead);
        return Failure(e);
      case Success(text) =>
        var cookies := DecodeCookies(text);
        return cookies;
    }
  }

  /** The cookies inside the authenticated text. */
  method DecodeCookies(text: seq<Octet>) returns (r: Result<seq<seq<Octet>>>)
    ensures r.Success? ==> exists inner :: IsFraming(text, inner, []) && CookiesAreValid(inner, |inner|)
                                           && r.value == CookiesOf(inner, |inner|)
    ensures r.Failure? ==> forall inner :: !(IsFraming(text, inner, []) && CookiesAreValid(inner, |inner|))
  {
    if |text| == 0 {
      assert IsFraming(text, [], []);
      return Success([]);
    }
    var parsed := ParseExtensionFields(text);
    match parsed {
      case Failure(e) => return Failure(e);
      case Success(pair) =>
        var inner, trailing := pair.0, pair.1;
        forall other | IsFraming(text, other, [])
          ensures other == inner && trailing == []
        {
          FramingIsUnique(text, other, [], inner, trailing);
        }
        if |trailing| != 0 {
          return Failure(TrailingBytes);
        }
        var cookies: seq<seq<Octet>> := [];
        for i := 0 to |inner|
          invariant CookiesAreValid(inner, i) && cookies == CookiesOf(inner, i)
        {
          if inner[i].kind == COOKIE {
            if !ValidCookieSize(|inner[i].value|) {
              return Failure(InvalidCookie);
            }
            cookies := cookies + [inner[i].value];
          }
        }
        return Success(cookies);
    }
  }

  lemma {:induction false} CookiesOfValid(fields: seq<Field>, n: nat, i: nat)
    requires n <= |fields| && CookiesAreValid(fields, n) && i < |CookiesOf(fields, n)|
    ensures ValidCookieSize(|CookiesOf(fields, n)[i]|)
  {
    if i < |CookiesOf(fields, n - 1)| {
      CookiesOfValid(fields, n - 1, i);
    }
  }

  /** Every cookie of a response fits a request under either registered algorithm. */
  lemma YieldedCookiesFit(header: seq<Octet>, fields: seq<Field>, expected: seq<Octet>, aead: Aead,
                          cookies: seq<seq<Octet>>, i: nat, id: nat, requested: int)
    requires Yields(header, fields, expected, aead, cookies) && i < |cookies| && id in REGISTRY && requested >= 0
    ensures RequestPlaceholderCount(|cookies[i]|, requested, Some(REGISTRY[id])).Success?
  {
    var text, inner :| IsAuthentic(header, fields, expected, aead, text) && IsFraming(text, inner, [])
                       && CookiesAreValid(inner, |inner|) && cookies == CookiesOf(inner, |inner|);
    CookiesOfValid(inner, |inner|, i);
    RegisteredCookiesFit(id, |cookies[i]|, requested);
  }

  // ----- the associated data are the wire -----

  /** For fields read off the wire, the re-encoded earlier fields are the received octets before the
      authenticator. */
  lemma AssociatedDataAreReceived(data: seq<Octet>, fields: seq<Field>, trailing: seq<Octet>)
    requires IsFraming(data, fields, trailing) && fields != []
    ensures var before := |data| - |trailing| - |fields[|fields| - 1].wire|;
            0 <= before <= |data| && Encoded(fields[..|fields| - 1]) == data[..before]
  {
    var n := |fields| - 1;
    PrefixReencodes(data, fields, trailing, n);
    assert fields[n..] == [fields[n]];
    WiresOfOne(fields[n]);
  }

  lemma BodyIsReadBack(nonce: seq<Octet>, sealed: seq<Octet>, body: seq<Octet>)
    requires |nonce| < 65536 && |sealed| < 65536 && body == AuthenticatorBody(nonce, sealed)
    ensures Value16(body[..2]) == |nonce| && Value16(body[2..4]) == |sealed|
    ensures body[4..4 + |nonce|] == nonce && body[4 + |nonce|..4 + |nonce| + |sealed|] == sealed
  {
    Word16RoundTrip(|nonce|);
    Word16RoundTrip(|sealed|);
    assert body[..2] == Word16(|nonce|) && body[2..4] == Word16(|sealed|);
  }

  /** The received authenticator holds what was put into it. */
  lemma AuthenticatorIsReadBack(aead: Aead, nonce: seq<Octet>, text: seq<Octet>, ad: seq<Octet>)
    requires |nonce| < 65536 && |aead.seal(nonce, text, ad)| < 65536 && |nonce| + |aead.seal(nonce, text, ad)| >= 4
    ensures NonceAndCiphertext(Received(Authenticator(aead, nonce, text, ad)).wire)
            == Some((nonce, aead.seal(nonce, text, ad)))
  {
    var sealed := aead.seal(nonce, text, ad);
    var body := AuthenticatorBody(nonce, sealed);
    var wire := EncodedField(Plain(AUTHENTICATOR, body));
    BodyIsReadBack(nonce, sealed, body);
    ValueInsideWire(Plain(AUTHENTICATOR, body), 0, 2);
    ValueInsideWire(Plain(AUTHENTICATOR, body), 2, 4);
    ValueInsideWire(Plain(AUTHENTICATOR, body), 4, 4 + |nonce|);
    ValueInsideWire(Plain(AUTHENTICATOR, body), 4 + |nonce|, 4 + |nonce| + |sealed|);
  }

  lemma ValueInsideWire(f: Field, i: nat, j: nat)
    requires i <= j <= |f.value|
    ensures EncodedField(f)[4 + i..4 + j] == f.value[i..j]
  {
  }

  lemma ReceivedShape(before: seq<Field>, last: Field)
    ensures var fields := AllReceived(before + [last]);
            && |fields| == |before| + 1 && fields[..|before|] == AllReceived(before)
            && fields[|before|] == Received(last)
  {
  }

  /** A response sealed by the peer over the received octets: whatever fields come first, if they carry
      our identifier, the text inside is what the peer sealed. */
  lemma SealedResponseOpens(header: seq<Octet>, before: seq<Field>, aead: Aead, nonce: seq<Octet>, text: seq<Octet>,
                            expected: seq<Octet>, fields: seq<Field>)
    requires OpensSealed(aead) && AddsTag(aead) && aead.sizes.tag >= 4 && |nonce| < 65536
    requires |text| + aead.sizes.tag < 65536
    requires fields == AllReceived(before + [Authenticator(aead, nonce, text, header + Encoded(before))])
    requires |header| == HEADER && TotalSize(fields, |fields|) <= MAX_PACKET
    requires FirstUniqueId(AllReceived(before), 0, |before|) == Some(expected)
    ensures IsAuthentic(header, fields, expected, aead, text)
  {
    ReceivedShape(before, Authenticator(aead, nonce, text, header + Encoded(before)));
    SealedResponseAuthenticates(header, before, aead, nonce, text, fields);
    AuthenticWith(header, fields, AllReceived(before), expected, aead, text);
  }

  lemma SealedResponseAuthenticates(header: seq<Octet>, before: seq<Field>, aead: Aead, nonce: seq<Octet>,
                                    text: seq<Octet>, fields: seq<Field>)
    requires OpensSealed(aead) && AddsTag(aead) && aead.sizes.tag >= 4 && |nonce| < 65536
    requires |text| + aead.sizes.tag < 65536
    requires fields == AllReceived(before + [Authenticator(aead, nonce, text, header + Encoded(before))])
    ensures Authenticated(header, fields, aead) == Some(text)
  {
    var ad := header + Encoded(before);
    ReceivedShape(before, Authenticator(aead, nonce, text, ad));
    assert |aead.seal(nonce, text, ad)| == |text| + aead.sizes.tag;
    AuthenticatorIsReadBack(aead, nonce, text, ad);
    ReceivedReencodes(before);
  }

  lemma AuthenticWith(header: seq<Octet>, fields: seq<Field>, before: seq<Field>, expected: seq<Octet>, aead: Aead,
                      text: seq<Octet>)
    requires |fields| == |before| + 1 && fields[..|before|] == before && fields[|before|].kind == AUTHENTICATOR
    requires |header| == HEADER && TotalSize(fields, |fields|) <= MAX_PACKET
    requires FirstUniqueId(before, 0, |before|) == Some(expected)
    requires Authenticated(header, fields, aead) == Some(text)
    ensures IsAuthentic(header, fields, expected, aead, text)
  {
    PrefixHasSameId(fields, before, 0);
  }

  lemma ReceivedReencodes(fields: seq<Field>)
    ensures Encoded(AllReceived(fields)) == Encoded(fields)
    decreases |fields|
  {
    if fields != [] {
      var n := |fields| - 1;
      ReceivedReencodes(fields[..n]);
      assert AllReceived(fields)[..n] == AllReceived(fields[..n]);
      ReceivedFieldReencodes(fields[n]);
    }
  }

  lemma ReceivedFieldReencodes(f: Field)
    ensures EncodedField(Received(f)) == EncodedField(f)
  {
    var p := Padded(f.value);
    assert Padding(|p|) == 0;
    assert EncodedField(Received(f)) == Word16(f.kind) + Word16(4 + |p|) + p + [];
  }

  lemma {:induction false} PrefixHasSameId(fields: seq<Field>, prefix: seq<Field>, i: nat)
    requires |prefix| <= |fields| && fields[..|prefix|] == prefix && i <= |prefix|
    ensures FirstUniqueId(fields, i, |prefix|) == FirstUniqueId(prefix, i, |prefix|)
    decreases |prefix| - i
  {
    if i < |prefix| {
      assert fields[i] == prefix[i];
      PrefixHasSameId(fields, prefix, i + 1);
    }
  }
}
