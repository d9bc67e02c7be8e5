/** Reading the server's key-establishment response: sections 4 and 4.1 of RFC 8915. */
module KeyExchange {
  import opened Octets
  import opened Outcomes
  import opened Budget
  import opened Records

  const MAX_MESSAGE: nat := 65_536

  const END_OF_MESSAGE: nat := 0
  const NEXT_PROTOCOL: nat := 1
  const ERROR: nat := 2
  const WARNING: nat := 3
  const ALGORITHM: nat := 4
  const COOKIE: nat := 5
  const SERVER: nat := 6
  const PORT: nat := 7
  const EXPORTER: nat := 1024

  /** How the body of a server record is read: a name or an address, or nothing. */
  type NameReader = seq<Octet> -> Option<string>

  datatype Response = Response(algorithm: nat, cookies: seq<seq<Octet>>, server: string, port: nat)

  // ----- the message -----

  /** The records before the first end-of-message record, if the data have one and it is well formed. */
  function Message(data: seq<Octet>): Option<seq<Record>>
    decreases |data|
  {
    if !HasHead(data) then None
    else if Head(data).kind == END_OF_MESSAGE then (if Head(data) == END then Some([]) else None)
    else Before([Head(data)], Message(Rest(data)))
  }

  function Before(records: seq<Record>, m: Option<seq<Record>>): Option<seq<Record>> {
    match m
    case None => None
    case Some(rest) => Some(records + rest)
  }

  lemma BeforeTwice(a: seq<Record>, b: seq<Record>, m: Option<seq<Record>>)
    ensures Before(a, Before(b, m)) == Before(a + b, m)
  {
    if m.Some? {
      assert a + (b + m.value) == a + b + m.value;
    }
  }

  /** The message is in the octets through its end record; whatever follows is not looked at. */
  lemma {:induction false} MessageIsPrefix(records: seq<Record>, after: seq<Octet>)
    requires forall r :: r in records ==> IsFramable(r) && r.kind != END_OF_MESSAGE
    ensures Message(Encoded(records + [END]) + after) == Some(records)
    decreases |records|
  {
    if records == [] {
      assert [] + [END] == [END];
      EncodedOne(END);
      FramedIsHead(END, after);
    } else {
      var r := records[0];
      MessageIsPrefix(records[1..], after);
      FirstOfMessage(records, after);
      FramedIsHead(r, Encoded(records[1..] + [END]) + after);
      assert [r] + records[1..] == records;
    }
  }

  lemma FirstOfMessage(records: seq<Record>, after: seq<Octet>)
    requires records != []
    ensures Encoded(records + [END]) + after == EncodeRecord(records[0]) + (Encoded(records[1..] + [END]) + after)
  {
    assert (records + [END])[1..] == records[1..] + [END];
  }

  lemma {:induction false} MessageIsEncoded(data: seq<Octet>)
    requires Message(data).Some?
    ensures var records := Message(data).value;
            && Encoded(records + [END]) <= data
            && forall r :: r in records ==> IsFramable(r) && r.kind != END_OF_MESSAGE
    decreases |data|
  {
    HeadIsFramed(data);
    if Head(data) == END {
      assert [] + [END] == [END];
      EncodedOne(END);
    } else {
      MessageIsEncoded(Rest(data));
      var rest := Message(Rest(data)).value;
      var records := [Head(data)] + rest;
      assert (records + [END])[1..] == rest + [END];
      assert Encoded(records + [END]) == EncodeRecord(Head(data)) + Encoded(rest + [END]);
    }
  }

  /** The octets a list of records takes. */
  function Size(records: seq<Record>): nat {
    if records == [] then 0 else Size(records[..|records| - 1]) + 4 + |records[|records| - 1].body|
  }

  lemma {:induction false} SizesAdd(a: seq<Record>, b: seq<Record>)
    ensures Size(a + b) == Size(a) + Size(b)
  {
    if b == [] {
      assert a + b == a;
    } else {
      assert (a + b)[..|a + b| - 1] == a + b[..|b| - 1];
      SizesAdd(a, b[..|b| - 1]);
    }
  }

  // ----- what is accepted, whatever the order -----

  /** Records of which there may be one. */
  predicate IsSingle(kind: nat) {
    kind == NEXT_PROTOCOL || kind == ALGORITHM || kind == SERVER || kind == PORT || kind == EXPORTER
  }

  /** What each record must be by itself. */
  predicate IsAcceptable(r: Record, offered: seq<nat>, names: NameReader) {
    if r.kind == NEXT_PROTOCOL then r.critical && |r.body| == 2 && Value16(r.body) == 0
    else if r.kind == ALGORITHM then |r.body| == 2 && Value16(r.body) in offered && Value16(r.body) in REGISTRY
    else if r.kind == COOKIE then ValidCookieSize(|r.body|)
    else if r.kind == ERROR || r.kind == WARNING then false
    else if r.kind == SERVER then names(r.body).Some?
    else if r.kind == PORT then |r.body| == 2 && Value16(r.body) != 0
    else if r.kind == EXPORTER then |r.body| == 0
    else !r.critical
  }

  /** The same by the numbers of section 4.1 of RFC 8915: an error or warning is never accepted, an unknown
      record only if it is not critical. */
  lemma AcceptableByType(r: Record, offered: seq<nat>, names: NameReader)
    ensures r.kind == 1 ==> (IsAcceptable(r, offered, names) <==> r.critical && r.body == [0, 0])
    ensures r.kind in {2, 3} ==> !IsAcceptable(r, offered, names)
    ensures r.kind == 4 ==> (IsAcceptable(r, offered, names) <==> (r.body == [0, 15] && 15 in offered) || (r.body == [0, 30] && 30 in offered))
    ensures r.kind == 5 ==> (IsAcceptable(r, offered, names) <==> 0 < |r.body| <= 65_376)
    ensures r.kind == 6 ==> (IsAcceptable(r, offered, names) <==> names(r.body).Some?)
    ensures r.kind == 7 ==> (IsAcceptable(r, offered, names) <==> |r.body| == 2 && r.body != [0, 0])
    ensures r.kind == 1024 ==> (IsAcceptable(r, offered, names) <==> r.body == [])
    ensures !(1 <= r.kind <= 7) && r.kind != 1024 ==> (IsAcceptable(r, offered, names) <==> !r.critical)
    ensures IsSingle(r.kind) <==> r.kind in {1, 4, 6, 7, 1024}
  {
  }

  /** Only one record of the kind. */
  ghost predicate OnlyOne(m: multiset<Record>, kind: nat) {
    forall x, y :: x in m && y in m && x.kind == kind && y.kind == kind ==> x == y && m[x] == 1
  }

  ghost predicate Has(m: multiset<Record>, kind: nat) {
    exists r :: r in m && r.kind == kind
  }

  ghost predicate Consistent(m: multiset<Record>, offered: seq<nat>, names: NameReader) {
    && (forall r :: r in m ==> IsAcceptable(r, offered, names))
    && OnlyOne(m, NEXT_PROTOCOL) && OnlyOne(m, ALGORITHM) && OnlyOne(m, SERVER) && OnlyOne(m, PORT)
    && OnlyOne(m, EXPORTER)
  }

  /** The records of an acceptable response. */
  ghost predicate Complete(m: multiset<Record>, offered: seq<nat>, names: NameReader) {
    Consistent(m, offered, names) && Has(m, NEXT_PROTOCOL) && Has(m, ALGORITHM) && Has(m, COOKIE)
  }

  function CookiesOf(records: seq<Record>): seq<seq<Octet>> {
    if records == [] then []
    else
      var last := records[|records| - 1];
      CookiesOf(records[..|records| - 1]) + if last.kind == COOKIE then [last.body] else []
  }

  /** What the records say apart from the cookies. */
  ghost predicate Says(m: multiset<Record>, names: NameReader, p: Response) {
    && (forall r :: r in m && r.kind == ALGORITHM && |r.body| == 2 ==> p.algorithm == Value16(r.body))
    && (forall r :: r in m && r.kind == SERVER && names(r.body).Some? ==> p.server == names(r.body).value)
    && (forall r :: r in m && r.kind == PORT && |r.body| == 2 ==> p.port == Value16(r.body))
    && (!Has(m, SERVER) ==> p.server == "") && (!Has(m, PORT) ==> p.port == 123)
  }

  /** The data start with an acceptable message that says `p`. */
  ghost predicate IsResponse(data: seq<Octet>, offered: seq<nat>, names: NameReader, p: Response) {
    match Message(data)
    case None => false
    case Some(records) =>
      && Size(records) + 4 <= 65_536
      && Complete(multiset(records), offered, names)
      && Says(multiset(records), names, p) && p.cookies == CookiesOf(records)
  }

  // ----- one more record -----

  lemma OneMore(done: seq<Record>, r: Record)
    ensures multiset(done + [r]) == multiset(done) + multiset{r}
    ensures forall x :: x in multiset(done + [r]) <==> x in multiset(done) || x == r
  {
  }

  lemma OnlyOneMore(m: multiset<Record>, r: Record, kind: nat)
    ensures OnlyOne(m + multiset{r}, kind) <==> OnlyOne(m, kind) && (r.kind == kind ==> !Has(m, kind))
  {
    var n := m + multiset{r};
    if OnlyOne(n, kind) {
      forall x, y | x in m && y in m && x.kind == kind && y.kind == kind
        ensures x == y && m[x] == 1
      {
        assert x in n && y in n;
      }
      forall x | x in m && x.kind == kind
        ensures r.kind != kind
      {
        assert x in n && r in n && n[r] == m[r] + 1;
      }
    } else if OnlyOne(m, kind) && (r.kind == kind ==> !Has(m, kind)) {
      forall x, y | x in n && y in n && x.kind == kind && y.kind == kind
        ensures x == y && n[x] == 1
      {
        if r.kind == kind {
          assert x !in m && y !in m;
        } else {
          assert x in m && y in m;
        }
      }
    }
  }

  lemma AllOnlyOneMore(m: multiset<Record>, r: Record)
    requires OnlyOne(m, NEXT_PROTOCOL) && OnlyOne(m, ALGORITHM) && OnlyOne(m, SERVER) && OnlyOne(m, PORT)
    requires OnlyOne(m, EXPORTER)
    ensures (IsSingle(r.kind) ==> !Has(m, r.kind)) <==>
            (var n := m + multiset{r};
             OnlyOne(n, NEXT_PROTOCOL) && OnlyOne(n, ALGORITHM) && OnlyOne(n, SERVER) && OnlyOne(n, PORT)
             && OnlyOne(n, EXPORTER))
  {
    OnlyOneMore(m, r, NEXT_PROTOCOL);
    OnlyOneMore(m, r, ALGORITHM);
    OnlyOneMore(m, r, SERVER);
    OnlyOneMore(m, r, PORT);
    OnlyOneMore(m, r, EXPORTER);
  }

  /** One more record keeps the list consistent exactly when it is acceptable and not a repeated single one. */
  lemma ConsistentMore(done: seq<Record>, r: Record, offered: seq<nat>, names: NameReader)
    requires Consistent(multiset(done), offered, names)
    ensures Consistent(multiset(done + [r]), offered, names) <==>
            IsAcceptable(r, offered, names) && (IsSingle(r.kind) ==> !Has(multiset(done), r.kind))
  {
    OneMore(done, r);
    AllOnlyOneMore(multiset(done), r);
    assert r in multiset(done + [r]);
  }

  lemma OnlyOneFewer(m: multiset<Record>, k: multiset<Record>, kind: nat)
    requires OnlyOne(m + k, kind)
    ensures OnlyOne(m, kind)
  {
    forall x, y | x in m && y in m && x.kind == kind && y.kind == kind
      ensures x == y && m[x] == 1
    {
      assert x in m + k && y in m + k;
    }
  }

  lemma ConsistentFewer(a: seq<Record>, b: seq<Record>, offered: seq<nat>, names: NameReader)
    requires Consistent(multiset(a + b), offered, names)
    ensures Consistent(multiset(a), offered, names)
  {
    var m, k := multiset(a), multiset(b);
    assert multiset(a + b) == m + k;
    forall r | r in m
      ensures IsAcceptable(r, offered, names)
    {
      assert r in m + k;
    }
    OnlyOneFewer(m, k, NEXT_PROTOCOL);
    OnlyOneFewer(m, k, ALGORITHM);
    OnlyOneFewer(m, k, SERVER);
    OnlyOneFewer(m, k, PORT);
    OnlyOneFewer(m, k, EXPORTER);
  }

  /** The reader has got as far as `done`. */
  ghost predicate HasRead(data: seq<Octet>, done: seq<Record>, rest: seq<Octet>) {
    Message(data) == Before(done, Message(rest))
  }

  lemma NotAResponse(data: seq<Octet>, offered: seq<nat>, names: NameReader, done: seq<Record>, rest: seq<Octet>)
    requires HasRead(data, done, rest)
    requires Message(rest).None? || Size(done) + 4 > MAX_MESSAGE || !Consistent(multiset(done), offered, names)
    ensures forall p :: !IsResponse(data, offered, names, p)
  {
    match Message(rest)
    case None =>
    case Some(more) =>
      SizesAdd(done, more);
      if Consistent(multiset(done + more), offered, names) {
        ConsistentFewer(done, more, offered, names);
      }
  }

  lemma HasMore(done: seq<Record>, r: Record, kind: nat)
    ensures Has(multiset(done + [r]), kind) <==> Has(multiset(done), kind) || r.kind == kind
  {
    OneMore(done, r);
    if Has(multiset(done), kind) {
      var x :| x in multiset(done) && x.kind == kind;
      assert x in multiset(done + [r]);
    }
    assert r in multiset(done + [r]);
  }

  /** The effect of one more acceptable record on what has been said. */
  function Told(p: Response, r: Record, names: NameReader): Response {
    if r.kind == ALGORITHM && |r.body| == 2 then p.(algorithm := Value16(r.body))
    else if r.kind == COOKIE then p.(cookies := p.cookies + [r.body])
    else if r.kind == SERVER && names(r.body).Some? then p.(server := names(r.body).value)
    else if r.kind == PORT && |r.body| == 2 then p.(port := Value16(r.body))
    else p
  }

  lemma SaysMore(done: seq<Record>, r: Record, names: NameReader, p: Response)
    requires Says(multiset(done), names, p) && (IsSingle(r.kind) ==> !Has(multiset(done), r.kind))
    requires r.kind == SERVER ==> names(r.body).Some?
    requires r.kind == PORT ==> |r.body| == 2
    ensures Says(multiset(done + [r]), names, Told(p, r, names))
  {
    OneMore(done, r);
    var m, n := multiset(done), multiset(done + [r]);
    HasMore(done, r, SERVER);
    HasMore(done, r, PORT);
  }

  lemma CookiesMore(done: seq<Record>, r: Record)
    ensures CookiesOf(done + [r]) == CookiesOf(done) + if r.kind == COOKIE then [r.body] else []
  {
    assert (done + [r])[..|done|] == done;
  }

  lemma {:induction false} HasCookie(done: seq<Record>)
    ensures Has(multiset(done), COOKIE) <==> CookiesOf(done) != []
  {
    if done != [] {
      var n := |done| - 1;
      HasCookie(done[..n]);
      HasMore(done[..n], done[n], COOKIE);
      assert done == done[..n] + [done[n]];
    }
  }

  // ----- the reader -----

  /** Why a record is not taken; `repeated` tells of an earlier record of its kind. */
  function RecordFault(r: Record, offered: seq<nat>, names: NameReader, repeated: bool): Option<Fault> {
    if r.kind == NEXT_PROTOCOL then
      if repeated || !r.critical || |r.body| != 2 || Value16(r.body) != 0 then Some(InvalidRecord) else None
    else if r.kind == ALGORITHM then
      if repeated || |r.body| != 2 then Some(InvalidRecord)
      else if Value16(r.body) in offered && Value16(r.body) in REGISTRY then None else Some(UnsupportedAlgorithm)
    else if r.kind == COOKIE then if ValidCookieSize(|r.body|) then None else Some(InvalidCookie)
    else if r.kind == ERROR then Some(ServerReportedError)
    else if r.kind == WARNING then
      Some(if !r.critical || |r.body| != 2 then InvalidRecord else ServerReportedWarning)
    else if r.kind == SERVER then
      if repeated then Some(InvalidRecord) else if names(r.body).None? then Some(InvalidServerName) else None
    else if r.kind == PORT then
      if repeated || |r.body| != 2 || Value16(r.body) == 0 then Some(InvalidRecord) else None
    else if r.kind == EXPORTER then if repeated || |r.body| != 0 then Some(InvalidRecord) else None
    else if r.critical then Some(UnknownCriticalRecord) else None
  }

  lemma FaultlessIsAcceptable(r: Record, offered: seq<nat>, names: NameReader, repeated: bool)
    ensures RecordFault(r, offered, names, repeated).None? <==>
            IsAcceptable(r, offered, names) && (IsSingle(r.kind) ==> !repeated)
  {
  }

  method IsOffered(offered: seq<nat>, id: nat) returns (supported: bool)
    ensures supported <==> id in offered
  {
    supported := false;
    for i := 0 to |offered|
      invariant supported <==> id in offered[..i]
    {
      if offered[i] == id {
        supported := true;
      }
    }
    assert offered[..|offered|] == offered;
  }

  /** What happens to one record; `seen` holds the single kinds so far. */
  method TakeRecord(r: Record, offered: seq<nat>, names: NameReader, seen: set<nat>, p: Response)
      returns (fault: Option<Fault>, seen': set<nat>, p': Response)
    requires r.kind != END_OF_MESSAGE
    ensures fault == RecordFault(r, offered, names, r.kind in seen)
    ensures fault.None? ==> p' == Told(p, r, names) && seen' == seen + if IsSingle(r.kind) then {r.kind} else {}
  {
    fault, seen', p' := None, seen, p;
    var size := |r.body|;
    if r.kind == NEXT_PROTOCOL {
      if r.kind in seen || !r.critical || size != 2 || Value16(r.body) != 0 {
        return Some(InvalidRecord), seen, p;
      }
      seen' := seen + {r.kind};
    } else if r.kind == ALGORITHM {
      if r.kind in seen || size != 2 {
        return Some(InvalidRecord), seen, p;
      }
      seen' := seen + {r.kind};
      var id := Value16(r.body);
      var supported := IsOffered(offered, id);
      if !supported || id !in REGISTRY {
        return Some(UnsupportedAlgorithm), seen, p;
      }
      p' := p.(algorithm := id);
    } else if r.kind == COOKIE {
      if !ValidCookieSize(size) {
        return Some(InvalidCookie), seen, p;
      }
      p' := p.(cookies := p.cookies + [r.body]);
    } else if r.kind == ERROR {
      return Some(ServerReportedError), seen, p;
    } else if r.kind == WARNING {
      if !r.critical || size != 2 {
        return Some(InvalidRecord), seen, p;
      }
      return Some(ServerReportedWarning), seen, p;
    } else if r.kind == SERVER {
      if r.kind in seen {
        return Some(InvalidRecord), seen, p;
      }
      seen' := seen + {r.kind};
      var name := names(r.body);
      match name {
        case None => return Some(InvalidServerName), seen, p;
        case Some(n) => p' := p.(server := n);
      }
    } else if r.kind == PORT {
      if r.kind in seen || size != 2 || Value16(r.body) == 0 {
        return Some(InvalidRecord), seen, p;
      }
      seen' := seen + {r.kind};
      p' := p.(port := Value16(r.body));
    } else if r.kind == EXPORTER {
      if r.kind in seen || size != 0 {
        return Some(InvalidRecord), seen, p;
      }
      seen' := seen + {r.kind};
    } else if r.critical {
      return Some(UnknownCriticalRecord), seen, p;
    }
  }

  /** What is known after reading `done`. */
  ghost predicate Knows(done: seq<Record>, offered: seq<nat>, names: NameReader, seen: set<nat>, p: Response) {
    && Consistent(multiset(done), offered, names) && Says(multiset(done), names, p) && p.cookies == CookiesOf(done)
    && SeenIs(done, seen)
  }

  lemma KnowsMore(done: seq<Record>, offered: seq<nat>, names: NameReader, seen: set<nat>, p: Response, r: Record)
    requires Knows(done, offered, names, seen, p)
    requires IsAcceptable(r, offered, names) && (IsSingle(r.kind) ==> r.kind !in seen)
    ensures Knows(done + [r], offered, names, seen + if IsSingle(r.kind) then {r.kind} else {}, Told(p, r, names))
  {
    ConsistentMore(done, r, offered, names);
    SaysMore(done, r, names, p);
    CookiesMore(done, r);
    SeenMore(done, seen, r);
  }

  ghost predicate SeenIs(done: seq<Record>, seen: set<nat>) {
    forall k :: IsSingle(k) ==> (k in seen <==> Has(multiset(done), k))
  }

  lemma SeenMore(done: seq<Record>, seen: set<nat>, r: Record)
    requires SeenIs(done, seen)
    ensures SeenIs(done + [r], seen + if IsSingle(r.kind) then {r.kind} else {})
  {
    forall k | IsSingle(k)
      ensures k in seen + (if IsSingle(r.kind) then {r.kind} else {}) <==> Has(multiset(done + [r]), k)
    {
      HasMore(done, r, k);
    }
  }

  lemma KnowsNothing(offered: seq<nat>, names: NameReader)
    ensures Knows([], offered, names, {}, Response(0, [], "", 123))
  {
  }

  /** The state of the reader: what it knows about the records it has taken. */
  ghost predicate Reading(data: seq<Octet>, offered: seq<nat>, names: NameReader, done: seq<Record>, rest: seq<Octet>,
                          seen: set<nat>, p: Response, total: nat) {
    HasRead(data, done, rest) && Knows(done, offered, names, seen, p) && total == Size(done)
  }

  ghost predicate NoResponse(data: seq<Octet>, offered: seq<nat>, names: NameReader) {
    forall p :: !IsResponse(data, offered, names, p)
  }

  lemma StopsReading(data: seq<Octet>, offered: seq<nat>, names: NameReader, done: seq<Record>, rest: seq<Octet>,
                     seen: set<nat>, p: Response, total: nat)
    requires Reading(data, offered, names, done, rest, seen, p, total)
    requires total + 4 > MAX_MESSAGE || Message(rest).None?
    ensures NoResponse(data, offered, names)
  {
    NotAResponse(data, offered, names, done, rest);
  }

  /** At the end record the response is complete or there is none. */
  lemma EndsReading(data: seq<Octet>, offered: seq<nat>, names: NameReader, done: seq<Record>, rest: seq<Octet>,
                    seen: set<nat>, p: Response, total: nat)
    requires Reading(data, offered, names, done, rest, seen, p, total)
    requires total + 4 <= MAX_MESSAGE && HasHead(rest) && Head(rest) == END
    ensures if NEXT_PROTOCOL in seen && ALGORITHM in seen && p.cookies != [] then IsResponse(data, offered, names, p)
            else NoResponse(data, offered, names)
  {
    HasCookie(done);
    assert done + [] == done;
    assert Message(data) == Some(done);
    assert IsSingle(NEXT_PROTOCOL) && IsSingle(ALGORITHM);
  }

  /** A record that is not the end is taken, or there is no response. */
  lemma GoesOnReading(data: seq<Octet>, offered: seq<nat>, names: NameReader, done: seq<Record>, rest: seq<Octet>,
                      seen: set<nat>, p: Response, total: nat)
    requires Reading(data, offered, names, done, rest, seen, p, total)
    requires HasHead(rest) && Head(rest).kind != END_OF_MESSAGE
    ensures var r := Head(rest);
            var size := total + 4 + |r.body|;
            if size <= MAX_MESSAGE && IsAcceptable(r, offered, names) && (IsSingle(r.kind) ==> r.kind !in seen)
            then Reading(data, offered, names, done + [r], Rest(rest),
                         seen + if IsSingle(r.kind) then {r.kind} else {}, Told(p, r, names), size)
            else NoResponse(data, offered, names)
  {
    var r := Head(rest);
    ReadMore(data, done, rest);
    ConsistentMore(done, r, offered, names);
    if total + 4 + |r.body| <= MAX_MESSAGE && IsAcceptable(r, offered, names) && (IsSingle(r.kind) ==> r.kind !in seen) {
      KnowsMore(done, offered, names, seen, p, r);
    } else {
      NotAResponse(data, offered, names, done + [r], Rest(rest));
    }
  }

  lemma StartsReading(data: seq<Octet>, offered: seq<nat>, names: NameReader)
    ensures Reading(data, offered, names, [], data, {}, Response(0, [], "", 123), 0)
  {
    KnowsNothing(offered, names);
    ReadNothing(data);
  }

  /** Reading comes to an end, or goes on with a record that is not the end. */
  datatype Turn = Stop(result: Result<Response>) | GoOn(record: Record)

  /** Frames the next record within the budget, and deals with the end of the message. */
  method NextTurn(data: seq<Octet>, offered: seq<nat>, names: NameReader, ghost done: seq<Record>, rest: seq<Octet>,
                  seen: set<nat>, p: Response, total: nat) returns (turn: Turn)
    requires Reading(data, offered, names, done, rest, seen, p, total)
    ensures turn.Stop? ==>
              if turn.result.Success? then IsResponse(data, offered, names, turn.result.value)
              else NoResponse(data, offered, names)
    ensures turn.GoOn? ==>
              && HasHead(rest) && turn.record == Head(rest) && Head(rest).kind != END_OF_MESSAGE
              && total + 4 + |Head(rest).body| <= MAX_MESSAGE
  {
    if total > MAX_MESSAGE - 4 {
      StopsReading(data, offered, names, done, rest, seen, p, total);
      return Stop(Failure(RecordCapExceeded));
    }
    if |rest| < 4 {
      StopsReading(data, offered, names, done, rest, seen, p, total);
      return Stop(Failure(IncompleteResponse));
    }
    var word := Value16(rest[..2]);
    var kind := word % CRITICAL_BIT;
    var critical := word >= CRITICAL_BIT;
    var size := Value16(rest[2..4]);
    if total + 4 + size > MAX_MESSAGE || |rest| < 4 + size {
      NoRoom(data, offered, names, done, rest, seen, p, total);
      return Stop(Failure(if total + 4 + size > MAX_MESSAGE then RecordCapExceeded else TruncatedRecord));
    }
    var record := Record(critical, kind, rest[4..4 + size]);
    assert HasHead(rest) && record == Head(rest);
    if kind != END_OF_MESSAGE {
      return GoOn(record);
    }
    if !critical || size != 0 {
      StopsReading(data, offered, names, done, rest, seen, p, total);
      return Stop(Failure(InvalidRecord));
    }
    EndsReading(data, offered, names, done, rest, seen, p, total);
    if NEXT_PROTOCOL !in seen || ALGORITHM !in seen || |p.cookies| == 0 {
      return Stop(Failure(IncompleteResponse));
    }
    return Stop(Success(p));
  }

  /** Reads the response from a stream: it succeeds exactly when the stream starts with an acceptable
      message, and returns what the message says. */
  method ReadServerResponse(data: seq<Octet>, offered: seq<nat>, names: NameReader) returns (r: Result<Response>)
    ensures r.Success? ==> IsResponse(data, offered, names, r.value)
    ensures r.Failure? ==> NoResponse(data, offered, names)
  {
    var response := Response(0, [], "", 123);
    var seen: set<nat> := {};
    var total: nat := 0;
    var rest := data;
    ghost var done: seq<Record> := [];
    StartsReading(data, offered, names);
    while true
      invariant Reading(data, offered, names, done, rest, seen, response, total)
      decreases |rest|
    {
      var turn := NextTurn(data, offered, names, done, rest, seen, response, total);
      match turn {
        case Stop(result) =>
          return result;
        case GoOn(record) =>
          GoesOnReading(data, offered, names, done, rest, seen, response, total);
          FaultlessIsAcceptable(record, offered, names, record.kind in seen);
          var fault;
          fault, seen, response := TakeRecord(record, offered, names, seen, response);
          if fault.Some? {
            return Failure(fault.value);
          }
          total := total + 4 + |record.body|;
          done := done + [record];
          rest := Rest(rest);
      }
    }
  }

  /** A record that does not fit the budget or the data. */
  lemma NoRoom(data: seq<Octet>, offered: seq<nat>, names: NameReader, done: seq<Record>, rest: seq<Octet>,
               seen: set<nat>, p: Response, total: nat)
    requires Reading(data, offered, names, done, rest, seen, p, total) && |rest| >= 4 && total + 4 <= MAX_MESSAGE
    requires total + 4 + Value16(rest[2..4]) > MAX_MESSAGE || |rest| < 4 + Value16(rest[2..4])
    ensures NoResponse(data, offered, names)
  {
    if HasHead(rest) && Head(rest).kind != END_OF_MESSAGE {
      GoesOnReading(data, offered, names, done, rest, seen, p, total);
    } else {
      assert Message(rest).None?;
      StopsReading(data, offered, names, done, rest, seen, p, total);
    }
  }

  lemma ReadNothing(data: seq<Octet>)
    ensures HasRead(data, [], data)
  {
    if Message(data).Some? {
      assert [] + Message(data).value == Message(data).value;
    }
  }

  lemma ReadMore(data: seq<Octet>, done: seq<Record>, rest: seq<Octet>)
    requires HasRead(data, done, rest) && HasHead(rest) && Head(rest).kind != END_OF_MESSAGE
    ensures HasRead(data, done + [Head(rest)], Rest(rest)) && Size(done + [Head(rest)]) == Size(done) + 4 + |Head(rest).body|
  {
    BeforeTwice(done, [Head(rest)], Message(Rest(rest)));
    assert (done + [Head(rest)])[..|done|] == done;
  }

  // ----- what the result depends on -----

  /** Only the octets through the end of the message matter. */
  lemma OnlyTheMessageMatters(data: seq<Octet>, offered: seq<nat>, names: NameReader, p: Response, after: seq<Octet>)
    requires Message(data).Some?
    ensures var message := Encoded(Message(data).value + [END]);
            message <= data && (IsResponse(data, offered, names, p) <==> IsResponse(message + after, offered, names, p))
  {
    MessageIsEncoded(data);
    MessageIsPrefix(Message(data).value, after);
  }

  lemma {:induction false} SizeOfPermutation(a: seq<Record>, b: seq<Record>)
    requires multiset(a) == multiset(b)
    ensures Size(a) == Size(b)
    decreases |a|
  {
    if a == [] {
      assert |multiset(b)| == 0;
    } else {
      var n := |a| - 1;
      var x := a[n];
      assert a == a[..n] + [x];
      assert x in multiset(a) && x in multiset(b);
      var j :| 0 <= j < |b| && b[j] == x;
      var c := b[..j] + b[j + 1..];
      assert b == b[..j] + [x] + b[j + 1..];
      MultisetOfSplit(b[..j], x, b[j + 1..]);
      MultisetOfSplit(a[..n], x, []);
      assert a == a[..n] + [x] + [] && a[..n] + [] == a[..n];
      SameRemainder(multiset(a[..n]), multiset(c), x);
      SizeOfPermutation(a[..n], c);
      SizesAdd(b[..j] + [x], b[j + 1..]);
      SizesAdd(b[..j], [x]);
      SizesAdd(b[..j], b[j + 1..]);
      SizesAdd(a[..n], [x]);
    }
  }

  lemma MultisetOfSplit(a: seq<Record>, x: Record, b: seq<Record>)
    ensures multiset(a + [x] + b) == multiset(a + b) + multiset{x}
  {
  }

  lemma SameRemainder(a: multiset<Record>, b: multiset<Record>, x: Record)
    requires a + multiset{x} == b + multiset{x}
    ensures a == b
  {
    forall y
      ensures a[y] == b[y]
    {
      assert (a + multiset{x})[y] == (b + multiset{x})[y];
    }
  }

  /** How often a cookie occurs is how often its two possible records do. */
  lemma {:induction false} CookieCount(s: seq<Record>, c: seq<Octet>)
    ensures multiset(CookiesOf(s))[c] == multiset(s)[Record(true, COOKIE, c)] + multiset(s)[Record(false, COOKIE, c)]
  {
    if s != [] {
      var front, last := s[..|s| - 1], s[|s| - 1];
      CookieCount(front, c);
      assert s == front + [last];
      OneMoreCookie(front, last, c);
      OneMoreRecord(front, last, Record(true, COOKIE, c));
      OneMoreRecord(front, last, Record(false, COOKIE, c));
    }
  }

  lemma OneMoreCookie(front: seq<Record>, last: Record, c: seq<Octet>)
    ensures multiset(CookiesOf(front + [last]))[c]
            == multiset(CookiesOf(front))[c] + if last.kind == COOKIE && last.body == c then 1 else 0
  {
    CookiesMore(front, last);
  }

  lemma OneMoreRecord(front: seq<Record>, last: Record, r: Record)
    ensures multiset(front + [last])[r] == multiset(front)[r] + if last == r then 1 else 0
  {
  }

  lemma SaysTheSame(m: multiset<Record>, offered: seq<nat>, names: NameReader, p: Response, q: Response)
    requires Complete(m, offered, names) && Says(m, names, p) && Says(m, names, q)
    ensures p.algorithm == q.algorithm && p.server == q.server && p.port == q.port
  {
    var r :| r in m && r.kind == ALGORITHM;
    if Has(m, SERVER) {
      var x :| x in m && x.kind == SERVER;
    }
    if Has(m, PORT) {
      var x :| x in m && x.kind == PORT;
    }
  }

  /** Permuting the records before the end changes neither acceptance nor the algorithm, the server, the
      port or the multiset of cookies. */
  lemma OrderDoesNotMatter(a: seq<Octet>, b: seq<Octet>, offered: seq<nat>, names: NameReader, p: Response)
    requires Message(a).Some? && Message(b).Some? && multiset(Message(a).value) == multiset(Message(b).value)
    requires IsResponse(a, offered, names, p)
    ensures var q := p.(cookies := CookiesOf(Message(b).value));
            IsResponse(b, offered, names, q) && multiset(q.cookies) == multiset(p.cookies)
    ensures forall q :: IsResponse(b, offered, names, q) ==>
                          && q.algorithm == p.algorithm && q.server == p.server && q.port == p.port
                          && multiset(q.cookies) == multiset(p.cookies)
  {
    var x, y := Message(a).value, Message(b).value;
    SizeOfPermutation(x, y);
    forall c
      ensures multiset(CookiesOf(x))[c] == multiset(CookiesOf(y))[c]
    {
      CookieCount(x, c);
      CookieCount(y, c);
    }
    assert multiset(CookiesOf(x)) == multiset(CookiesOf(y));
    forall q | IsResponse(b, offered, names, q)
      ensures q.algorithm == p.algorithm && q.server == p.server && q.port == p.port
      ensures multiset(q.cookies) == multiset(p.cookies)
    {
      SaysTheSame(multiset(x), offered, names, p, q);
    }
  }

  /** Every accepted cookie fits a request under the negotiated algorithm. */
  lemma AcceptedCookiesFit(data: seq<Octet>, offered: seq<nat>, names: NameReader, p: Response, i: nat, requested: int)
    requires IsResponse(data, offered, names, p) && i < |p.cookies| && requested >= 0
    ensures p.algorithm in REGISTRY
    ensures RequestPlaceholderCount(|p.cookies[i]|, requested, Some(REGISTRY[p.algorithm])).Success?
  {
    var records := Message(data).value;
    var r: Record :| r in multiset(records) && r.kind == ALGORITHM;
    assert IsAcceptable(r, offered, names) && p.algorithm == Value16(r.body);
    CookieIsRecord(records, i);
    RegisteredCookiesFit(p.algorithm, |p.cookies[i]|, requested);
  }

  lemma {:induction false} CookieIsRecord(records: seq<Record>, i: nat)
    requires i < |CookiesOf(records)|
    ensures exists r: Record :: r in multiset(records) && r.kind == COOKIE && r.body == CookiesOf(records)[i]
  {
    var n := |records| - 1;
    if i < |CookiesOf(records[..n])| {
      CookieIsRecord(records[..n], i);
      var r: Record :| r in multiset(records[..n]) && r.kind == COOKIE && r.body == CookiesOf(records[..n])[i];
      assert r in records;
    } else {
      assert records[n] in multiset(records);
    }
  }
}
