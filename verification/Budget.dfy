/** Packet and cookie budgets of protected requests: section 5.7 of RFC 8915. */
module Budget {
  import opened Octets
  import opened Outcomes
  import opened FixedPoint
  import opened Extension

  const MAX_PACKET: int := 65_507
  const PREFERRED_PACKET: int := 1_232
  const MAX_PLACEHOLDERS: int := 7
  const HEADER: int := 48

  /** The largest multiple of four within the packet limit, less the header, the identifier field, the
      cookie's header and the largest authenticator of the registered algorithms. */
  const MAX_COOKIE: int := MAX_PACKET / 4 * 4 - 48 - 36 - 4 - 40

  predicate ValidCookieSize(size: int) {
    0 < size <= MAX_COOKIE
  }

  function PaddedLength(size: int): int {
    (size + 3) / 4 * 4
  }

  function Max(a: int, b: int): int {
    if a > b then a else b
  }

  function Min(a: int, b: int): int {
    if a < b then a else b
  }

  /** Nonce and tag sizes of an algorithm. */
  datatype Sizes = Sizes(nonce: int, tag: int)

  /** The registered algorithms: 15 is AES-SIV-CMAC-256, 30 is AES-128-GCM-SIV. */
  const REGISTRY: map<nat, Sizes> := map[15 := Sizes(16, 16), 30 := Sizes(12, 16)]

  function BaseSize(s: Sizes): int {
    48 + 36 + 8 + PaddedLength(s.nonce) + PaddedLength(s.tag)
  }

  function CookieFieldSize(cookieSize: int): int {
    4 + PaddedLength(cookieSize)
  }

  /** How many placeholders a request carries; without an algorithm there is no request. */
  function RequestPlaceholderCount(cookieSize: int, requested: int, sizes: Option<Sizes>): (r: Result<int>)
    ensures r.Success? ==> sizes.Some? && 0 <= r.value <= requested && r.value <= MAX_PLACEHOLDERS
  {
    if !ValidCookieSize(cookieSize) then Failure(InvalidCookie)
    else if requested < 0 then Failure(NegativeCount)
    else if sizes.None? then Failure(InvalidAead)
    else
      var s := sizes.value;
      if s.nonce <= 0 || s.nonce > 65535 || s.tag <= 0 || s.tag > 65535 then Failure(InvalidAead)
      else if BaseSize(s) + CookieFieldSize(cookieSize) > MAX_PACKET then Failure(PacketTooLarge)
      else
        var available := Max(0, TruncDiv(PREFERRED_PACKET - BaseSize(s), CookieFieldSize(cookieSize)) - 1);
        Success(Min(Min(requested, MAX_PLACEHOLDERS), available))
  }

  /** The most a request with `n` placeholders can take. */
  function RequestSize(cookieSize: int, n: int, s: Sizes): int {
    BaseSize(s) + (n + 1) * CookieFieldSize(cookieSize)
  }

  /** The count keeps the packet within the limits, and is the largest that does. */
  lemma PlaceholdersFit(cookieSize: int, requested: int, s: Sizes, n: int)
    requires RequestPlaceholderCount(cookieSize, requested, Some(s)) == Success(n)
    ensures 0 <= n <= requested && n <= 7
    ensures RequestSize(cookieSize, n, s) <= 65_507
    ensures n > 0 ==> RequestSize(cookieSize, n, s) <= 1_232
    ensures n < requested && n < 7 ==> RequestSize(cookieSize, n + 1, s) > 1_232
  {
    var room, field := PREFERRED_PACKET - BaseSize(s), CookieFieldSize(cookieSize);
    QuotientFits(room, field);
    var available := Max(0, TruncDiv(room, field) - 1);
    if n > 0 {
      assert (n + 1) * field <= TruncDiv(room, field) * field by {
        ProductGrows(n + 1, TruncDiv(room, field), field);
      }
    }
    if n < requested && n < MAX_PLACEHOLDERS {
      assert n == available && n + 2 >= TruncDiv(room, field) + 1;
      ProductGrows(TruncDiv(room, field) + 1, n + 2, field);
    }
  }

  lemma ProductGrows(a: int, b: int, c: int)
    requires a <= b && c >= 0
    ensures a * c <= b * c
  {
  }

  lemma QuotientFits(room: int, field: int)
    requires field > 0
    ensures room >= 0 ==> TruncDiv(room, field) * field <= room
    ensures room < 0 ==> TruncDiv(room, field) <= 0
    ensures room < (TruncDiv(room, field) + 1) * field
  {
    var q := TruncDiv(room, field);
    Distribute(q, field);
    if room < 0 {
      Euclid(0 - room, field);
      Negate((0 - room) / field, field);
    } else {
      Euclid(room, field);
    }
  }

  lemma Distribute(q: int, f: int)
    ensures (q + 1) * f == q * f + f
  {
  }

  lemma Negate(q: int, f: int)
    ensures (0 - q) * f == 0 - q * f
  {
  }

  lemma Euclid(n: nat, f: int)
    requires f > 0
    ensures n / f * f <= n < n / f * f + f && n / f >= 0
  {
  }

  /** Every cookie of valid size fits a request under either registered algorithm. */
  lemma RegisteredCookiesFit(id: nat, cookieSize: int, requested: int)
    requires id in REGISTRY && requested >= 0
    ensures RequestPlaceholderCount(cookieSize, requested, Some(REGISTRY[id])).Success? <==> ValidCookieSize(cookieSize)
  {
  }

  /** The bound is tight: with algorithm 15 no larger cookie fits. */
  lemma LargerCookiesDoNotFit(cookieSize: int)
    requires cookieSize > MAX_COOKIE
    ensures BaseSize(REGISTRY[15]) + CookieFieldSize(cookieSize) > MAX_PACKET
  {
  }

  // ----- responses -----

  /** What a field counts for: the longer of its wire image and its re-encoding. */
  function CountedSize(f: Field): int {
    Max(4 + PaddedLength(|f.value|), |f.wire|)
  }

  function TotalSize(fields: seq<Field>, n: nat): int
    requires n <= |fields|
  {
    if n == 0 then HEADER else TotalSize(fields, n - 1) + CountedSize(fields[n - 1])
  }

  lemma {:induction false} TotalsAscend(fields: seq<Field>, m: nat, n: nat)
    requires m <= n <= |fields|
    ensures TotalSize(fields, m) <= TotalSize(fields, n)
    decreases n
  {
    if m < n {
      TotalsAscend(fields, m, n - 1);
    }
  }

  /** Fails exactly when the header is not 48 octets or the counted sizes exceed a datagram. */
  method CheckResponsePacketSize(header: seq<Octet>, fields: seq<Field>) returns (r: Option<Fault>)
    ensures |header| != HEADER ==> r == Some(InvalidHeader)
    ensures |header| == HEADER ==> r == if TotalSize(fields, |fields|) <= MAX_PACKET then None else Some(PacketTooLarge)
  {
    if |header| != HEADER {
      return Some(InvalidHeader);
    }
    var total := |header|;
    for i := 0 to |fields|
      invariant total == TotalSize(fields, i) <= MAX_PACKET
    {
      var f := fields[i];
      TotalsAscend(fields, i + 1, |fields|);
      TotalsAscend(fields, 0, i);
      if |f.value| > MAX_PACKET || |f.wire| > MAX_PACKET {
        return Some(PacketTooLarge);
      }
      var size := Max(4 + PaddedLength(|f.value|), |f.wire|);
      if size > MAX_PACKET - total {
        return Some(PacketTooLarge);
      }
      total := total + size;
    }
    return None;
  }
}
